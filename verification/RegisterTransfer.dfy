/** Registers on the wire: two bytes each, high byte first, on both ends of a connection. */
module RegisterTransfer {
  import opened Bytes
  import CoilPacking

  const READ_REGISTERS_MAX := 125
  const WRITE_REGISTERS_MAX := 123
  const RW_REGISTERS_WRITE_MAX := 121

  // ---------- Specification ----------

  /** Register `k`; of a value only the low 16 bits travel, and entries that are missing read as 0. */
  function Register(values: seq<int>, k: nat): nat {
    if k < |values| then values[k] % 0x1_0000 else 0
  }

  function Registers(values: seq<int>, length: nat): seq<nat> {
    seq(length, k requires 0 <= k < length => Register(values, k))
  }

  function Halves(values: seq<int>, length: nat): seq<byte> {
    seq(2 * length, i requires 0 <= i < 2 * length =>
      if i % 2 == 0 then High(Register(values, i / 2)) else Low(Register(values, i / 2)))
  }

  function Words(bytes: seq<byte>, length: nat): seq<nat>
    requires 2 * length <= |bytes|
  {
    seq(length, k requires 0 <= k < length => Word(bytes[2 * k], bytes[2 * k + 1]))
  }

  /** Reading the bytes back gives the registers. */
  lemma WordsInvertHalves(values: seq<int>, length: nat)
    ensures |Halves(values, length)| == 2 * length
    ensures Words(Halves(values, length), length) == Registers(values, length)
  {
    hide Word, High, Low, Register;
    forall k | 0 <= k < length ensures Words(Halves(values, length), length)[k] == Register(values, k) {
      WordOfHalves(Register(values, k));
      RegisterFits(values, k);
      assert (2 * k) / 2 == k && (2 * k + 1) / 2 == k;
    }
  }

  lemma RegisterFits(values: seq<int>, k: nat)
    ensures Register(values, k) < 0x1_0000
  {
  }

  /** Any even number of bytes is the registers read from it. */
  lemma HalvesInvertWords(bytes: seq<byte>, length: nat)
    requires |bytes| == 2 * length
    ensures Halves(Words(bytes, length), length) == bytes
  {
    hide Word, High, Low;
    var values := Words(bytes, length);
    forall i | 0 <= i < 2 * length ensures Halves(values, length)[i] == bytes[i] {
      var k := i / 2;
      HalvesOfWord(bytes[2 * k], bytes[2 * k + 1]);
      assert Register(values, k) == Word(bytes[2 * k], bytes[2 * k + 1]);
      assert i == 2 * k || i == 2 * k + 1;
    }
  }

  // ---------- The loops ----------

  /** Write the registers from `at` on. */
  method StoreRegisters(values: seq<int>, length: nat, data: array<byte>, at: nat)
    requires at + 2 * length == data.Length
    modifies data
    ensures data[..] == old(data[..at]) + Halves(values, length)
  {
    hide Register, High, Low;
    var off := at;
    for i := 0 to length
      invariant off == at + 2 * i
      invariant data[..off] == old(data[..at]) + Halves(values, length)[..2 * i]
    {
      var v := Register(values, i);
      assert Halves(values, length)[2 * i] == High(v) && Halves(values, length)[2 * i + 1] == Low(v);
      data[off], data[off + 1] := High(v), Low(v);
      off := off + 2;
    }
    assert data[..] == data[..off];
  }

  /** Read `length` registers from the bytes that start at `at`. */
  method LoadRegisters(bytes: seq<byte>, at: nat, length: nat) returns (value: array<nat>)
    requires at + 2 * length == |bytes|
    ensures fresh(value) && value[..] == Words(bytes[at..], length)
  {
    hide Word;
    value := new nat[length](_ => 0);
    var off := at;
    for i := 0 to length
      invariant off == at + 2 * i
      invariant forall k :: 0 <= k < i ==> value[k] == Words(bytes[at..], length)[k]
    {
      value[i] := Word(bytes[off], bytes[off + 1]);
      off := off + 2;
    }
  }

  // ---------- FC 16: from the master's registers to the slave's handler ----------

  function WriteRequest(address: nat, values: seq<int>): seq<byte> {
    [High(address), Low(address), High(|values|), Low(|values|), Low(2 * |values|)] + Halves(values, |values|)
  }

  method WriteRegistersPayload(address: nat, values: seq<int>) returns (data: array<byte>)
    ensures data[..] == WriteRequest(address, values)
  {
    hide Halves;
    var byteCount := 2 * |values|;
    data := new byte[5 + byteCount];
    data[0], data[1], data[2], data[3] := High(address), Low(address), High(|values|), Low(|values|);
    data[4] := Low(byteCount);
    assert data[..5] == [High(address), Low(address), High(|values|), Low(|values|), Low(byteCount)];
    StoreRegisters(values, |values|, data, 5);
  }

  datatype Received = Rejected | Write(address: nat, values: seq<nat>)

  /** The slave's checks and the arguments its handler is given. */
  function ReceivedWrite(data: seq<byte>): Received {
    if |data| <= 5 || |data| - 5 != data[4] then Rejected
    else
      var length := Word(data[2], data[3]);
      if length < 1 || length > WRITE_REGISTERS_MAX || data[4] != length * 2 then Rejected
      else Write(Word(data[0], data[1]), Words(data[5..], length))
  }

  method HandleFC16(data: seq<byte>) returns (r: Received)
    ensures r == ReceivedWrite(data)
  {
    hide Words;
    if |data| <= 5 || |data| - 5 != data[4] {
      return Rejected;
    }
    var length := Word(data[2], data[3]);
    var byteCount := data[4];
    if length < 1 || length > WRITE_REGISTERS_MAX || byteCount != length * 2 {
      return Rejected;
    }
    var value := LoadRegisters(data, 5, length);
    r := Write(Word(data[0], data[1]), value[..]);
  }

  /** Every list of registers: the slave's handler sees exactly it, or the request is rejected for its length. */
  lemma WriteArrivesIffLegal(address: nat, values: seq<int>)
    ensures ReceivedWrite(WriteRequest(address, values))
         == if 1 <= |values| <= WRITE_REGISTERS_MAX then Write(address % 0x1_0000, Registers(values, |values|)) else Rejected
  {
    hide Halves, Words, Registers, Word, High, Low;
    var data := WriteRequest(address, values);
    var n := |values|;
    WordsInvertHalves(values, n);
    assert data[5..] == Halves(values, n);
    WordOfHalves(address);
    WordOfHalves(n);
    if n <= WRITE_REGISTERS_MAX {
      LowOf(2 * n);
    }
  }

  // ---------- FC 23: one request that writes registers and reads others back ----------

  function ReadWriteRequest(readAddress: nat, readLength: nat, address: nat, values: seq<int>): seq<byte> {
    [High(readAddress), Low(readAddress), High(readLength), Low(readLength), High(address), Low(address),
     High(|values|), Low(|values|), Low(2 * |values|)] + Halves(values, |values|)
  }

  method ReadWritePayload(readAddress: nat, readLength: nat, address: nat, values: seq<int>)
      returns (data: array<byte>)
    ensures data[..] == ReadWriteRequest(readAddress, readLength, address, values)
  {
    hide Halves;
    var byteCount := 2 * |values|;
    data := new byte[9 + byteCount];
    data[0], data[1], data[2], data[3] := High(readAddress), Low(readAddress), High(readLength), Low(readLength);
    data[4], data[5], data[6], data[7] := High(address), Low(address), High(|values|), Low(|values|);
    data[8] := Low(byteCount);
    assert data[..9] == [High(readAddress), Low(readAddress), High(readLength), Low(readLength), High(address),
                         Low(address), High(|values|), Low(|values|), Low(byteCount)];
    StoreRegisters(values, |values|, data, 9);
  }

  datatype Exchanged = Refused | ReadWrite(readAddress: nat, readLength: nat, address: nat, values: seq<nat>)

  function ReceivedReadWrite(data: seq<byte>): Exchanged {
    if |data| <= 9 || |data| - 9 != data[8] then Refused
    else
      var readLength, writeLength := Word(data[2], data[3]), Word(data[6], data[7]);
      if readLength < 1 || readLength > READ_REGISTERS_MAX || writeLength < 1 || writeLength > RW_REGISTERS_WRITE_MAX
         || data[8] != writeLength * 2 then Refused
      else ReadWrite(Word(data[0], data[1]), readLength, Word(data[4], data[5]), Words(data[9..], writeLength))
  }

  method HandleFC23(data: seq<byte>) returns (r: Exchanged)
    ensures r == ReceivedReadWrite(data)
  {
    hide Words, Word;
    if |data| <= 9 || |data| - 9 != data[8] {
      return Refused;
    }
    var readLength := Word(data[2], data[3]);
    var writeLength := Word(data[6], data[7]);
    var byteCount := data[8];
    if readLength < 1 || readLength > READ_REGISTERS_MAX || writeLength < 1 || writeLength > RW_REGISTERS_WRITE_MAX
       || byteCount != writeLength * 2 {
      return Refused;
    }
    var value := LoadRegisters(data, 9, writeLength);
    r := ReadWrite(Word(data[0], data[1]), readLength, Word(data[4], data[5]), value[..]);
  }

  /** All four arguments arrive, or the request is refused for one of its two lengths. */
  lemma ReadWriteArrivesIffLegal(readAddress: nat, readLength: nat, address: nat, values: seq<int>)
    ensures var n := readLength % 0x1_0000;
            ReceivedReadWrite(ReadWriteRequest(readAddress, readLength, address, values))
            == if 1 <= n <= READ_REGISTERS_MAX && 1 <= |values| <= RW_REGISTERS_WRITE_MAX
               then ReadWrite(readAddress % 0x1_0000, n, address % 0x1_0000, Registers(values, |values|))
               else Refused
  {
    hide Halves, Words, Registers, Word, High, Low;
    var data := ReadWriteRequest(readAddress, readLength, address, values);
    var n := |values|;
    WordsInvertHalves(values, n);
    assert data[9..] == Halves(values, n);
    WordOfHalves(readAddress);
    WordOfHalves(readLength);
    WordOfHalves(address);
    WordOfHalves(n);
    if n <= RW_REGISTERS_WRITE_MAX {
      LowOf(2 * n);
    }
  }

  // ---------- FC 3, FC 4 and FC 23: from the slave's registers to the master's result ----------

  /** The slave's answer when its handler supplies `registers`. */
  function ReadReply(data: seq<byte>, registers: seq<int>): CoilPacking.Reply {
    if |data| != 4 then CoilPacking.IllegalDataValue
    else
      var length := Word(data[2], data[3]);
      if length < 1 || length > READ_REGISTERS_MAX then CoilPacking.IllegalDataValue
      else CoilPacking.Data([2 * length] + Halves(registers, length))
  }

  method HandleFC3(data: seq<byte>, registers: seq<int>) returns (r: CoilPacking.Reply)
    ensures r == ReadReply(data, registers)
  {
    hide Halves, Word;
    if |data| != 4 {
      return CoilPacking.IllegalDataValue;
    }
    var length := Word(data[2], data[3]);
    if length < 1 || length > READ_REGISTERS_MAX {
      return CoilPacking.IllegalDataValue;
    }
    var pdu := new byte[length * 2 + 1];
    pdu[0] := length * 2;
    assert pdu[..1] == [pdu[0]];
    StoreRegisters(registers, length, pdu, 1);
    r := CoilPacking.Data(pdu[..]);
  }

  /** The master's reading of a response to a request for `length` registers; `None` is a rejected response. */
  function ReadResult(data: seq<byte>, length: nat): Option<seq<nat>> {
    if |data| != 1 + 2 * length || data[0] != 2 * length then None else Some(Words(data[1..], length))
  }

  method ParseFC3(data: seq<byte>, length: nat) returns (r: Option<seq<nat>>)
    ensures r == ReadResult(data, length)
  {
    hide Words;
    var byteCount := 2 * length;
    if |data| < 1 + byteCount {
      return None;
    }
    if |data| != 1 + byteCount || data[0] != byteCount {
      return None;
    }
    var values := LoadRegisters(data, 1, length);
    r := Some(values[..]);
  }

  /**
   * Every request: the slave answers it exactly if it has four bytes and asks for 1 to 125 registers. A
   * master that asked for that quantity gets the slave's registers, missing ones as 0; one that asked for
   * another rejects the answer.
   */
  lemma ReadArrivesIffLegal(data: seq<byte>, registers: seq<int>, length: nat)
    ensures ReadReply(data, registers).Data? <==> |data| == 4 && 1 <= Word(data[2], data[3]) <= READ_REGISTERS_MAX
    ensures ReadReply(data, registers).Data? ==>
              ReadResult(ReadReply(data, registers).payload, length)
              == if length == Word(data[2], data[3]) then Some(Registers(registers, length)) else None
  {
    hide Halves, Words, Registers, Word;
    if |data| == 4 && 1 <= Word(data[2], data[3]) <= READ_REGISTERS_MAX {
      var n := Word(data[2], data[3]);
      WordsInvertHalves(registers, n);
      var payload: seq<byte> := [2 * n] + Halves(registers, n);
      assert payload[1..] == Halves(registers, n);
    }
  }
}
