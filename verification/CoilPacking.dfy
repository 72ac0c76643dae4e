/** Coils on the wire: eight to a byte, lowest address in the lowest bit, on both ends of a connection. */
module CoilPacking {
  import opened Bytes

  const READ_COILS_MAX := 2000
  const WRITE_COILS_MAX := 1968

  type bit = b: int | 0 <= b < 2

  // ---------- Bits of a byte ----------

  /** `(b >>> k) & 1` */
  function Bit(b: nat, k: nat): bit {
    if k == 0 then b % 2 else Bit(b / 2, k - 1)
  }

  /** Eight bits or-ed into a byte; they do not overlap, so their sum is their union. */
  function Joined(b0: bit, b1: bit, b2: bit, b3: bit, b4: bit, b5: bit, b6: bit, b7: bit): byte {
    b0 + 2 * b1 + 4 * b2 + 8 * b3 + 16 * b4 + 32 * b5 + 64 * b6 + 128 * b7
  }

  lemma Digits(digit: bit, q: nat)
    ensures Bit(digit + 2 * q, 0) == digit
    ensures forall k: nat {:trigger Bit(q, k)} :: Bit(digit + 2 * q, k + 1) == Bit(q, k)
  {
    assert (digit + 2 * q) / 2 == q;
  }

  lemma BitsOfJoined(b0: bit, b1: bit, b2: bit, b3: bit, b4: bit, b5: bit, b6: bit, b7: bit)
    ensures var b := Joined(b0, b1, b2, b3, b4, b5, b6, b7);
            && Bit(b, 0) == b0 && Bit(b, 1) == b1 && Bit(b, 2) == b2 && Bit(b, 3) == b3
            && Bit(b, 4) == b4 && Bit(b, 5) == b5 && Bit(b, 6) == b6 && Bit(b, 7) == b7
  {
    hide Bit;
    var q7: nat := b7;
    var q6 := b6 + 2 * q7;
    var q5 := b5 + 2 * q6;
    var q4 := b4 + 2 * q5;
    var q3 := b3 + 2 * q4;
    var q2 := b2 + 2 * q3;
    var q1 := b1 + 2 * q2;
    assert Joined(b0, b1, b2, b3, b4, b5, b6, b7) == b0 + 2 * q1;
    Digits(b7, 0);
    Digits(b6, q7);
    Digits(b5, q6);
    Digits(b4, q5);
    Digits(b3, q4);
    Digits(b2, q3);
    Digits(b1, q2);
    Digits(b0, q1);
  }

  lemma Halved(b: nat) returns (q: nat)
    ensures b == Bit(b, 0) + 2 * q
    ensures Bit(b, 1) == Bit(q, 0) && Bit(b, 2) == Bit(q, 1) && Bit(b, 3) == Bit(q, 2) && Bit(b, 4) == Bit(q, 3)
    ensures Bit(b, 5) == Bit(q, 4) && Bit(b, 6) == Bit(q, 5) && Bit(b, 7) == Bit(q, 6)
  {
    q := b / 2;
  }

  lemma LowNibble(b: nat) returns (q: nat)
    ensures b == Bit(b, 0) + 2 * Bit(b, 1) + 4 * Bit(b, 2) + 8 * Bit(b, 3) + 16 * q
    ensures Bit(b, 4) == Bit(q, 0) && Bit(b, 5) == Bit(q, 1) && Bit(b, 6) == Bit(q, 2) && Bit(b, 7) == Bit(q, 3)
  {
    hide Bit;
    q := Halved(b);
    q := Halved(q);
    q := Halved(q);
    q := Halved(q);
  }

  /** A number of eight binary digits is the sum of its digits. */
  lemma JoinedBits(b: byte)
    ensures Joined(Bit(b, 0), Bit(b, 1), Bit(b, 2), Bit(b, 3), Bit(b, 4), Bit(b, 5), Bit(b, 6), Bit(b, 7)) == b
  {
    hide Bit;
    var q := LowNibble(b);
    var r := LowNibble(q);
    assert r == 0;
  }

  // ---------- Specification ----------

  /** Coil `k` of the first `length`; entries that are missing read as 0. */
  function Coil(values: seq<int>, length: nat, k: nat): bit {
    if k < length && k < |values| then values[k] % 2 else 0
  }

  function Octet(values: seq<int>, length: nat, base: nat): byte {
    Joined(Coil(values, length, base), Coil(values, length, base + 1), Coil(values, length, base + 2),
           Coil(values, length, base + 3), Coil(values, length, base + 4), Coil(values, length, base + 5),
           Coil(values, length, base + 6), Coil(values, length, base + 7))
  }

  function ByteCount(length: nat): nat {
    (length + 7) / 8
  }

  function Packed(values: seq<int>, length: nat): seq<byte> {
    seq(ByteCount(length), i requires 0 <= i < ByteCount(length) => Octet(values, length, 8 * i))
  }

  function Unpacked(bytes: seq<byte>, length: nat): seq<bit>
    requires ByteCount(length) <= |bytes|
  {
    seq(length, k requires 0 <= k < length => Bit(bytes[k / 8], k % 8))
  }

  function Coils(values: seq<int>, length: nat): seq<bit> {
    seq(length, k requires 0 <= k < length => Coil(values, length, k))
  }

  // ---------- Packing and unpacking undo each other ----------

  lemma OctetBit(values: seq<int>, length: nat, base: nat, j: nat)
    requires j < 8
    ensures Bit(Octet(values, length, base), j) == Coil(values, length, base + j)
  {
    hide Bit, Joined, Coil;
    BitsOfJoined(Coil(values, length, base), Coil(values, length, base + 1), Coil(values, length, base + 2),
                 Coil(values, length, base + 3), Coil(values, length, base + 4), Coil(values, length, base + 5),
                 Coil(values, length, base + 6), Coil(values, length, base + 7));
  }

  /** Bit `k` of the packed coils is coil `k`; the bits after the last coil are 0. */
  lemma PackedBit(values: seq<int>, length: nat, k: nat)
    requires k < 8 * ByteCount(length)
    ensures Bit(Packed(values, length)[k / 8], k % 8) == Coil(values, length, k)
  {
    hide Bit, Coil, Octet;
    var i := k / 8;
    assert k == 8 * i + k % 8;
    OctetBit(values, length, 8 * i, k % 8);
  }

  lemma UnpackInvertsPack(values: seq<int>, length: nat)
    ensures Unpacked(Packed(values, length), length) == Coils(values, length)
  {
    hide Bit, Coil, Packed;
    assert |Packed(values, length)| == ByteCount(length) by { PackedLength(values, length); }
    forall k | 0 <= k < length
      ensures Unpacked(Packed(values, length), length)[k] == Coil(values, length, k)
    {
      PackedBit(values, length, k);
    }
  }

  lemma PackedLength(values: seq<int>, length: nat)
    ensures |Packed(values, length)| == ByteCount(length)
  {
  }

  predicate PaddingIsZero(bytes: seq<byte>, length: nat)
    requires ByteCount(length) == |bytes|
  {
    forall k :: length <= k < 8 * |bytes| ==> Bit(bytes[k / 8], k % 8) == 0
  }

  /** Packing what was unpacked gives the bytes back exactly when their padding bits are 0. */
  lemma PackInvertsUnpackIffPadded(bytes: seq<byte>, length: nat)
    requires ByteCount(length) == |bytes|
    ensures Packed(Unpacked(bytes, length), length) == bytes <==> PaddingIsZero(bytes, length)
  {
    hide Bit, Coil;
    var values := Unpacked(bytes, length);
    if Packed(values, length) == bytes {
      forall k | length <= k < 8 * |bytes| ensures Bit(bytes[k / 8], k % 8) == 0 {
        PackedBit(values, length, k);
        PastTheEnd(values, length, k);
      }
    }
    if PaddingIsZero(bytes, length) {
      forall i | 0 <= i < |bytes| ensures Packed(values, length)[i] == bytes[i] {
        forall j | 0 <= j < 8 ensures Coil(values, length, 8 * i + j) == Bit(bytes[i], j) {
          UnpackedCoil(bytes, length, 8 * i + j);
          assert (8 * i + j) / 8 == i && (8 * i + j) % 8 == j;
        }
        OctetFromBits(values, length, i, bytes[i]);
      }
    }
  }

  lemma PastTheEnd(values: seq<int>, length: nat, k: nat)
    requires k >= length
    ensures Coil(values, length, k) == 0
  {
  }

  lemma UnpackedCoil(bytes: seq<byte>, length: nat, k: nat)
    requires ByteCount(length) == |bytes| && k < 8 * |bytes|
    ensures Coil(Unpacked(bytes, length), length, k) == if k < length then Bit(bytes[k / 8], k % 8) else 0
  {
    hide Bit;
  }

  lemma OctetFromBits(values: seq<int>, length: nat, i: nat, b: byte)
    requires forall j :: 0 <= j < 8 ==> Coil(values, length, 8 * i + j) == Bit(b, j)
    ensures Octet(values, length, 8 * i) == b
  {
    hide Bit, Joined, Coil;
    var base := 8 * i;
    assert Coil(values, length, base + 0) == Bit(b, 0);
    JoinedBits(b);
  }

  // ---------- The loops ----------

  /** Write the coils from `at` on: whole bytes first, then one byte for the remainder. */
  method PackCoils(values: seq<int>, length: nat, data: array<byte>, at: nat)
    requires at + ByteCount(length) == data.Length
    modifies data
    ensures data[..] == old(data[..at]) + Packed(values, length)
  {
    hide Coil, Joined, Octet;
    var out := at;
    var fullBytes := length / 8;
    for b := 0 to fullBytes
      invariant out == at + b
      invariant data[..out] == old(data[..at]) + Packed(values, length)[..b]
    {
      var base := 8 * b;
      var packed := PackByte(values, length, base, 8);
      data[out] := packed;
      out := out + 1;
    }
    var rem := length % 8;
    if rem > 0 {
      var acc := PackByte(values, length, 8 * fullBytes, rem);
      data[out] := acc;
      assert data[..] == data[..out] + [acc];
      assert Packed(values, length) == Packed(values, length)[..fullBytes] + [acc];
    } else {
      assert data[..] == data[..out];
    }
  }

  /** `values[base] & 1`, where reading past the end gives 0. */
  function LowBit(values: seq<int>, k: nat): bit {
    if k < |values| then values[k] % 2 else 0
  }

  /** The first `rem` coils from `base`, or-ed one by one. */
  method PackByte(values: seq<int>, length: nat, base: nat, rem: nat) returns (acc: byte)
    requires 1 <= rem <= 8 && base + rem <= length && (rem < 8 ==> base + rem == length)
    ensures acc == Octet(values, length, base)
  {
    acc := LowBit(values, base);
    if rem > 1 {
      acc := acc + 2 * LowBit(values, base + 1);
    }
    if rem > 2 {
      acc := acc + 4 * LowBit(values, base + 2);
    }
    if rem > 3 {
      acc := acc + 8 * LowBit(values, base + 3);
    }
    if rem > 4 {
      acc := acc + 16 * LowBit(values, base + 4);
    }
    if rem > 5 {
      acc := acc + 32 * LowBit(values, base + 5);
    }
    if rem > 6 {
      acc := acc + 64 * LowBit(values, base + 6);
    }
    if rem > 7 {
      acc := acc + 128 * LowBit(values, base + 7);
    }
  }

  /** Spread one byte over at most eight entries of `data`. */
  method UnpackByte(b: byte, rem: nat, data: array<bit>, outIdx: nat)
    requires 1 <= rem <= 8 && outIdx + rem <= data.Length
    modifies data
    ensures data[..outIdx] == old(data[..outIdx])
    ensures forall j :: 0 <= j < rem ==> data[outIdx + j] == Bit(b, j)
  {
    hide Bit;
    data[outIdx] := Bit(b, 0);
    if rem > 1 {
      data[outIdx + 1] := Bit(b, 1);
    }
    if rem > 2 {
      data[outIdx + 2] := Bit(b, 2);
    }
    if rem > 3 {
      data[outIdx + 3] := Bit(b, 3);
    }
    if rem > 4 {
      data[outIdx + 4] := Bit(b, 4);
    }
    if rem > 5 {
      data[outIdx + 5] := Bit(b, 5);
    }
    if rem > 6 {
      data[outIdx + 6] := Bit(b, 6);
    }
    if rem > 7 {
      data[outIdx + 7] := Bit(b, 7);
    }
  }

  /** Read `length` coils from the bytes that start at `at`. */
  method UnpackCoils(bytes: seq<byte>, at: nat, length: nat) returns (data: array<bit>)
    requires at + ByteCount(length) == |bytes|
    ensures fresh(data) && data[..] == Unpacked(bytes[at..], length)
  {
    hide Bit;
    data := new bit[length](_ => 0);
    var byteIdx := at;
    var fullBytes := length / 8;
    ghost var body := bytes[at..];
    for b := 0 to fullBytes
      invariant byteIdx == at + b
      invariant forall k :: 0 <= k < 8 * b ==> data[k] == Bit(body[k / 8], k % 8)
    {
      ghost var before := data[..8 * b];
      UnpackByte(bytes[byteIdx], 8, data, 8 * b);
      Spread(before, body, data[..8 * b + 8], b, 8);
      byteIdx := byteIdx + 1;
    }
    var rem := length % 8;
    if rem > 0 {
      ghost var before := data[..8 * fullBytes];
      UnpackByte(bytes[byteIdx], rem, data, 8 * fullBytes);
      Spread(before, body, data[..8 * fullBytes + rem], fullBytes, rem);
    }
  }

  lemma Spread(before: seq<bit>, body: seq<byte>, now: seq<bit>, b: nat, rem: nat)
    requires b < |body| && 1 <= rem <= 8 && |before| == 8 * b && |now| == 8 * b + rem
    requires now[..8 * b] == before
    requires forall k :: 0 <= k < 8 * b ==> before[k] == Bit(body[k / 8], k % 8)
    requires forall j :: 0 <= j < rem ==> now[8 * b + j] == Bit(body[b], j)
    ensures forall k :: 0 <= k < |now| ==> now[k] == Bit(body[k / 8], k % 8)
  {
    hide Bit;
    forall k | 0 <= k < |now| ensures now[k] == Bit(body[k / 8], k % 8) {
      if k < 8 * b {
        assert now[..8 * b][k] == now[k];
      } else {
        var j := k - 8 * b;
        assert k / 8 == b && k % 8 == j;
        assert now[8 * b + j] == Bit(body[b], j);
      }
    }
  }

  // ---------- FC 15: from the master's coils to the slave's handler ----------

  /** `writeMultipleCoils`: five header bytes and the packed coils. The stores keep the low byte only. */
  method WriteCoilsPayload(address: nat, values: seq<int>) returns (data: array<byte>)
    ensures data[..] == WriteCoilsRequest(address, values)
  {
    hide Packed;
    var byteCount := ByteCount(|values|);
    data := new byte[5 + byteCount];
    data[0], data[1], data[2], data[3] := High(address), Low(address), High(|values|), Low(|values|);
    data[4] := Low(byteCount);
    assert data[..5] == [High(address), Low(address), High(|values|), Low(|values|), Low(byteCount)];
    PackCoils(values, |values|, data, 5);
  }

  function WriteCoilsRequest(address: nat, values: seq<int>): seq<byte> {
    [High(address), Low(address), High(|values|), Low(|values|), Low(ByteCount(|values|))] + Packed(values, |values|)
  }

  datatype WriteCoils = Rejected | Write(address: nat, values: seq<bit>)

  /** The slave's checks and the arguments its handler is given. */
  function ReceivedWrite(data: seq<byte>): WriteCoils {
    if |data| <= 5 || |data| - 5 != data[4] then Rejected
    else
      var length := Word(data[2], data[3]);
      if length < 1 || length > WRITE_COILS_MAX || data[4] != ByteCount(length) then Rejected
      else Write(Word(data[0], data[1]), Unpacked(data[5..], length))
  }

  method HandleFC15(data: seq<byte>) returns (r: WriteCoils)
    ensures r == ReceivedWrite(data)
  {
    if |data| <= 5 || |data| - 5 != data[4] {
      return Rejected;
    }
    var length := Word(data[2], data[3]);
    if length < 1 || length > WRITE_COILS_MAX || data[4] != ByteCount(length) {
      return Rejected;
    }
    var values := UnpackCoils(data, 5, length);
    r := Write(Word(data[0], data[1]), values[..]);
  }

  /** Every list of coils: the slave's handler sees exactly it, or the request is rejected when it is too long or empty. */
  lemma WriteCoilsArriveIffLegal(address: nat, values: seq<int>)
    ensures ReceivedWrite(WriteCoilsRequest(address, values))
         == if 1 <= |values| <= WRITE_COILS_MAX then Write(address % 0x1_0000, Coils(values, |values|)) else Rejected
  {
    hide Packed, Unpacked, Coil, Coils, Word, High, Low;
    var data := WriteCoilsRequest(address, values);
    var n := |values|;
    PackedLength(values, n);
    assert data[5..] == Packed(values, n);
    WordOfHalves(address);
    WordOfHalves(n);
    LowOf(ByteCount(n));
    UnpackInvertsPack(values, n);
  }

  // ---------- FC 1 and FC 2: from the slave's coils to the master's result ----------

  function ReadRequest(address: nat, length: nat): seq<byte> {
    [High(address), Low(address), High(length), Low(length)]
  }

  datatype Reply = IllegalDataValue | Data(payload: seq<byte>)

  /** The slave's answer when its handler supplies `coils`. */
  function ReadReply(data: seq<byte>, coils: seq<int>): Reply {
    if |data| != 4 then IllegalDataValue
    else
      var length := Word(data[2], data[3]);
      if length < 1 || length > READ_COILS_MAX then IllegalDataValue
      else Data([ByteCount(length)] + Packed(coils, length))
  }

  method HandleFC1(data: seq<byte>, coils: seq<int>) returns (r: Reply)
    ensures r == ReadReply(data, coils)
  {
    hide Packed, Word;
    if |data| != 4 {
      return IllegalDataValue;
    }
    var length := Word(data[2], data[3]);
    if length < 1 || length > READ_COILS_MAX {
      return IllegalDataValue;
    }
    var byteCount := ByteCount(length);
    var pdu := new byte[byteCount + 1];
    pdu[0] := byteCount;
    assert pdu[..1] == [pdu[0]];
    PackCoils(coils, length, pdu, 1);
    r := Data(pdu[..]);
  }

  /** The master's reading of a response to a request for `length` coils; `None` stands for a rejected response. */
  function ReadResult(data: seq<byte>, length: nat): Option<seq<bit>> {
    var byteCount := ByteCount(length);
    if |data| != 1 + byteCount || data[0] != byteCount then None else Some(Unpacked(data[1..], length))
  }

  method ParseFC1(data: seq<byte>, length: nat) returns (r: Option<seq<bit>>)
    ensures r == ReadResult(data, length)
  {
    var byteCount := ByteCount(length);
    if |data| < 1 + byteCount {
      return None;
    }
    if |data| != 1 + byteCount || data[0] != byteCount {
      return None;
    }
    var values := UnpackCoils(data, 1, length);
    r := Some(values[..]);
  }

  /** The quantity asked for arrives modulo 65536. */
  lemma QuantityArrives(address: nat, length: nat)
    ensures var data := ReadRequest(address, length);
            |data| == 4 && Word(data[2], data[3]) == length % 0x1_0000
  {
    hide Word, High, Low;
    WordOfHalves(length);
  }

  /**
   * Every request: the slave answers it exactly if it has four bytes and asks for 1 to 2000 coils, and a
   * master that asked for that quantity gets the slave's coils, missing ones as 0.
   */
  lemma ReadCoilsArrive(data: seq<byte>, coils: seq<int>)
    ensures ReadReply(data, coils).Data? <==> |data| == 4 && 1 <= Word(data[2], data[3]) <= READ_COILS_MAX
    ensures ReadReply(data, coils).Data? ==>
              var n := Word(data[2], data[3]); ReadResult(ReadReply(data, coils).payload, n) == Some(Coils(coils, n))
  {
    hide Packed, Unpacked, Coil, Coils, Word;
    if |data| == 4 && 1 <= Word(data[2], data[3]) <= READ_COILS_MAX {
      var n := Word(data[2], data[3]);
      PackedLength(coils, n);
      var payload := [ByteCount(n)] + Packed(coils, n);
      assert payload[1..] == Packed(coils, n);
      UnpackInvertsPack(coils, n);
    }
  }
}
