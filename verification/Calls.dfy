/** The calls of the master's interface, as they go over an RTU line and as the slave takes them. */
module Calls {
  import opened Bytes
  import RtuFraming
  import RtuDecoder
  import RtuRuns
  import CoilPacking
  import RegisterTransfer
  import WriteRanges

  datatype Call =
    | ReadCoils(address: nat, length: nat)
    | ReadDiscreteInputs(address: nat, length: nat)
    | ReadHoldingRegisters(address: nat, length: nat)
    | ReadInputRegisters(address: nat, length: nat)
    | WriteSingleCoil(address: nat, value: int)
    | WriteSingleRegister(address: nat, value: int)
    | ReturnQueryData(value: int)
    | WriteMultipleCoils(address: nat, values: seq<int>)
    | WriteMultipleRegisters(address: nat, values: seq<int>)
    | ReportServerId
    | MaskWriteRegister(address: nat, andMask: int, orMask: int)
    | ReadWriteRegisters(readAddress: nat, readLength: nat, address: nat, values: seq<int>)
    | ReadDeviceIdentification(code: nat, id: nat)

  // ---------- What the master sends ----------

  function Code(c: Call): byte {
    match c
    case ReadCoils(_, _) => 1
    case ReadDiscreteInputs(_, _) => 2
    case ReadHoldingRegisters(_, _) => 3
    case ReadInputRegisters(_, _) => 4
    case WriteSingleCoil(_, _) => 5
    case WriteSingleRegister(_, _) => 6
    case ReturnQueryData(_) => 8
    case WriteMultipleCoils(_, _) => 15
    case WriteMultipleRegisters(_, _) => 16
    case ReportServerId => 17
    case MaskWriteRegister(_, _, _) => 22
    case ReadWriteRegisters(_, _, _, _) => 23
    case ReadDeviceIdentification(_, _) => 43
  }

  /** The low 16 bits, high byte first. */
  function Pair(v: int): seq<byte> {
    [High(v % 0x1_0000), Low(v % 0x1_0000)]
  }

  function Payload(c: Call): seq<byte> {
    match c
    case ReadCoils(a, n) => Pair(a) + Pair(n)
    case ReadDiscreteInputs(a, n) => Pair(a) + Pair(n)
    case ReadHoldingRegisters(a, n) => Pair(a) + Pair(n)
    case ReadInputRegisters(a, n) => Pair(a) + Pair(n)
    case WriteSingleCoil(a, v) => Pair(a) + Pair(if v == 0 then 0 else 0xFF00)
    case WriteSingleRegister(a, v) => Pair(a) + Pair(v)
    case ReturnQueryData(v) => Pair(0) + Pair(v)
    case WriteMultipleCoils(a, vs) => CoilPacking.WriteCoilsRequest(a, vs)
    case WriteMultipleRegisters(a, vs) => RegisterTransfer.WriteRequest(a, vs)
    case ReportServerId => []
    case MaskWriteRegister(a, m, o) => Pair(a) + Pair(m) + Pair(o)
    case ReadWriteRegisters(ra, rn, a, vs) => RegisterTransfer.ReadWriteRequest(ra, rn, a, vs)
    case ReadDeviceIdentification(code, id) => [0x0E, Low(code), Low(id)]
  }

  function Request(unit: byte, c: Call): RtuFraming.Frame {
    RtuFraming.Frame(unit, Code(c), Payload(c))
  }

  /** The lists that fit a 256-byte frame; the interface itself does not check them. */
  predicate Short(c: Call) {
    match c
    case WriteMultipleCoils(_, vs) => |vs| <= 1976
    case WriteMultipleRegisters(_, vs) => |vs| <= 123
    case ReadWriteRegisters(_, _, _, vs) => |vs| <= 121
    case _ => true
  }

  /** A call is a legal frame exactly when its list is short enough. */
  lemma RequestIsLegalIffShort(unit: byte, c: Call)
    ensures RtuRuns.Legal(RtuFraming.Slave, Request(unit, c)) <==> Short(c)
  {
    hide Pair, CoilPacking.WriteCoilsRequest, RegisterTransfer.WriteRequest, RegisterTransfer.ReadWriteRequest,
      RtuRuns.Counted;
    match c {
      case WriteMultipleCoils(a, vs) => CoilsCounted(a, vs);
      case WriteMultipleRegisters(a, vs) => RegistersCounted(a, vs);
      case ReadWriteRegisters(ra, rn, a, vs) => WrittenCounted(ra, rn, a, vs);
      case _ => PairsHaveTwo();
    }
  }

  lemma PairsHaveTwo()
    ensures forall v :: |Pair(v)| == 2
  {
  }

  lemma CoilsCounted(a: nat, vs: seq<int>)
    ensures var data := CoilPacking.WriteCoilsRequest(a, vs);
            |data| <= 252 && RtuRuns.Counted(data, 4) <==> |vs| <= 1976
  {
    hide CoilPacking.Packed, High;
    CoilPacking.PackedLength(vs, |vs|);
  }

  lemma RegistersCounted(a: nat, vs: seq<int>)
    ensures var data := RegisterTransfer.WriteRequest(a, vs);
            |data| <= 252 && RtuRuns.Counted(data, 4) <==> |vs| <= 123
  {
    hide RegisterTransfer.Halves, High;
    RegisterTransfer.WordsInvertHalves(vs, |vs|);
  }

  lemma WrittenCounted(ra: nat, rn: nat, a: nat, vs: seq<int>)
    ensures var data := RegisterTransfer.ReadWriteRequest(ra, rn, a, vs);
            |data| <= 252 && RtuRuns.Counted(data, 8) <==> |vs| <= 121
  {
    hide RegisterTransfer.Halves, High;
    RegisterTransfer.WordsInvertHalves(vs, |vs|);
  }

  function Requests(unit: byte, calls: seq<Call>): seq<RtuFraming.Frame> {
    seq(|calls|, i requires 0 <= i < |calls| => Request(unit, calls[i]))
  }

  /** Any sequence of calls with short lists reaches the slave whole and in order, however the line cuts it. */
  lemma CallsArrive(unit: byte, calls: seq<Call>, chunks: seq<seq<byte>>)
    requires forall c :: c in calls ==> Short(c)
    requires Flatten(chunks) == RtuRuns.EncodeAll(Requests(unit, calls))
    ensures RtuRuns.Run(RtuFraming.Slave, [], chunks) == RtuFraming.Scanned(Requests(unit, calls), [])
  {
    hide Payload, Code, Short, RtuRuns.Legal, RtuRuns.Run, RtuRuns.EncodeAll;
    var fs := Requests(unit, calls);
    forall f | f in fs ensures RtuRuns.Legal(RtuFraming.Slave, f) {
      var i :| 0 <= i < |fs| && f == fs[i];
      RequestIsLegalIffShort(unit, calls[i]);
    }
    RtuRuns.LegalTrafficIsLossless(RtuFraming.Slave, fs, chunks);
  }

  // ---------- What the slave makes of it ----------

  lemma PairIsWord(v: int)
    ensures Word(Pair(v)[0], Pair(v)[1]) == v % 0x1_0000
  {
    WordOfHalves(v % 0x1_0000);
  }

  predicate Between(low: int, n: int, high: int) {
    low <= n <= high
  }

  /**
   * The write a call asks for, by the limits of the application protocol; a call with a list that is
   * empty or too long, or with an illegal quantity to read back, writes nothing.
   */
  function Meant(c: Call): Option<WriteRanges.Write> {
    match c
    case WriteSingleCoil(a, _) => Some(WriteRanges.Coils(a % 0x1_0000, 1))
    case WriteSingleRegister(a, _) => Some(WriteRanges.Registers(a % 0x1_0000, 1))
    case WriteMultipleCoils(a, vs) =>
      if Between(1, |vs|, 1968) then Some(WriteRanges.Coils(a % 0x1_0000, |vs|)) else None
    case WriteMultipleRegisters(a, vs) =>
      if Between(1, |vs|, 123) then Some(WriteRanges.Registers(a % 0x1_0000, |vs|)) else None
    case MaskWriteRegister(a, _, _) => Some(WriteRanges.Mask(a % 0x1_0000))
    case ReadWriteRegisters(_, rn, a, vs) =>
      if Between(1, rn % 0x1_0000, 125) && Between(1, |vs|, 121)
      then Some(WriteRanges.Registers(a % 0x1_0000, |vs|)) else None
    case _ => None
  }

  /** The slave's handler writes exactly what the master's caller meant, and the lock is held for exactly that. */
  lemma CallWritesWhatIsMeant(c: Call)
    ensures WriteRanges.HandlerWrite(Code(c), Payload(c)) == Meant(c)
    ensures Meant(c).Some? ==>
              WriteRanges.LockRange(Code(c), Payload(c)) == Some(WriteRanges.Written(Meant(c).value))
  {
    hide WriteRanges.HandlerWrite, WriteRanges.LockRange, WriteRanges.Written, Pair, Word, High, Low,
      CoilPacking.Packed, RegisterTransfer.Halves;
    var data := Payload(c);
    match c {
      case WriteSingleCoil(a, v) =>
        Front(a, if v == 0 then 0 else 0xFF00, []);
        OneCoil(data, a, if v == 0 then 0 else 0xFF00);
      case WriteSingleRegister(a, v) =>
        Front(a, v, []);
        OneRegister(data, a);
      case WriteMultipleCoils(a, vs) =>
        CoilPacking.PackedLength(vs, |vs|);
        WordOfHalves(a);
        WordOfHalves(|vs|);
        LowOf(CoilPacking.ByteCount(|vs|));
        ManyCoils(data, |vs|);
      case WriteMultipleRegisters(a, vs) =>
        RegisterTransfer.WordsInvertHalves(vs, |vs|);
        WordOfHalves(a);
        WordOfHalves(|vs|);
        LowOf(2 * |vs|);
        ManyRegisters(data, |vs|);
      case MaskWriteRegister(a, m, o) =>
        Front(a, m, Pair(o));
        PairsHaveTwo();
        Masked(data, a);
      case ReadWriteRegisters(ra, rn, a, vs) =>
        RegisterTransfer.WordsInvertHalves(vs, |vs|);
        WordOfHalves(rn);
        WordOfHalves(a);
        WordOfHalves(|vs|);
        LowOf(2 * |vs|);
        ReadAndWrite(data, rn % 0x1_0000, |vs|);
      case _ => OthersWriteNothing(Code(c), data);
    }
    if Meant(c).Some? {
      WriteRanges.LockIsWhatIsWritten(Code(c), data);
    }
  }

  lemma Front(a: nat, v: int, more: seq<byte>)
    ensures var data := Pair(a) + Pair(v) + more;
            && |data| == 4 + |more| && data == Pair(a) + Pair(v) + more
            && Word(data[0], data[1]) == a % 0x1_0000 && Word(data[2], data[3]) == v % 0x1_0000
    ensures Pair(a) + Pair(v) + [] == Pair(a) + Pair(v)
  {
    hide Word;
    PairIsWord(a);
    PairIsWord(v);
  }

  // ---------- The handlers, by the words they read ----------

  lemma OthersWriteNothing(fc: byte, data: seq<byte>)
    requires fc !in {5, 6, 15, 16, 22, 23}
    ensures WriteRanges.HandlerWrite(fc, data) == None
  {
  }

  lemma OneCoil(data: seq<byte>, a: nat, v: nat)
    requires |data| == 4 && Word(data[0], data[1]) == a % 0x1_0000 && Word(data[2], data[3]) == v
    requires v == 0 || v == 0xFF00
    ensures WriteRanges.HandlerWrite(5, data) == Some(WriteRanges.Coils(a % 0x1_0000, 1))
  {
  }

  lemma OneRegister(data: seq<byte>, a: nat)
    requires |data| == 4 && Word(data[0], data[1]) == a % 0x1_0000
    ensures WriteRanges.HandlerWrite(6, data) == Some(WriteRanges.Registers(a % 0x1_0000, 1))
  {
  }

  lemma Masked(data: seq<byte>, a: nat)
    requires |data| == 6 && Word(data[0], data[1]) == a % 0x1_0000
    ensures WriteRanges.HandlerWrite(22, data) == Some(WriteRanges.Mask(a % 0x1_0000))
  {
  }

  lemma ManyCoils(data: seq<byte>, n: nat)
    requires |data| == 5 + CoilPacking.ByteCount(n) && Word(data[2], data[3]) == n % 0x1_0000
    requires CoilPacking.ByteCount(n) < 256 ==> data[4] == CoilPacking.ByteCount(n)
    ensures WriteRanges.HandlerWrite(15, data)
         == if Between(1, n, 1968) then Some(WriteRanges.Coils(Word(data[0], data[1]), n)) else None
  {
    hide Word;
  }

  lemma ManyRegisters(data: seq<byte>, n: nat)
    requires |data| == 5 + 2 * n && Word(data[2], data[3]) == n % 0x1_0000
    requires 2 * n < 256 ==> data[4] == 2 * n
    ensures WriteRanges.HandlerWrite(16, data)
         == if Between(1, n, 123) then Some(WriteRanges.Registers(Word(data[0], data[1]), n)) else None
  {
    hide Word;
  }

  lemma ReadAndWrite(data: seq<byte>, rn: nat, n: nat)
    requires |data| == 9 + 2 * n && Word(data[2], data[3]) == rn && Word(data[6], data[7]) == n % 0x1_0000
    requires 2 * n < 256 ==> data[8] == 2 * n
    ensures WriteRanges.HandlerWrite(23, data)
         == if Between(1, rn, 125) && Between(1, n, 121)
            then Some(WriteRanges.Registers(Word(data[4], data[5]), n)) else None
  {
    hide Word;
  }

  // ---------- What comes back ----------

  datatype Tables = Tables(coils: seq<int>, registers: seq<int>, serverId: seq<byte>)

  /** The payload of the slave's answer when its handler accepts and supplies `found`; `None` is an exception. */
  function Answer(c: Call, found: Tables): Option<seq<byte>> {
    match c
    case ReadCoils(_, _) => Supplied(CoilPacking.ReadReply(Payload(c), found.coils))
    case ReadDiscreteInputs(_, _) => Supplied(CoilPacking.ReadReply(Payload(c), found.coils))
    case ReadHoldingRegisters(_, _) => Supplied(RegisterTransfer.ReadReply(Payload(c), found.registers))
    case ReadInputRegisters(_, _) => Supplied(RegisterTransfer.ReadReply(Payload(c), found.registers))
    case WriteSingleCoil(_, _) => Some(Payload(c))
    case WriteSingleRegister(_, _) => Some(Payload(c))
    case ReturnQueryData(_) => Some(Payload(c))
    case WriteMultipleCoils(_, _) => if Meant(c).Some? then Some(Payload(c)[..4]) else None
    case WriteMultipleRegisters(_, _) => if Meant(c).Some? then Some(Payload(c)[..4]) else None
    case ReportServerId =>
      if |found.serverId| > 251 then None else Some([|found.serverId|] + found.serverId)
    case MaskWriteRegister(_, _, _) => Some(Payload(c))
    case ReadWriteRegisters(_, rn, _, _) =>
      if Meant(c).Some?
      then Some([2 * (rn % 0x1_0000)] + RegisterTransfer.Halves(found.registers, rn % 0x1_0000)) else None
    case ReadDeviceIdentification(_, _) => None
  }

  function Supplied(r: CoilPacking.Reply): Option<seq<byte>> {
    if r.Data? then Some(r.payload) else None
  }

  /** Every answer, and every exception, is a legal response: it reaches an RTU master however it is cut. */
  lemma AnswerIsLegal(unit: byte, c: Call, found: Tables)
    ensures Answer(c, found).Some? ==>
              RtuRuns.Legal(RtuFraming.Master, RtuFraming.Frame(unit, Code(c), Answer(c, found).value))
    ensures forall e: byte :: RtuRuns.Legal(RtuFraming.Master, RtuFraming.Frame(unit, 128 + Code(c), [e]))
  {
    hide CoilPacking.Packed, RegisterTransfer.Halves, Word, High, Low;
    match c {
      case ReadCoils(a, n) => CoilsAnswered(Payload(c), found.coils);
      case ReadDiscreteInputs(a, n) => CoilsAnswered(Payload(c), found.coils);
      case ReadHoldingRegisters(a, n) => RegistersAnswered(Payload(c), found.registers);
      case ReadInputRegisters(a, n) => RegistersAnswered(Payload(c), found.registers);
      case ReadWriteRegisters(_, rn, _, _) => RegisterTransfer.WordsInvertHalves(found.registers, rn % 0x1_0000);
      case _ =>
    }
  }

  lemma CoilsAnswered(data: seq<byte>, coils: seq<int>)
    ensures var r := CoilPacking.ReadReply(data, coils);
            r.Data? ==> RtuRuns.Counted(r.payload, 0) && |r.payload| <= 251
  {
    hide CoilPacking.Packed, Word;
    if |data| == 4 {
      CoilPacking.PackedLength(coils, Word(data[2], data[3]));
    }
  }

  lemma RegistersAnswered(data: seq<byte>, registers: seq<int>)
    ensures var r := RegisterTransfer.ReadReply(data, registers);
            r.Data? ==> RtuRuns.Counted(r.payload, 0) && |r.payload| <= 251
  {
    hide RegisterTransfer.Halves, Word;
    if |data| == 4 {
      RegisterTransfer.WordsInvertHalves(registers, Word(data[2], data[3]));
    }
  }
}
