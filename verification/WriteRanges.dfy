/** Which addresses a standard write locks, and which it writes when its handler accepts it. */
module WriteRanges {
  import opened Bytes
  import opened WriteLock

  const FC_WRITE_SINGLE_COIL := 5
  const FC_WRITE_SINGLE_REGISTER := 6
  const FC_WRITE_MULTIPLE_COILS := 15
  const FC_WRITE_MULTIPLE_REGISTERS := 16
  const FC_MASK_WRITE_REGISTER := 22
  const FC_READ_WRITE_MULTIPLE_REGISTERS := 23

  /** A missing byte reads as `undefined`, which shifts and ors as 0. */
  function ByteAt(data: seq<byte>, i: nat): byte {
    if i < |data| then data[i] else 0
  }

  /** `(data[i] << 8) | data[i + 1]` */
  function WordAt(data: seq<byte>, i: nat): nat {
    Word(ByteAt(data, i), ByteAt(data, i + 1))
  }

  function From(start: nat, count: nat): Range {
    Range(start, start + count)
  }

  /** The range `_processUnitWrite` locks for a standard write; `None` bypasses the lock. */
  function LockRange(fc: byte, data: seq<byte>): Option<Range> {
    if fc == FC_MASK_WRITE_REGISTER then
      if |data| == 6 then Some(From(WordAt(data, 0), 1)) else None
    else if fc == FC_READ_WRITE_MULTIPLE_REGISTERS then
      if |data| > 9 then Some(From(WordAt(data, 4), WordAt(data, 6))) else None
    else if fc == FC_WRITE_MULTIPLE_COILS || fc == FC_WRITE_MULTIPLE_REGISTERS then
      Some(From(WordAt(data, 0), WordAt(data, 2)))
    else if fc == FC_WRITE_SINGLE_COIL || fc == FC_WRITE_SINGLE_REGISTER then
      Some(From(WordAt(data, 0), 1))
    else None
  }

  // ---------- What the handlers pass on to the unit model ----------

  datatype Write =
    | Coils(address: nat, values: nat)
    | Registers(address: nat, values: nat)
    | Mask(address: nat)

  /** The write a handler performs, or `None` when it answers with an exception instead. */
  function HandlerWrite(fc: byte, data: seq<byte>): Option<Write> {
    match fc
    case 5 =>
      if |data| == 4 && (Word(data[2], data[3]) == 0 || Word(data[2], data[3]) == 0xFF00)
      then Some(Coils(Word(data[0], data[1]), 1)) else None
    case 6 =>
      if |data| == 4 then Some(Registers(Word(data[0], data[1]), 1)) else None
    case 15 =>
      if |data| <= 5 || |data| - 5 != data[4] then None
      else
        var length := Word(data[2], data[3]);
        if length < 1 || length > 1968 || data[4] != (length + 7) / 8 then None
        else Some(Coils(Word(data[0], data[1]), length))
    case 16 =>
      if |data| <= 5 || |data| - 5 != data[4] then None
      else
        var length := Word(data[2], data[3]);
        if length < 1 || length > 123 || data[4] != length * 2 then None
        else Some(Registers(Word(data[0], data[1]), length))
    case 22 =>
      if |data| == 6 then Some(Mask(Word(data[0], data[1]))) else None
    case 23 =>
      if |data| <= 9 || |data| - 9 != data[8] then None
      else
        var readLength, writeLength := Word(data[2], data[3]), Word(data[6], data[7]);
        if readLength < 1 || readLength > 125 || writeLength < 1 || writeLength > 121
           || data[8] != writeLength * 2 then None
        else Some(Registers(Word(data[4], data[5]), writeLength))
    case _ => None
  }

  function Written(w: Write): Range {
    match w
    case Coils(a, n) => From(a, n)
    case Registers(a, n) => From(a, n)
    case Mask(a) => From(a, 1)
  }

  /** A write that reaches the model holds exactly the addresses it writes, and at least one. */
  lemma LockIsWhatIsWritten(fc: byte, data: seq<byte>)
    requires HandlerWrite(fc, data).Some?
    ensures LockRange(fc, data) == Some(Written(HandlerWrite(fc, data).value))
    ensures var r := LockRange(fc, data).value; r.start < r.end
  {
  }

  /** A write that bypasses the lock never reaches the model. */
  lemma UnlockedWritesNothing(fc: byte, data: seq<byte>)
    requires LockRange(fc, data).None?
    ensures HandlerWrite(fc, data).None?
  {
  }

  // ---------- Cells ----------

  datatype Table = CoilTable | RegisterTable

  function TableOf(w: Write): Table {
    if w.Coils? then CoilTable else RegisterTable
  }

  /** The write changes cell `x` of table `t`. */
  predicate Writes(w: Write, t: Table, x: int) {
    t == TableOf(w) && Covers(Written(w), x)
  }

  ghost predicate CommonCell(w: Write, w': Write) {
    exists t, x :: Writes(w, t, x) && Writes(w', t, x)
  }

  ghost predicate CommonAddress(w: Write, w': Write) {
    exists x :: Covers(Written(w), x) && Covers(Written(w'), x)
  }

  /** The lock lets the two writes run together only if this fails. */
  predicate KeptApart(fc: byte, data: seq<byte>, fc': byte, data': seq<byte>)
    requires LockRange(fc, data).Some? && LockRange(fc', data').Some?
  {
    AnyOverlap([LockRange(fc, data).value], [LockRange(fc', data').value])
  }

  lemma CommonCellIffOneTable(w: Write, w': Write)
    ensures CommonCell(w, w') <==> TableOf(w) == TableOf(w') && CommonAddress(w, w')
  {
    hide Written, Covers;
    if TableOf(w) == TableOf(w') && CommonAddress(w, w') {
      var x :| Covers(Written(w), x) && Covers(Written(w'), x);
      assert Writes(w, TableOf(w), x) && Writes(w', TableOf(w), x);
    }
  }

  /** The lock compares address numbers and nothing else. */
  lemma ApartIffCommonAddress(fc: byte, data: seq<byte>, fc': byte, data': seq<byte>)
    requires HandlerWrite(fc, data).Some? && HandlerWrite(fc', data').Some?
    ensures LockRange(fc, data).Some? && LockRange(fc', data').Some?
    ensures KeptApart(fc, data, fc', data') <==> CommonAddress(HandlerWrite(fc, data).value, HandlerWrite(fc', data').value)
  {
    hide HandlerWrite, LockRange, Written;
    LockIsWhatIsWritten(fc, data);
    LockIsWhatIsWritten(fc', data');
    var r, r' := LockRange(fc, data).value, LockRange(fc', data').value;
    OverlapIsSharedAddress(r, r');
    assert [r][0] == r && [r'][0] == r';
    assert AnyOverlap([r], [r']) <==> Overlap([r][0], [r'][0]);
  }

  /**
   * Two accepted writes that would change a common cell are always kept apart. Writes of one table are
   * kept apart exactly then; writes of different tables are kept apart without need exactly when their
   * address numbers meet.
   */
  lemma ApartIffCommonCell(fc: byte, data: seq<byte>, fc': byte, data': seq<byte>)
    requires HandlerWrite(fc, data).Some? && HandlerWrite(fc', data').Some?
    ensures LockRange(fc, data).Some? && LockRange(fc', data').Some?
    ensures var w, w' := HandlerWrite(fc, data).value, HandlerWrite(fc', data').value;
            && (CommonCell(w, w') ==> KeptApart(fc, data, fc', data'))
            && (TableOf(w) == TableOf(w') ==> (KeptApart(fc, data, fc', data') <==> CommonCell(w, w')))
            && (KeptApart(fc, data, fc', data') && !CommonCell(w, w') <==> TableOf(w) != TableOf(w') && CommonAddress(w, w'))
  {
    hide HandlerWrite, LockRange, CommonCell, CommonAddress, KeptApart;
    ApartIffCommonAddress(fc, data, fc', data');
    CommonCellIffOneTable(HandlerWrite(fc, data).value, HandlerWrite(fc', data').value);
  }

  /** A single coil and a single register of one number wait for each other although no cell is written by both. */
  lemma CoilAndRegisterAreSerialised(data: seq<byte>, data': seq<byte>)
    requires HandlerWrite(5, data).Some? && HandlerWrite(6, data').Some? && data[..2] == data'[..2]
    ensures LockRange(5, data).Some? && LockRange(6, data').Some?
    ensures KeptApart(5, data, 6, data')
    ensures !CommonCell(HandlerWrite(5, data).value, HandlerWrite(6, data').value)
  {
    hide KeptApart, CommonCell, LockRange, Word;
    var w, w' := HandlerWrite(5, data).value, HandlerWrite(6, data').value;
    assert data[0] == data[..2][0] && data[1] == data[..2][1] && data'[0] == data'[..2][0] && data'[1] == data'[..2][1];
    assert Covers(Written(w), w.address) && Covers(Written(w'), w.address);
    ApartIffCommonCell(5, data, 6, data');
  }

  /** Coil 0 and register 0, for instance. */
  lemma CoilZeroAndRegisterZero(data: seq<byte>, data': seq<byte>)
    requires data == [0, 0, 0xFF, 0] && data' == [0, 0, 0, 7]
    ensures HandlerWrite(5, data) == Some(Coils(0, 1)) && HandlerWrite(6, data') == Some(Registers(0, 1))
    ensures LockRange(5, data).Some? && LockRange(6, data').Some? && KeptApart(5, data, 6, data')
    ensures !CommonCell(Coils(0, 1), Registers(0, 1))
  {
    hide KeptApart, CommonCell, LockRange, HandlerWrite;
    SingleWrites(data, data');
    CoilAndRegisterAreSerialised(data, data');
  }

  lemma SingleWrites(data: seq<byte>, data': seq<byte>)
    requires |data| == |data'| == 4 && Word(data[2], data[3]) == 0xFF00
    ensures HandlerWrite(5, data) == Some(Coils(Word(data[0], data[1]), 1))
    ensures HandlerWrite(6, data') == Some(Registers(Word(data'[0], data'[1]), 1))
  {
    hide Word;
  }

  // ---------- Over whole runs ----------

  /** A standard write frame. */
  datatype Frame = Frame(fc: byte, data: seq<byte>)

  /** The request locks what a frame that its handler accepts asks for. */
  predicate Locks(r: WriteRequest, f: Frame) {
    HandlerWrite(f.fc, f.data).Some? && LockRange(f.fc, f.data).Some? && r.ranges == [LockRange(f.fc, f.data).value]
  }

  /** At no moment of a history do two running standard writes change a common cell. */
  lemma RunningWritesShareNoCell(log: seq<Event>, frames: map<WriteRequest, Frame>, k: nat, a: WriteRequest, b: WriteRequest)
    requires History(log) && k <= |log|
    requires a in Running(log[..k]) && b in Running(log[..k]) && a != b
    requires a in frames && b in frames && Locks(a, frames[a]) && Locks(b, frames[b])
    ensures !CommonCell(HandlerWrite(frames[a].fc, frames[a].data).value, HandlerWrite(frames[b].fc, frames[b].data).value)
  {
    hide HandlerWrite, LockRange, CommonCell, Running, AnyOverlap;
    assert NoClash(Running(log[..k]));
    ApartIffCommonCell(frames[a].fc, frames[a].data, frames[b].fc, frames[b].data);
  }
}
