/** What a Modbus RTU receiver makes of a byte stream, independently of how the stream is cut. */
module RtuFraming {
  import opened Bytes
  import opened Crc16

  datatype Role = Master | Slave

  datatype Frame = Frame(unit: byte, fc: byte, data: seq<byte>)

  const MAX_FRAME_LENGTH := 256
  const MIN_FRAME_LENGTH := 4
  const PREDICT_NEED_MORE := 0
  const PREDICT_UNKNOWN := -1
  const EXCEPTION_OFFSET := 0x80
  const MEI_READ_DEVICE_ID := 0x0E
  const DEVICE_ID_WALK := -999

  // ---------- Length descriptors ----------
  // A positive entry is a fixed length; a negative one is -((offset << 8) | base) for a frame of
  // `base` bytes plus the count found at `offset`; 0 means the function code is not known.

  function Variable(offset: nat, base: nat): int {
    -(256 * offset + base)
  }

  /** `REQ_TABLE` */
  function ReqTable(fc: byte): int {
    match fc
    case 1 => 8 case 2 => 8 case 3 => 8 case 4 => 8 case 5 => 8 case 6 => 8 case 8 => 8
    case 15 => Variable(6, 9)
    case 16 => Variable(6, 9)
    case 17 => 4
    case 22 => 10
    case 23 => Variable(10, 13)
    case 43 => 7
    case _ => 0
  }

  /** `RES_TABLE` */
  function ResTable(fc: byte): int {
    match fc
    case 1 => Variable(2, 5) case 2 => Variable(2, 5) case 3 => Variable(2, 5) case 4 => Variable(2, 5)
    case 5 => 8 case 6 => 8 case 8 => 8 case 15 => 8 case 16 => 8
    case 17 => Variable(2, 5)
    case 22 => 10
    case 23 => Variable(2, 5)
    case 43 => DEVICE_ID_WALK
    case _ => 0
  }

  // ---------- Length prediction from the leading bytes ----------

  function DescribedLength(val: int, s: seq<byte>): int
    requires val < 0
  {
    var offset := -val / 256;
    if |s| <= offset then PREDICT_NEED_MORE else -val % 256 + s[offset]
  }

  /** End of the frame whose next `n` identification objects start at `cursor`. */
  function ObjectsLength(s: seq<byte>, cursor: nat, n: nat): int
    decreases n
  {
    if n == 0 then cursor + 2
    else if |s| < cursor + 2 then PREDICT_NEED_MORE
    else ObjectsLength(s, cursor + 2 + s[cursor + 1], n - 1)
  }

  function DeviceIdLength(s: seq<byte>): int {
    if |s| < 8 then PREDICT_NEED_MORE
    else if s[2] != MEI_READ_DEVICE_ID then PREDICT_UNKNOWN
    else ObjectsLength(s, 8, s[7])
  }

  function TableLength(val: int, s: seq<byte>): int {
    if val > 0 then val
    else if val == DEVICE_ID_WALK then DeviceIdLength(s)
    else if val < 0 then DescribedLength(val, s)
    else PREDICT_UNKNOWN
  }

  function Predict(role: Role, s: seq<byte>): int
    requires MIN_FRAME_LENGTH <= |s|
  {
    if role.Slave? then TableLength(ReqTable(s[1]), s)
    else if s[1] >= EXCEPTION_OFFSET then 5
    else TableLength(ResTable(s[1]), s)
  }

  // ---------- The leftmost scan ----------

  datatype Attempt = Wait | Slide | Accept(len: nat)

  /** What to do with the bytes at hand: wait for more, give up the first byte, or take a frame. */
  function Try(role: Role, s: seq<byte>): (a: Attempt)
    requires MIN_FRAME_LENGTH <= |s|
    ensures a.Accept? ==> MIN_FRAME_LENGTH <= a.len <= |s|
  {
    var n := Predict(role, s);
    if n == PREDICT_UNKNOWN then Slide
    else if n == PREDICT_NEED_MORE then Wait
    else if n > MAX_FRAME_LENGTH || n < MIN_FRAME_LENGTH then Slide
    else if |s| < n then Wait
    else if !CrcValid(s[..n]) then Slide
    else Accept(n)
  }

  function FrameOf(raw: seq<byte>): Frame
    requires MIN_FRAME_LENGTH <= |raw|
  {
    Frame(raw[0], raw[1], raw[2..|raw| - 2])
  }

  datatype Scanned = Scanned(frames: seq<Frame>, rest: seq<byte>)

  /** The frames a single left-to-right scan of `s` finds, and the suffix it cannot yet decide. */
  function Scan(role: Role, s: seq<byte>): Scanned
    decreases |s|
  {
    if |s| < MIN_FRAME_LENGTH then Scanned([], s)
    else
      match Try(role, s)
      case Wait => Scanned([], s)
      case Slide => Scan(role, s[1..])
      case Accept(n) =>
        var tail := Scan(role, s[n..]);
        Scanned([FrameOf(s[..n])] + tail.frames, tail.rest)
  }

  // ---------- A decision once taken stands ----------

  lemma {:induction false} ObjectsLengthStable(s: seq<byte>, t: seq<byte>, cursor: nat, n: nat)
    requires ObjectsLength(s, cursor, n) != PREDICT_NEED_MORE
    ensures ObjectsLength(s + t, cursor, n) == ObjectsLength(s, cursor, n)
    decreases n
  {
    if n > 0 {
      ObjectsLengthStable(s, t, cursor + 2 + s[cursor + 1], n - 1);
    }
  }

  /** No decision is ever taken on a prefix that more bytes would overturn. */
  lemma PredictStable(role: Role, s: seq<byte>, t: seq<byte>)
    requires MIN_FRAME_LENGTH <= |s|
    requires Predict(role, s) != PREDICT_NEED_MORE
    ensures Predict(role, s + t) == Predict(role, s)
  {
    if role.Master? && s[1] == 43 && 8 <= |s| && s[2] == MEI_READ_DEVICE_ID {
      ObjectsLengthStable(s, t, 8, s[7]);
    }
  }

  lemma TryStable(role: Role, s: seq<byte>, t: seq<byte>)
    requires MIN_FRAME_LENGTH <= |s|
    requires !Try(role, s).Wait?
    ensures Try(role, s + t) == Try(role, s)
  {
    hide Predict, CrcValid;
    PredictStable(role, s, t);
    var n := Predict(role, s);
    if 0 <= n <= |s| {
      assert (s + t)[..n] == s[..n];
    }
  }

  lemma ScanStep(role: Role, s: seq<byte>, t: seq<byte>)
    requires MIN_FRAME_LENGTH <= |s|
    requires !Try(role, s).Wait?
    ensures var n := if Try(role, s).Slide? then 1 else Try(role, s).len;
            var found := if Try(role, s).Slide? then [] else [FrameOf(s[..n])];
            var tail := Scan(role, s[n..] + t);
            Scan(role, s + t) == Scanned(found + tail.frames, tail.rest)
  {
    hide Predict, CrcValid, Try;
    TryStable(role, s, t);
    var n := if Try(role, s).Slide? then 1 else Try(role, s).len;
    assert (s + t)[n..] == s[n..] + t;
    assert (s + t)[..n] == s[..n];
  }

  /** Scanning resumes from the undecided suffix as if the stream had never been cut. */
  lemma {:induction false} ScanResumes(role: Role, s: seq<byte>, t: seq<byte>)
    ensures var first := Scan(role, s);
            var second := Scan(role, first.rest + t);
            Scan(role, s + t) == Scanned(first.frames + second.frames, second.rest)
    decreases |s|
  {
    hide Try, FrameOf;
    if MIN_FRAME_LENGTH <= |s| && !Try(role, s).Wait? {
      var n := if Try(role, s).Slide? then 1 else Try(role, s).len;
      ScanStep(role, s, t);
      ScanStep(role, s, []);
      assert s + [] == s && s[n..] + [] == s[n..];
      ScanResumes(role, s[n..], t);
    }
  }

  /** The undecided suffix really is undecided. */
  lemma {:induction false} RestIsUndecided(role: Role, s: seq<byte>)
    ensures Scan(role, Scan(role, s).rest) == Scanned([], Scan(role, s).rest)
    ensures var r := Scan(role, s).rest; |r| < MIN_FRAME_LENGTH || Try(role, r).Wait?
    decreases |s|
  {
    hide Try;
    if MIN_FRAME_LENGTH <= |s| && !Try(role, s).Wait? {
      RestIsUndecided(role, s[if Try(role, s).Slide? then 1 else Try(role, s).len..]);
    }
  }

  lemma SlaveDecidesEarly(s: seq<byte>)
    requires MIN_FRAME_LENGTH <= |s|
    requires Predict(Slave, s) == PREDICT_NEED_MORE
    ensures |s| <= 10
  {
  }

  /** A slave never holds back as much as a whole frame. */
  lemma SlaveRestIsShort(s: seq<byte>)
    ensures |Scan(Slave, s).rest| < MAX_FRAME_LENGTH
  {
    hide Predict, CrcValid, Scan;
    RestIsUndecided(Slave, s);
    var r := Scan(Slave, s).rest;
    if MIN_FRAME_LENGTH <= |r| && Predict(Slave, r) == PREDICT_NEED_MORE {
      SlaveDecidesEarly(r);
    }
  }
}
