/** Whole transmissions: the RTU receiver over every cut of a byte stream into chunks. */
module RtuRuns {
  import opened Bytes
  import opened Crc16
  import opened RtuFraming
  import opened RtuDecoder

  // ---------- Runs ----------

  /** Decode `chunks` one after the other, starting with `held` in the buffer. */
  function Run(role: Role, held: seq<byte>, chunks: seq<seq<byte>>): Scanned
    decreases |chunks|
  {
    if chunks == [] then Scanned([], held)
    else
      var first := Decoded(role, held, chunks[0]);
      var others := Run(role, first.rest, chunks[1..]);
      Scanned(first.frames + others.frames, others.rest)
  }

  lemma {:induction false} RunSnoc(role: Role, held: seq<byte>, chunks: seq<seq<byte>>, chunk: seq<byte>)
    ensures var before := Run(role, held, chunks);
            var last := Decoded(role, before.rest, chunk);
            Run(role, held, chunks + [chunk]) == Scanned(before.frames + last.frames, last.rest)
    decreases |chunks|
  {
    hide Decoded;
    var all := chunks + [chunk];
    if chunks == [] {
      assert all[1..] == [];
    } else {
      assert all[1..] == chunks[1..] + [chunk];
      RunSnoc(role, Decoded(role, held, chunks[0]).rest, chunks[1..], chunk);
    }
  }

  /** Feeding a receiver chunk by chunk, with timing disabled, is a run. */
  method Receive(layer: RtuProtocolLayer, chunks: seq<seq<byte>>)
    requires layer.Valid() && layer.t35Time <= 0
    modifies layer, layer.residual
    ensures layer.Valid()
    ensures var all := Run(layer.role, old(layer.Held()), chunks);
            && layer.Held() == all.rest
            && layer.events == old(layer.events) + FrameEvents(all.frames)
  {
    hide Decoded;
    ghost var held := layer.Held();
    for i := 0 to |chunks|
      invariant layer.Valid()
      invariant layer.Held() == Run(layer.role, held, chunks[..i]).rest
      invariant layer.events == old(layer.events) + FrameEvents(Run(layer.role, held, chunks[..i]).frames)
    {
      assert chunks[..i + 1] == chunks[..i] + [chunks[i]];
      RunSnoc(layer.role, held, chunks[..i], chunks[i]);
      layer.Decode(chunks[i], 0);
    }
    assert chunks[..|chunks|] == chunks;
  }

  // ---------- When the cut does not matter ----------

  /** No chunk is swallowed whole by the fast path against the scanner, and nothing overflows. */
  predicate SafeCut(role: Role, held: seq<byte>, chunks: seq<seq<byte>>)
    decreases |chunks|
  {
    chunks == [] ||
    (var rest := Scan(role, held + chunks[0]).rest;
     && !(held == [] && Oversized(role, chunks[0]))
     && |rest| <= MAX_FRAME_LENGTH
     && SafeCut(role, rest, chunks[1..]))
  }

  /** A run over a safe cut is one scan of the whole stream. */
  lemma {:induction false} RunIsScan(role: Role, held: seq<byte>, chunks: seq<seq<byte>>)
    requires Scan(role, held) == Scanned([], held)
    requires SafeCut(role, held, chunks)
    ensures Run(role, held, chunks) == Scan(role, held + Flatten(chunks))
    decreases |chunks|
  {
    hide Scan, Oversized;
    if chunks == [] {
      assert held + [] == held;
    } else {
      var s := held + chunks[0];
      RestIsUndecided(role, s);
      RunIsScan(role, Scan(role, s).rest, chunks[1..]);
      ScanResumes(role, s, Flatten(chunks[1..]));
      assert held + Flatten(chunks) == s + Flatten(chunks[1..]);
    }
  }

  lemma {:induction false} SlaveCutIsSafe(held: seq<byte>, chunks: seq<seq<byte>>)
    requires forall c :: c in chunks ==> !Oversized(Slave, c)
    ensures SafeCut(Slave, held, chunks)
    decreases |chunks|
  {
    hide Scan, Oversized;
    if chunks != [] {
      SlaveRestIsShort(held + chunks[0]);
      SlaveCutIsSafe(Scan(Slave, held + chunks[0]).rest, chunks[1..]);
    }
  }

  /** Slave: whatever the bytes and however they are cut, the frames are those of one leftmost scan. */
  lemma SlaveRunIsScan(chunks: seq<seq<byte>>)
    requires forall c :: c in chunks ==> !Oversized(Slave, c)
    ensures Run(Slave, [], chunks) == Scan(Slave, Flatten(chunks))
  {
    hide Oversized;
    SlaveCutIsSafe([], chunks);
    RunIsScan(Slave, [], chunks);
    assert [] + Flatten(chunks) == Flatten(chunks);
  }

  /** Slave: a run is one scan of the whole stream exactly when no chunk met an empty buffer as an oversized frame. */
  lemma SlaveRunIsScanIffSafe(chunks: seq<seq<byte>>)
    ensures Run(Slave, [], chunks) == Scan(Slave, Flatten(chunks)) <==> SafeCut(Slave, [], chunks)
  {
    hide Scan, Oversized, SafeCut, Run;
    var s := Flatten(chunks);
    assert [] + s == s;
    ShortIsUndecided(Slave, []);
    if SafeCut(Slave, [], chunks) {
      RunIsScan(Slave, [], chunks);
    } else {
      var f := UnsafeShows([], chunks);
      ScannedFramesAreShort(Slave, s);
    }
  }

  /** An unsafe cut makes a slave report a frame longer than any scan does. */
  lemma {:induction false} UnsafeShows(held: seq<byte>, chunks: seq<seq<byte>>) returns (f: Frame)
    requires !SafeCut(Slave, held, chunks)
    ensures f in Run(Slave, held, chunks).frames && |f.data| + 4 > MAX_FRAME_LENGTH
    decreases |chunks|
  {
    hide Scan, FastHit, FrameOf;
    if held == [] && Oversized(Slave, chunks[0]) {
      f := FrameOf(chunks[0]);
      HitIsLong(chunks[0]);
    } else {
      SlaveRestIsShort(held + chunks[0]);
      f := UnsafeShows(Scan(Slave, held + chunks[0]).rest, chunks[1..]);
    }
  }

  lemma HitIsLong(data: seq<byte>)
    requires Oversized(Slave, data)
    ensures |FrameOf(data).data| + 4 == |data|
  {
  }

  /** Chunks of at most 256 bytes are always safe on a slave, so two cuts of one stream agree. */
  lemma SlaveCutsAgree(chunks: seq<seq<byte>>, others: seq<seq<byte>>)
    requires Flatten(chunks) == Flatten(others)
    requires forall c :: c in chunks + others ==> |c| <= MAX_FRAME_LENGTH
    ensures Run(Slave, [], chunks) == Run(Slave, [], others)
  {
    hide FastHit, Scan;
    assert forall c :: c in chunks ==> c in chunks + others;
    assert forall c :: c in others ==> c in chunks + others;
    SlaveRunIsScan(chunks);
    SlaveRunIsScan(others);
  }

  // ---------- Frames as the encoder builds them ----------

  function Encode(f: Frame): seq<byte> {
    WithCrc([f.unit, f.fc] + f.data)
  }

  function EncodeAll(fs: seq<Frame>): seq<byte> {
    if fs == [] then [] else Encode(fs[0]) + EncodeAll(fs[1..])
  }

  lemma EncodeShape(f: Frame)
    ensures |Encode(f)| == |f.data| + 4
    ensures Encode(f)[0] == f.unit && Encode(f)[1] == f.fc
    ensures forall i :: 0 <= i < |f.data| ==> Encode(f)[2 + i] == f.data[i]
    ensures FrameOf(Encode(f)) == f
    ensures CrcValid(Encode(f))
  {
    hide Crc, ByteOf, LowHalf, HighHalf, CrcValid;
    WithCrcIsValid([f.unit, f.fc] + f.data);
    assert Encode(f)[2..|f.data| + 2] == f.data;
  }

  // ---------- Legal frames ----------

  /** The objects from `cursor` on, `n` of them, fill the payload exactly. */
  predicate ObjectsFill(data: seq<byte>, cursor: nat, n: nat)
    decreases n
  {
    if n == 0 then cursor == |data|
    else cursor + 2 <= |data| && ObjectsFill(data, cursor + 2 + data[cursor + 1], n - 1)
  }

  /** The payload has a byte count at `at` that accounts for everything after it. */
  predicate Counted(data: seq<byte>, at: nat) {
    at < |data| && |data| == at + 1 + data[at]
  }

  predicate LegalRequest(fc: byte, data: seq<byte>) {
    match fc
    case 1 => |data| == 4 case 2 => |data| == 4 case 3 => |data| == 4 case 4 => |data| == 4
    case 5 => |data| == 4 case 6 => |data| == 4 case 8 => |data| == 4
    case 15 => Counted(data, 4)
    case 16 => Counted(data, 4)
    case 17 => data == []
    case 22 => |data| == 6
    case 23 => Counted(data, 8)
    case 43 => |data| == 3
    case _ => false
  }

  predicate LegalResponse(fc: byte, data: seq<byte>) {
    if fc >= EXCEPTION_OFFSET then |data| == 1
    else
      match fc
      case 1 => Counted(data, 0) case 2 => Counted(data, 0) case 3 => Counted(data, 0) case 4 => Counted(data, 0)
      case 5 => |data| == 4 case 6 => |data| == 4 case 8 => |data| == 4 case 15 => |data| == 4 case 16 => |data| == 4
      case 17 => Counted(data, 0)
      case 22 => |data| == 6
      case 23 => Counted(data, 0)
      case 43 => 6 <= |data| && data[0] == MEI_READ_DEVICE_ID && ObjectsFill(data, 6, data[5])
      case _ => false
  }

  /** The frame has the length its function code prescribes, and fits the 256-byte ADU. */
  predicate Legal(role: Role, f: Frame) {
    && |f.data| + 4 <= MAX_FRAME_LENGTH
    && if role.Slave? then LegalRequest(f.fc, f.data) else LegalResponse(f.fc, f.data)
  }

  lemma {:induction false} ObjectsLengthIsExact(data: seq<byte>, s: seq<byte>, cursor: nat, n: nat)
    requires |s| == |data| + 4 && forall i :: 0 <= i < |data| ==> s[2 + i] == data[i]
    ensures ObjectsLength(s, cursor + 2, n) == |s| <==> ObjectsFill(data, cursor, n)
    ensures ObjectsLength(s, cursor + 2, n) == PREDICT_NEED_MORE || ObjectsLength(s, cursor + 2, n) >= cursor + 4
    decreases n
  {
    if n > 0 && cursor + 4 <= |s| {
      ObjectsLengthIsExact(data, s, cursor + 2 + s[cursor + 3], n - 1);
    }
  }

  lemma VariableParts(offset: nat, base: nat)
    requires base < 256
    ensures -Variable(offset, base) / 256 == offset && -Variable(offset, base) % 256 == base
  {
  }

  lemma DescribedIsExact(data: seq<byte>, s: seq<byte>, offset: nat, base: nat)
    requires |s| == |data| + 4 && forall i :: 0 <= i < |data| ==> s[2 + i] == data[i]
    requires base < 256 && 2 <= offset && base == offset + 3
    ensures DescribedLength(Variable(offset, base), s) == |s| <==> Counted(data, offset - 2)
  {
    VariableParts(offset, base);
    hide Variable;
    if offset - 2 < |data| {
      assert s[2 + (offset - 2)] == data[offset - 2];
    }
  }

  /** The length tables and the object walk give the encoder's length for legal frames and no others. */
  lemma PredictedIffLegal(role: Role, f: Frame)
    requires |f.data| + 4 <= MAX_FRAME_LENGTH
    ensures Predict(role, Encode(f)) == |Encode(f)| <==> Legal(role, f)
  {
    hide Encode;
    EncodeShape(f);
    var s := Encode(f);
    DescribedIsExact(f.data, s, 6, 9);
    DescribedIsExact(f.data, s, 10, 13);
    DescribedIsExact(f.data, s, 2, 5);
    if 8 <= |s| {
      ObjectsLengthIsExact(f.data, s, 6, s[7]);
    }
  }

  // ---------- Lossless on legal traffic ----------

  lemma {:induction false} ScanShrinks(role: Role, s: seq<byte>)
    ensures forall f :: f in Scan(role, s).frames ==> |f.data| + 4 <= |s|
    decreases |s|
  {
    hide CrcValid, Predict;
    if MIN_FRAME_LENGTH <= |s| && !Try(role, s).Wait? {
      ScanShrinks(role, s[if Try(role, s).Slide? then 1 else Try(role, s).len..]);
    }
  }

  lemma AcceptedWhole(role: Role, f: Frame)
    ensures Try(role, Encode(f)) == Accept(|Encode(f)|) <==> Legal(role, f)
  {
    hide Encode, CrcValid, Predict, Legal;
    EncodeShape(f);
    var s := Encode(f);
    assert s[..|s|] == s;
    if |s| <= MAX_FRAME_LENGTH {
      PredictedIffLegal(role, f);
    } else if Legal(role, f) {
      LegalIsShort(role, f);
    }
  }

  /** An encoded frame is decoded to itself exactly when it is legal. */
  lemma SurvivesIffLegal(role: Role, f: Frame)
    ensures Scan(role, Encode(f)) == Scanned([f], []) <==> Legal(role, f)
  {
    hide Encode, Try, Legal, Scan, FrameOf;
    EncodeShape(f);
    AcceptedWhole(role, f);
    var s := Encode(f);
    assert s[..|s|] == s && s[|s|..] == [];
    ScanFromStart(role, s);
    match Try(role, s) {
      case Wait =>
      case Slide =>
        ScanShrinks(role, s[1..]);
        assert Scan(role, s).frames == [f] ==> f in Scan(role, s).frames;
      case Accept(n) =>
        FrameOfLength(s[..n]);
        assert Scan(role, s).frames == [f] ==> Scan(role, s).frames[0] == f;
    }
  }

  lemma LegalIsShort(role: Role, f: Frame)
    requires Legal(role, f)
    ensures |f.data| + 4 <= MAX_FRAME_LENGTH
  {
  }

  lemma FrameOfLength(raw: seq<byte>)
    requires MIN_FRAME_LENGTH <= |raw|
    ensures |FrameOf(raw).data| == |raw| - 4
  {
  }

  lemma ScanFromStart(role: Role, s: seq<byte>)
    requires MIN_FRAME_LENGTH <= |s|
    ensures match Try(role, s)
            case Wait => Scan(role, s) == Scanned([], s)
            case Slide => Scan(role, s) == Scan(role, s[1..])
            case Accept(n) =>
              var tail := Scan(role, s[n..]);
              Scan(role, s) == Scanned([FrameOf(s[..n])] + tail.frames, tail.rest)
    ensures Scan(role, []) == Scanned([], [])
  {
    hide Try, FrameOf;
  }

  predicate AllLegal(role: Role, fs: seq<Frame>) {
    forall f :: f in fs ==> Legal(role, f)
  }

  /** A legal frame at the head of a stream is found first. */
  lemma LegalHead(role: Role, f: Frame, t: seq<byte>)
    requires Legal(role, f)
    ensures Scan(role, Encode(f) + t) == Scanned([f] + Scan(role, t).frames, Scan(role, t).rest)
  {
    hide Encode, Legal, Scan;
    SurvivesIffLegal(role, f);
    ScanResumes(role, Encode(f), t);
    assert [] + t == t;
  }

  /** Cut a legal transmission anywhere: the scan of the first part is whole frames and a remainder. */
  lemma {:induction false} LegalPrefix(role: Role, fs: seq<Frame>, s: seq<byte>, t: seq<byte>) returns (j: nat)
    requires AllLegal(role, fs)
    requires s + t == EncodeAll(fs)
    ensures j <= |fs|
    ensures Scan(role, s).frames == fs[..j]
    ensures Scan(role, s).rest + t == EncodeAll(fs[j..])
    ensures j < |fs| ==> |Scan(role, s).rest| < |Encode(fs[j])|
    ensures |Scan(role, s).rest| < MAX_FRAME_LENGTH
    decreases |fs|
  {
    hide Encode, CrcValid, Predict, Legal, Scan, FrameOf, Try;
    if fs == [] {
      ShortIsUndecided(role, s);
      return 0;
    }
    var e, later := Encode(fs[0]), EncodeAll(fs[1..]);
    EncodeShape(fs[0]);
    LegalIsShort(role, fs[0]);
    PredictedIffLegal(role, fs[0]);
    if |e| <= |s| {
      CutBehindFrame(e, later, s, t);
      LegalHead(role, fs[0], s[|e|..]);
      j := LegalPrefix(role, fs[1..], s[|e|..], t);
      FirstOf(fs, j);
      j := j + 1;
    } else {
      CutInsideFrame(e, later, s, t);
      j := 0;
      PrefixWaits(role, s, t[..|e| - |s|]);
      assert fs[0..] == fs;
    }
  }

  lemma CutBehindFrame(e: seq<byte>, later: seq<byte>, s: seq<byte>, t: seq<byte>)
    requires s + t == e + later && |e| <= |s|
    ensures s == e + s[|e|..] && s[|e|..] + t == later
  {
    assert s[..|e|] == (s + t)[..|e|] == e;
    assert s[|e|..] + t == (s + t)[|e|..] == later;
  }

  lemma CutInsideFrame(e: seq<byte>, later: seq<byte>, s: seq<byte>, t: seq<byte>)
    requires s + t == e + later && |s| < |e|
    ensures |e| - |s| <= |t| && s + t[..|e| - |s|] == e
  {
    assert s + t[..|e| - |s|] == (s + t)[..|e|] == e;
  }

  lemma FirstOf(fs: seq<Frame>, j: nat)
    requires fs != [] && j <= |fs| - 1
    ensures fs[..j + 1] == [fs[0]] + fs[1..][..j] && fs[j + 1..] == fs[1..][j..]
    ensures j < |fs| - 1 ==> fs[j + 1] == fs[1..][j]
  {
  }

  /** A proper prefix of a frame with a predictable length is never decided. */
  lemma PrefixWaits(role: Role, s: seq<byte>, t: seq<byte>)
    requires t != [] && MIN_FRAME_LENGTH <= |s + t|
    requires Predict(role, s + t) == |s + t| <= MAX_FRAME_LENGTH
    ensures Scan(role, s) == Scanned([], s)
  {
    hide CrcValid, Predict, FrameOf;
    if MIN_FRAME_LENGTH <= |s| && Predict(role, s) != PREDICT_NEED_MORE {
      PredictStable(role, s, t);
    }
  }

  lemma {:induction false} LegalCutIsSafe(role: Role, fs: seq<Frame>, held: seq<byte>, chunks: seq<seq<byte>>)
    requires AllLegal(role, fs)
    requires held + Flatten(chunks) == EncodeAll(fs)
    ensures SafeCut(role, held, chunks)
    decreases |chunks|
  {
    hide Encode, CrcValid, Predict, Legal, Scan, FrameOf, FastHit;
    if chunks != [] {
      var s := held + chunks[0];
      assert s + Flatten(chunks[1..]) == EncodeAll(fs);
      var j := LegalPrefix(role, fs, s, Flatten(chunks[1..]));
      if held == [] {
        assert s == chunks[0];
        LegalChunkIsNotOversized(role, fs, chunks[0], Flatten(chunks[1..]));
      }
      LegalCutIsSafe(role, fs[j..], Scan(role, s).rest, chunks[1..]);
    }
  }

  lemma LegalChunkIsNotOversized(role: Role, fs: seq<Frame>, s: seq<byte>, t: seq<byte>)
    requires AllLegal(role, fs)
    requires s + t == EncodeAll(fs)
    ensures !Oversized(role, s)
  {
    hide Encode, CrcValid, Predict, Legal, FrameOf;
    if MAX_FRAME_LENGTH < |s| {
      var e := Encode(fs[0]);
      EncodeShape(fs[0]);
      LegalIsShort(role, fs[0]);
      PredictedIffLegal(role, fs[0]);
      assert s[..|e|] == (s + t)[..|e|] == e;
      assert e + s[|e|..] == s;
      PredictStable(role, e, s[|e|..]);
    }
  }

  /** Both roles: legal traffic, cut anywhere, is decoded to exactly the frames sent, in order. */
  lemma LegalTrafficIsLossless(role: Role, fs: seq<Frame>, chunks: seq<seq<byte>>)
    requires AllLegal(role, fs)
    requires Flatten(chunks) == EncodeAll(fs)
    ensures Run(role, [], chunks) == Scanned(fs, [])
  {
    hide Encode, Legal, Scan;
    assert [] + Flatten(chunks) == EncodeAll(fs);
    LegalCutIsSafe(role, fs, [], chunks);
    ShortIsUndecided(role, []);
    RunIsScan(role, [], chunks);
    var j := LegalPrefix(role, fs, EncodeAll(fs), []);
    assert EncodeAll(fs) + [] == EncodeAll(fs);
    var r := Scan(role, EncodeAll(fs)).rest;
    assert r + [] == r;
    assert j == |fs|;
    assert fs[..|fs|] == fs && fs[|fs|..] == [];
  }

  /** `encode`: fill a buffer, then append the checksum of what it holds. */
  method EncodeFrame(unit: byte, fc: byte, data: seq<byte>) returns (buffer: array<byte>)
    ensures fresh(buffer) && buffer[..] == Encode(Frame(unit, fc, data))
  {
    hide Crc, ByteOf, LowHalf, HighHalf;
    var crcEnd := |data| + 2;
    buffer := new byte[|data| + 4];
    buffer[0], buffer[1] := unit, fc;
    for i := 0 to |data|
      invariant buffer[..2 + i] == [unit, fc] + data[..i]
    {
      buffer[2 + i] := data[i];
      assert buffer[..2 + i + 1] == buffer[..2 + i] + [data[i]];
    }
    assert buffer[..crcEnd] == [unit, fc] + data;
    var crc := CrcFixed(buffer[..], 0, crcEnd);
    assert buffer[..][0..crcEnd] == [unit, fc] + data;
    buffer[crcEnd], buffer[crcEnd + 1] := ByteOf(LowHalf(crc)), ByteOf(HighHalf(crc));
    assert buffer[..] == buffer[..crcEnd] + [buffer[crcEnd], buffer[crcEnd + 1]];
  }

  // ---------- Where the buffering shows ----------

  function Zeros(n: nat): seq<byte> {
    seq(n, _ => 0)
  }

  /** A 264-byte FC 15 request in one chunk gets through the fast path; no scan ever yields it. */
  lemma OversizedRequestGetsThrough()
    ensures var f := Frame(1, 15, [0, 0, 0, 0, 255] + Zeros(255));
            && Decoded(Slave, [], Encode(f)) == Scanned([f], [])
            && f !in Scan(Slave, Encode(f)).frames
  {
    hide Encode, CrcValid, Scan, FrameOf;
    var f := Frame(1, 15, [0, 0, 0, 0, 255] + Zeros(255));
    EncodeShape(f);
    assert f.data[4] == 255 && |f.data| == 260;
    assert Encode(f)[2 + 4] == 255;
    assert DescribedLength(Variable(6, 9), Encode(f)) == 264;
    ScannedFramesAreShort(Slave, Encode(f));
  }

  // ---------- When the master's buffer is too short ----------

  /** Only the object walk of an identification response can be undecided for so long. */
  lemma LongRestIsIdentification(s: seq<byte>)
    requires |Scan(Master, s).rest| > MAX_FRAME_LENGTH
    ensures var r := Scan(Master, s).rest;
            && r[1] == 43 && r[2] == MEI_READ_DEVICE_ID
            && ObjectsLength(r, 8, r[7]) == PREDICT_NEED_MORE
  {
    hide Scan, CrcValid;
    RestIsUndecided(Master, s);
  }

  lemma {:induction false} RunRestFits(role: Role, held: seq<byte>, chunks: seq<seq<byte>>)
    requires |held| <= MAX_FRAME_LENGTH
    ensures |Run(role, held, chunks).rest| <= MAX_FRAME_LENGTH
    decreases |chunks|
  {
    hide Scan, Oversized;
    if chunks != [] {
      RunRestFits(role, Decoded(role, held, chunks[0]).rest, chunks[1..]);
    }
  }

  predicate SmallChunks(chunks: seq<seq<byte>>) {
    forall c :: c in chunks ==> |c| <= MAX_FRAME_LENGTH
  }

  /** However a prefix of `s` is cut into chunks of at most 256 bytes, the receiver makes of it what one scan does. */
  ghost predicate CutsAgree(role: Role, s: seq<byte>) {
    forall chunks: seq<seq<byte>> :: SmallChunks(chunks) && Flatten(chunks) <= s ==>
      Run(role, [], chunks) == Scan(role, Flatten(chunks))
  }

  /** No prefix of `s` leaves more undecided bytes than the buffer holds. */
  predicate AlwaysFits(role: Role, s: seq<byte>) {
    forall k :: 0 <= k <= |s| ==> |Scan(role, s[..k]).rest| <= MAX_FRAME_LENGTH
  }

  function Singles(s: seq<byte>): (r: seq<seq<byte>>)
    ensures SmallChunks(r)
  {
    seq(|s|, i requires 0 <= i < |s| => [s[i]])
  }

  lemma {:induction false} SinglesFlatten(s: seq<byte>)
    ensures Flatten(Singles(s)) == s
    decreases |s|
  {
    if s != [] {
      SinglesFlatten(s[1..]);
      assert Singles(s)[1..] == Singles(s[1..]);
    }
  }

  /** Both roles, every stream: cuts into chunks of at most 256 bytes agree exactly while the undecided bytes fit. */
  lemma CutsAgreeIffAlwaysFits(role: Role, s: seq<byte>)
    ensures CutsAgree(role, s) <==> AlwaysFits(role, s)
  {
    hide Scan, Run, SmallChunks, Singles, Flatten;
    if CutsAgree(role, s) {
      forall k | 0 <= k <= |s| ensures |Scan(role, s[..k]).rest| <= MAX_FRAME_LENGTH {
        SinglesFlatten(s[..k]);
        RunRestFits(role, [], Singles(s[..k]));
      }
    }
    if AlwaysFits(role, s) {
      forall chunks: seq<seq<byte>> | SmallChunks(chunks) && Flatten(chunks) <= s
        ensures Run(role, [], chunks) == Scan(role, Flatten(chunks))
      {
        ShortIsUndecided(role, []);
        assert [] + Flatten(chunks) == Flatten(chunks);
        FittingCutIsSafe(role, s, [], chunks);
        RunIsScan(role, [], chunks);
      }
    }
  }

  lemma {:induction false} FittingCutIsSafe(role: Role, s: seq<byte>, before: seq<byte>, chunks: seq<seq<byte>>)
    requires AlwaysFits(role, s) && before + Flatten(chunks) <= s && SmallChunks(chunks)
    ensures SafeCut(role, Scan(role, before).rest, chunks)
    decreases |chunks|
  {
    hide Scan, FastHit;
    if chunks != [] {
      var now := before + chunks[0];
      assert now + Flatten(chunks[1..]) == before + Flatten(chunks);
      assert s[..|now|] == now;
      ScanResumes(role, before, chunks[0]);
      FittingCutIsSafe(role, s, now, chunks[1..]);
    }
  }

  /** Bytes that are no function code of a response, nor an exception. */
  predicate Mute(b: byte) {
    b < EXCEPTION_OFFSET && ResTable(b) == 0
  }

  lemma MuteSlides(s: seq<byte>)
    requires MIN_FRAME_LENGTH <= |s| && Mute(s[1])
    ensures Scan(Master, s) == Scan(Master, s[1..])
  {
    hide Scan, CrcValid, FrameOf;
    ScanFromStart(Master, s);
  }

  lemma {:induction false} MuteYieldsNothing(s: seq<byte>)
    requires forall i :: 0 <= i < |s| ==> Mute(s[i])
    ensures Scan(Master, s).frames == []
    decreases |s|
  {
    hide Try, Mute;
    if MIN_FRAME_LENGTH <= |s| {
      MuteSlides(s);
      MuteYieldsNothing(s[1..]);
    }
  }

  lemma {:induction false} MuteIsSkipped(s: seq<byte>, k: nat)
    requires k + 3 <= |s| && forall i :: 1 <= i <= k ==> Mute(s[i])
    ensures Scan(Master, s) == Scan(Master, s[k..])
    decreases k
  {
    hide Scan, Mute;
    if k == 0 {
      assert s[0..] == s;
    } else {
      MuteSlides(s);
      MuteIsSkipped(s[1..], k - 1);
      assert s[1..][k - 1..] == s[k..];
    }
  }

  lemma {:induction false} EmptyObjects(s: seq<byte>, cursor: nat, n: nat)
    requires 0 < n && forall i :: cursor <= i < |s| ==> s[i] == 0
    ensures ObjectsLength(s, cursor, n) == if cursor + 2 * n <= |s| then cursor + 2 * n + 2 else PREDICT_NEED_MORE
    decreases n
  {
    if n > 1 && cursor + 2 <= |s| {
      EmptyObjects(s, cursor + 2, n - 1);
    }
  }

  /** An identification prefix that announces 127 objects, with `f` where the first one should be. */
  function Losing(f: Frame): (s: seq<byte>)
    requires |f.data| == 4
    ensures |s| == 368
  {
    EncodeShape(f);
    [0, 43, MEI_READ_DEVICE_ID, 0, 0, 0, 0, 127] + Encode(f) + [0, 100] + Zeros(350)
  }

  lemma LosingWalk(f: Frame, k: nat)
    requires |f.data| == 4 && f.fc == 6 && 8 <= k <= 368
    ensures Predict(Master, Losing(f)[..k]) == if k == 368 then 370 else PREDICT_NEED_MORE
  {
    hide Encode, CrcValid;
    EncodeShape(f);
    var s := Losing(f)[..k];
    if 18 <= k {
      assert s[8 + 1] == 6 && s[16 + 1] == 100;
      if 118 <= k {
        EmptyObjects(s, 118, 125);
      } else {
        assert ObjectsLength(s, 118, 125) == PREDICT_NEED_MORE;
      }
      assert ObjectsLength(s, 16, 126) == ObjectsLength(s, 118, 125);
      assert ObjectsLength(s, 8, 127) == ObjectsLength(s, 16, 126);
    } else if 10 <= k {
      assert s[8 + 1] == 6;
      assert ObjectsLength(s, 16, 126) == PREDICT_NEED_MORE;
    }
  }

  /** One scan of the whole gives up the prefix and finds the frame inside it. */
  lemma LosingScan(f: Frame)
    requires |f.data| == 4 && f.fc == 6 && Mute(f.unit)
    ensures Scan(Master, Losing(f)).frames == [f]
  {
    hide Encode, Predict, Scan, CrcValid, FrameOf, Zeros;
    EncodeShape(f);
    var s := Losing(f);
    var t: seq<byte> := [0, 100] + Zeros(350);
    LosingWalk(f, 368);
    assert s[..368] == s;
    ScanFromStart(Master, s);
    assert s[1..][7..] == s[8..] == Encode(f) + t;
    LosingBytes(f);
    MuteIsSkipped(s[1..], 7);
    SurvivesIffLegal(Master, f);
    ScanResumes(Master, Encode(f), t);
    assert [] + t == t;
    MuteYieldsNothing(t);
  }

  lemma LosingBytes(f: Frame)
    requires |f.data| == 4 && Mute(f.unit)
    ensures forall i :: 1 <= i <= 7 ==> Mute(Losing(f)[1..][i])
    ensures forall i :: 0 <= i < |[0, 100] + Zeros(350)| ==> Mute(([0, 100] + Zeros(350))[i])
    ensures forall i :: 18 <= i < 368 ==> Losing(f)[i] == 0
  {
    hide Encode;
    EncodeShape(f);
  }

  /** Cut in three, the frame is pushed out of the buffer while the master waits for the announced objects. */
  lemma LosingRun(f: Frame)
    requires |f.data| == 4 && f.fc == 6 && Mute(f.unit)
    ensures var s := Losing(f);
            Run(Master, [], [s[..256], s[256..356], s[356..]]).frames == []
  {
    hide Encode, Predict, Scan, CrcValid, FrameOf, FastHit, Losing, Zeros;
    var s := Losing(f);
    var a, b, c := s[..256], s[256..356], s[356..];
    var none: seq<seq<byte>> := [];
    assert [a, b, c][1..] == [b, c] && [b, c][1..] == [c] && [c][1..] == none;
    LosingWalk(f, 256);
    LosingWalk(f, 356);
    WaitingScan(s[..256]);
    WaitingScan(s[..356]);
    assert [] + a == a && a + b == s[..356];
    NotFast(a);
    LosingBytes(f);
    var left := s[..356][100..];
    assert left + c == s[100..];
    assert |left| == 256 && Kept(s[..356]) == left;
    LosingRest(f, left + c);
    assert Decoded(Master, [], a) == Scanned([], a);
    assert Decoded(Master, a, b) == Scanned([], left);
    assert Decoded(Master, left, c).frames == [];
    assert Run(Master, left, [c]).frames == Run(Master, Decoded(Master, left, c).rest, none).frames == [];
    assert Run(Master, a, [b, c]).frames == Run(Master, left, [c]).frames;
  }

  lemma LosingRest(f: Frame, t: seq<byte>)
    requires |f.data| == 4 && f.fc == 6 && Mute(f.unit)
    requires t == Losing(f)[100..]
    ensures Scan(Master, t).frames == []
  {
    hide Scan, Losing;
    LosingBytes(f);
    forall i | 0 <= i < |t| ensures Mute(t[i]) {
      assert t[i] == Losing(f)[100 + i];
    }
    MuteYieldsNothing(t);
  }

  lemma WaitingScan(s: seq<byte>)
    requires MIN_FRAME_LENGTH <= |s| && Predict(Master, s) == PREDICT_NEED_MORE
    ensures Scan(Master, s) == Scanned([], s)
  {
    hide Predict, CrcValid;
  }

  lemma NotFast(s: seq<byte>)
    requires |s| <= MAX_FRAME_LENGTH
    ensures !Oversized(Master, s)
  {
  }

  /** Two cuts of one stream, all chunks of which fit the buffer, from which a master reports different frames. */
  lemma CutsCanLoseAFrame(f: Frame)
    requires |f.data| == 4 && f.fc == 6 && Mute(f.unit)
    ensures var s := Losing(f);
            var two, three := [s[..256], s[256..]], [s[..256], s[256..356], s[356..]];
            && Flatten(two) == Flatten(three) == s && SmallChunks(two) && SmallChunks(three)
            && Run(Master, [], two).frames == [f]
            && Run(Master, [], three).frames == []
  {
    hide Run, Losing;
    var s := Losing(f);
    FindingRun(f);
    LosingRun(f);
    FlattenTwo(s[..256], s[256..]);
    FlattenThree(s[..256], s[256..356], s[356..]);
    assert s == s[..256] + s[256..] == s[..256] + s[256..356] + s[356..];
  }

  /** Cut in two, the frame is still in the buffer when the announced objects turn out to be too long. */
  lemma FindingRun(f: Frame)
    requires |f.data| == 4 && f.fc == 6 && Mute(f.unit)
    ensures var s := Losing(f); Run(Master, [], [s[..256], s[256..]]).frames == [f]
  {
    hide Encode, Predict, Scan, CrcValid, FrameOf, FastHit, Losing;
    var s := Losing(f);
    var a, b := s[..256], s[256..];
    var none: seq<seq<byte>> := [];
    assert [a, b][1..] == [b] && [b][1..] == none;
    LosingWalk(f, 256);
    WaitingScan(a);
    LosingScan(f);
    NotFast(a);
    assert [] + a == a && a + b == s;
    assert Decoded(Master, [], a) == Scanned([], a);
    assert Decoded(Master, a, b).frames == [f];
    assert Run(Master, a, [b]).frames == [f] + Run(Master, Decoded(Master, a, b).rest, none).frames == [f];
  }

  lemma FlattenTwo(a: seq<byte>, b: seq<byte>)
    ensures Flatten([a, b]) == a + b
  {
    var none: seq<seq<byte>> := [];
    assert [a, b][1..] == [b] && [b][1..] == none;
    assert Flatten([b]) == b;
  }

  lemma FlattenThree(a: seq<byte>, b: seq<byte>, c: seq<byte>)
    ensures Flatten([a, b, c]) == a + b + c
  {
    var none: seq<seq<byte>> := [];
    assert [a, b, c][1..] == [b, c] && [b, c][1..] == [c] && [c][1..] == none;
    assert Flatten([c]) == c && Flatten([b, c]) == b + c;
  }
}
