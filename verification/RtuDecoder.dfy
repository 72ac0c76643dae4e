/** The receiving half of RtuProtocolLayer: a fixed buffer of leftovers, scanned chunk by chunk. */
module RtuDecoder {
  import opened Bytes
  import opened Crc16
  import opened RtuFraming

  datatype Event = FrameEvent(frame: Frame) | SilenceError

  function FrameEvents(frames: seq<Frame>): seq<Event> {
    seq(|frames|, i requires 0 <= i < |frames| => FrameEvent(frames[i]))
  }

  /** Length predicted by the single-frame fast path, which does not walk identification objects. */
  function FastLength(role: Role, data: seq<byte>): int
    requires MIN_FRAME_LENGTH <= |data|
  {
    if role.Master? && data[1] == 43 then PREDICT_NEED_MORE
    else
      var n := Predict(role, data);
      if n == PREDICT_UNKNOWN then PREDICT_NEED_MORE else n
  }

  /** The chunk is taken whole by the fast path. */
  predicate FastHit(role: Role, data: seq<byte>) {
    && MIN_FRAME_LENGTH <= |data|
    && FastLength(role, data) == |data|
    && CrcValid(data)
  }

  /** The fast path takes a chunk that is longer than any frame the scanner accepts. */
  predicate Oversized(role: Role, data: seq<byte>) {
    FastHit(role, data) && |data| > MAX_FRAME_LENGTH
  }

  /** What is left of an undecided suffix in a buffer of MAX_FRAME_LENGTH bytes. */
  function Kept(rest: seq<byte>): seq<byte> {
    if |rest| <= MAX_FRAME_LENGTH then rest else rest[|rest| - MAX_FRAME_LENGTH..]
  }

  /** The newest bytes are kept, up to 256 of them. */
  lemma KeptIsNewest(rest: seq<byte>)
    ensures |Kept(rest)| == if |rest| < 256 then |rest| else 256
    ensures rest[|rest| - |Kept(rest)|..] == Kept(rest)
  {
  }

  /** Outcome of decoding `data` while `held` is held back. */
  function Decoded(role: Role, held: seq<byte>, data: seq<byte>): Scanned {
    if held == [] && Oversized(role, data) then Scanned([FrameOf(data)], [])
    else
      var all := Scan(role, held + data);
      Scanned(all.frames, Kept(all.rest))
  }

  lemma FastHitIsScan(role: Role, data: seq<byte>)
    requires FastHit(role, data) && |data| <= MAX_FRAME_LENGTH
    ensures Scan(role, data) == Scanned([FrameOf(data)], [])
  {
    hide CrcValid, Predict;
    assert data[..|data|] == data;
    assert Try(role, data) == Accept(|data|);
    assert Scan(role, []) == Scanned([], []);
    assert data[|data|..] == [];
  }

  lemma HitIsDecoded(role: Role, data: seq<byte>)
    requires FastHit(role, data)
    ensures Decoded(role, [], data) == Scanned([FrameOf(data)], [])
  {
    hide FastHit, FrameOf;
    if |data| <= MAX_FRAME_LENGTH {
      FastHitIsScan(role, data);
      assert [] + data == data;
    }
  }

  lemma MissIsDecoded(role: Role, held: seq<byte>, data: seq<byte>)
    requires held == [] ==> !FastHit(role, data)
    ensures var all := Scan(role, held + data);
            Decoded(role, held, data) == Scanned(all.frames, Kept(all.rest))
  {
  }

  /** An oversized chunk is exactly where the fast path and the scanner part ways. */
  lemma FastPathAgreesIffNotOversized(role: Role, held: seq<byte>, data: seq<byte>)
    ensures Decoded(role, held, data).frames == Scan(role, held + data).frames
            <==> !(held == [] && Oversized(role, data))
  {
    hide CrcValid, FastLength, Scan;
    if held == [] && Oversized(role, data) {
      ScannedFramesAreShort(role, data);
      assert held + data == data;
    }
  }

  lemma {:induction false} ScannedFramesAreShort(role: Role, s: seq<byte>)
    ensures forall f :: f in Scan(role, s).frames ==> |f.data| + 4 <= MAX_FRAME_LENGTH
    decreases |s|
  {
    hide CrcValid, Predict;
    if MIN_FRAME_LENGTH <= |s| && !Try(role, s).Wait? {
      ScannedFramesAreShort(role, s[if Try(role, s).Slide? then 1 else Try(role, s).len..]);
    }
  }

  lemma SliceOfJoin(head: seq<byte>, tail: seq<byte>, start: nat, end: nat)
    requires start <= end <= |head| + |tail|
    ensures (head + tail)[start..end]
            == if end <= |head| then head[start..end]
               else if start >= |head| then tail[start - |head|..end - |head|]
               else head[start..|head|] + tail[0..end - |head|]
  {
  }

  /** What one attempt at offset `index` contributes to the scan of `s`. */
  lemma ScanFrom(role: Role, s: seq<byte>, index: nat)
    requires index + MIN_FRAME_LENGTH <= |s|
    ensures match Try(role, s[index..])
            case Wait => Scan(role, s[index..]) == Scanned([], s[index..])
            case Slide => Scan(role, s[index..]) == Scan(role, s[index + 1..])
            case Accept(n) =>
              var tail := Scan(role, s[index + n..]);
              Scan(role, s[index..]) == Scanned([FrameOf(s[index..index + n])] + tail.frames, tail.rest)
  {
    hide Try, FrameOf;
    var here := s[index..];
    match Try(role, here)
    case Wait =>
    case Slide => assert here[1..] == s[index + 1..];
    case Accept(n) => assert here[n..] == s[index + n..] && here[..n] == s[index..index + n];
  }

  lemma ShortIsUndecided(role: Role, s: seq<byte>)
    requires |s| < MIN_FRAME_LENGTH
    ensures Scan(role, s) == Scanned([], s)
  {
  }

  /** The scan of `s` has come to offset `index` and found these frames. */
  predicate Scanning(role: Role, s: seq<byte>, index: nat, found: seq<Frame>) {
    && index <= |s|
    && found + Scan(role, s[index..]).frames == Scan(role, s).frames
    && Scan(role, s[index..]).rest == Scan(role, s).rest
  }

  lemma StartScanning(role: Role, s: seq<byte>)
    ensures Scanning(role, s, 0, []) && FrameEvents([]) == []
  {
    hide Scan;
    assert s[0..] == s;
  }

  lemma ScanningSlides(role: Role, s: seq<byte>, index: nat, found: seq<Frame>)
    requires Scanning(role, s, index, found)
    requires index + MIN_FRAME_LENGTH <= |s| && Try(role, s[index..]).Slide?
    ensures Scanning(role, s, index + 1, found)
  {
    hide Scan, Try;
    ScanFrom(role, s, index);
  }

  lemma ScanningAccepts(role: Role, s: seq<byte>, index: nat, found: seq<Frame>)
    requires Scanning(role, s, index, found)
    requires index + MIN_FRAME_LENGTH <= |s| && Try(role, s[index..]).Accept?
    ensures var n := Try(role, s[index..]).len;
            && index + n <= |s|
            && Scanning(role, s, index + n, found + [FrameOf(s[index..index + n])])
            && FrameEvents(found + [FrameOf(s[index..index + n])]) == FrameEvents(found) + [FrameEvent(FrameOf(s[index..index + n]))]
  {
    hide Scan, Try, FrameOf;
    ScanFrom(role, s, index);
  }

  lemma ScanningStops(role: Role, s: seq<byte>, index: nat, found: seq<Frame>)
    requires Scanning(role, s, index, found)
    requires |s| < index + MIN_FRAME_LENGTH || Try(role, s[index..]).Wait?
    ensures s[index..] == Scan(role, s).rest && found == Scan(role, s).frames
  {
    hide Try, FrameOf;
  }

  /** `expectedLen` is the length predicted for the frame that starts at the head of `held`. */
  predicate Pinned(role: Role, held: seq<byte>, expectedLen: int) {
    && MIN_FRAME_LENGTH <= |held|
    && expectedLen == Predict(role, held)
    && |held| < expectedLen <= MAX_FRAME_LENGTH
  }

  class RtuProtocolLayer {
    const role: Role
    const t35Time: int
    const residual: array<byte>
    var residualLen: nat
    var expectedLen: int
    var timerArmed: bool
    var lastChunkTime: int
    var events: seq<Event>

    /** `expectedLen` is either stale, and then harmless, or exact; the timer guards held bytes. */
    ghost predicate Valid()
      reads this, residual
    {
      && residual.Length == MAX_FRAME_LENGTH
      && residualLen <= MAX_FRAME_LENGTH
      && (expectedLen <= residualLen || Pinned(role, Held(), expectedLen))
      && (timerArmed <==> t35Time > 0 && residualLen > 0)
    }

    ghost function Held(): seq<byte>
      requires residualLen <= residual.Length
      reads this, residual
    {
      residual[..residualLen]
    }

    constructor (role: Role, t35Time: int)
      ensures Valid() && fresh(residual)
      ensures this.role == role && this.t35Time == t35Time
      ensures Held() == [] && events == []
    {
      this.role, this.t35Time := role, t35Time;
      residual := new byte[MAX_FRAME_LENGTH];
      residualLen, expectedLen := 0, PREDICT_NEED_MORE;
      timerArmed, lastChunkTime, events := false, 0, [];
    }

    method Flush()
      requires Valid()
      modifies this
      ensures Valid() && Held() == [] && events == old(events)
    {
      residualLen, expectedLen := 0, PREDICT_NEED_MORE;
      timerArmed, lastChunkTime := false, 0;
    }

    /** The t3.5 deadline passes with bytes still held. */
    method OnSilence()
      requires Valid() && timerArmed
      modifies this
      ensures Valid() && Held() == [] && events == old(events) + [SilenceError]
    {
      timerArmed, residualLen, expectedLen, lastChunkTime := false, 0, PREDICT_NEED_MORE, 0;
      events := events + [SilenceError];
    }

    /** Bytes still held when a chunk arrives at `now`: none if the silence was too long. */
    ghost function HeldAt(now: int): seq<byte>
      requires residualLen <= residual.Length
      reads this, residual
    {
      if timerArmed && now - lastChunkTime > t35Time then [] else Held()
    }

    method Decode(data: seq<byte>, now: int)
      requires Valid()
      modifies this, residual
      ensures Valid()
      ensures var late := old(timerArmed && now - lastChunkTime > t35Time);
              var all := Decoded(role, old(HeldAt(now)), data);
              && Held() == all.rest
              && events == old(events) + (if late then [SilenceError] else []) + FrameEvents(all.frames)
      ensures timerArmed ==> lastChunkTime == now
    {
      hide Decoded, Pinned, FastLength, CrcValid, FrameOf, Scan, Kept;
      if timerArmed {
        timerArmed := false;
        if now - lastChunkTime > t35Time {
          residualLen, expectedLen, lastChunkTime := 0, PREDICT_NEED_MORE, 0;
          events := events + [SilenceError];
        }
      }
      ghost var held, before := Held(), events;
      if residualLen == 0 && MIN_FRAME_LENGTH <= |data| {
        var hit := TakeWhole(data);
        if hit {
          HitIsDecoded(role, data);
          return;
        }
      }
      MissIsDecoded(role, held, data);
      var index := ScanChunk(data);
      Compact(data, index, now);
    }

    ghost predicate Disarmed()
      reads this, residual
    {
      && residual.Length == MAX_FRAME_LENGTH
      && residualLen <= MAX_FRAME_LENGTH
      && (expectedLen <= residualLen || Pinned(role, Held(), expectedLen))
      && !timerArmed
    }

    /** Fast path: nothing is held and the chunk is exactly one frame. */
    method TakeWhole(data: seq<byte>) returns (hit: bool)
      requires MIN_FRAME_LENGTH <= |data|
      modifies this`expectedLen, this`events
      ensures hit == FastHit(role, data)
      ensures expectedLen == if hit then PREDICT_NEED_MORE else old(expectedLen)
      ensures events == if hit then old(events) + [FrameEvent(FrameOf(data))] else old(events)
    {
      hide FastLength, Trailer, Bits, Crc;
      var frameLen := PredictWhole(data);
      hit := false;
      if frameLen == |data| {
        var crc := CrcFixed(data, 0, frameLen - 2);
        assert data[0..frameLen - 2] == data[..frameLen - 2];
        if Trailer(Bits(data[frameLen - 2]), Bits(data[frameLen - 1])) == crc {
          events := events + [FrameEvent(FrameOf(data))];
          expectedLen := PREDICT_NEED_MORE;
          hit := true;
        }
      }
    }

    method PredictWhole(data: seq<byte>) returns (frameLen: int)
      requires MIN_FRAME_LENGTH <= |data|
      ensures frameLen == FastLength(role, data)
    {
      var fc := data[1];
      frameLen := PREDICT_NEED_MORE;
      var val := if role.Slave? then ReqTable(fc) else ResTable(fc);
      if role.Master? && fc >= EXCEPTION_OFFSET {
        frameLen := 5;
      } else if val > 0 {
        frameLen := val;
      } else if val < 0 && val != DEVICE_ID_WALK {
        var offset := -val / 256;
        if |data| > offset {
          frameLen := -val % 256 + data[offset];
        }
      }
    }

    /** Scan the held bytes and the chunk up to the first byte that stays undecided. */
    method ScanChunk(data: seq<byte>) returns (index: nat)
      requires Disarmed()
      modifies this`expectedLen, this`events
      ensures index <= residualLen + |data|
      ensures (Held() + data)[index..] == Scan(role, Held() + data).rest
      ensures events == old(events) + FrameEvents(Scan(role, Held() + data).frames)
      ensures expectedLen <= residualLen + |data| || PinnedAt(data, index)
    {
      hide CrcValid, Predict, Try, FrameOf, Scan, Scanning, FrameEvents;
      ghost var s := Held() + data;
      ghost var found: seq<Frame> := [];
      var totalAvailable := residualLen + |data|;
      index := 0;
      StartScanning(role, s);
      if expectedLen > 0 && totalAvailable < expectedLen {
        assert s[0..] == s;
        StillWaiting(Held(), data, expectedLen);
        return;
      }
      while index + MIN_FRAME_LENGTH <= totalAvailable
        invariant index <= totalAvailable && Held() + data == s
        invariant events == old(events) + FrameEvents(found)
        invariant Scanning(role, s, index, found)
        invariant expectedLen <= totalAvailable
        decreases totalAvailable - index
      {
        var attempt := TryAt(data, index);
        match attempt {
          case Wait =>
            WaitKeepsLengthInRange(s[index..]);
            ScanningStops(role, s, index, found);
            return;
          case Slide =>
            ScanningSlides(role, s, index, found);
            index := index + 1;
          case Accept(frameLen) =>
            ScanningAccepts(role, s, index, found);
            var raw := RawAt(data, index, frameLen);
            events := events + [FrameEvent(FrameOf(raw))];
            found := found + [FrameOf(raw)];
            index := index + frameLen;
        }
      }
      ScanningStops(role, s, index, found);
    }

    ghost predicate PinnedAt(data: seq<byte>, index: nat)
      requires residualLen <= residual.Length && index <= residualLen + |data|
      reads this, residual
    {
      Pinned(role, (Held() + data)[index..], expectedLen - index)
    }

    /** With fewer bytes than the pinned length there is nothing to scan. */
    lemma StillWaiting(held: seq<byte>, data: seq<byte>, n: int)
      requires Pinned(role, held, n) && |held| + |data| < n
      ensures Scan(role, held + data) == Scanned([], held + data)
      ensures Pinned(role, held + data, n)
    {
      hide CrcValid, Predict;
      PredictStable(role, held, data);
    }

    lemma WaitKeepsLengthInRange(s: seq<byte>)
      requires MIN_FRAME_LENGTH <= |s| && Try(role, s).Wait?
      ensures Predict(role, s) == PREDICT_NEED_MORE || Pinned(role, s, Predict(role, s))
    {
      hide CrcValid, Predict;
    }

    /** Move everything but the first `discardLen` bytes to the front of the buffer. */
    method MoveToFront(data: seq<byte>, discardLen: nat)
      requires residualLen <= residual.Length
      requires discardLen <= residualLen + |data| <= discardLen + residual.Length
      modifies residual
      ensures residual[..residualLen + |data| - discardLen] == old((Held() + data)[discardLen..])
    {
      SuffixOfJoin(Held(), data, discardLen);
      if discardLen >= residualLen {
        CopyIn(data, discardLen - residualLen, 0);
      } else if discardLen > 0 {
        ShiftLeft(discardLen);
        CopyIn(data, 0, residualLen - discardLen);
      } else {
        CopyIn(data, 0, residualLen);
      }
    }

    lemma SuffixOfJoin(held: seq<byte>, data: seq<byte>, k: nat)
      requires k <= |held| + |data|
      ensures (held + data)[k..] == if k >= |held| then [] + data[k - |held|..] else held[k..] + data[0..]
    {
    }

    /** Keep the undecided suffix, as far as it fits, and re-arm the silence timer. */
    method Compact(data: seq<byte>, index: nat, now: int)
      requires residual.Length == MAX_FRAME_LENGTH && residualLen <= MAX_FRAME_LENGTH && !timerArmed
      requires index <= residualLen + |data|
      requires expectedLen <= residualLen + |data| || PinnedAt(data, index)
      modifies residual, this`residualLen, this`expectedLen, this`timerArmed, this`lastChunkTime
      ensures Valid()
      ensures Held() == Kept(old((Held() + data)[index..]))
      ensures timerArmed ==> lastChunkTime == now
    {
      hide Predict;
      ghost var s := Held() + data;
      var totalAvailable := residualLen + |data|;
      var finalRestLen := totalAvailable - index;
      if finalRestLen == 0 {
        residualLen, expectedLen := 0, PREDICT_NEED_MORE;
        return;
      }
      var keepLen := if finalRestLen < MAX_FRAME_LENGTH then finalRestLen else MAX_FRAME_LENGTH;
      var discardLen := totalAvailable - keepLen;
      MoveToFront(data, discardLen);
      assert s[discardLen..] == Kept(s[index..]);
      residualLen := keepLen;
      if discardLen > 0 && expectedLen > 0 {
        var newExpectedLen := expectedLen - discardLen;
        expectedLen := if newExpectedLen > PREDICT_NEED_MORE then newExpectedLen else PREDICT_NEED_MORE;
      }
      if t35Time > 0 {
        lastChunkTime := now;
        timerArmed := true;
      }
    }

    /** `data.copy(residual, at, from)` */
    method CopyIn(data: seq<byte>, from: nat, at: nat)
      requires from <= |data| && at + |data| - from <= residual.Length
      modifies residual
      ensures residual[..at + |data| - from] == old(residual[..at]) + data[from..]
    {
      assert data[from..|data|] == data[from..];
      for i := from to |data|
        invariant residual[..at + i - from] == old(residual[..at]) + data[from..i]
      {
        residual[at + i - from] := data[i];
        assert residual[..at + i + 1 - from] == residual[..at + i - from] + [data[i]];
        assert data[from..i + 1] == data[from..i] + [data[i]];
      }
    }

    /** `residual.copy(residual, 0, shift, residualLen)` */
    method ShiftLeft(shift: nat)
      requires shift <= residualLen <= residual.Length
      modifies residual
      ensures residual[..residualLen - shift] == old(residual[shift..residualLen])
    {
      for i := 0 to residualLen - shift
        invariant residual[..i] == old(residual[shift..shift + i])
        invariant residual[shift + i..residualLen] == old(residual[shift + i..residualLen])
      {
        ghost var next := residual[shift + i];
        assert next == residual[shift + i..residualLen][0];
        residual[i] := residual[shift + i];
        assert residual[..i + 1] == residual[..i] + [next];
        assert old(residual[shift..shift + i + 1]) == old(residual[shift..shift + i]) + [next];
        assert residual[shift + i + 1..residualLen] == old(residual[shift + i + 1..residualLen]);
      }
    }

    /** Byte `pos` of the held bytes followed by the chunk. */
    function ByteAt(data: seq<byte>, pos: nat): (b: byte)
      requires residualLen <= residual.Length && pos < residualLen + |data|
      reads this, residual
      ensures b == (Held() + data)[pos]
    {
      if pos < residualLen then residual[pos] else data[pos - residualLen]
    }

    method PredictAt(data: seq<byte>, index: nat) returns (frameLen: int)
      requires residualLen <= residual.Length
      requires index + MIN_FRAME_LENGTH <= residualLen + |data|
      ensures frameLen == Predict(role, (Held() + data)[index..])
    {
      ghost var s := (Held() + data)[index..];
      var available := residualLen + |data| - index;
      var fc := ByteAt(data, index + 1);
      var val := if role.Slave? then ReqTable(fc) else ResTable(fc);
      if role.Master? && fc >= EXCEPTION_OFFSET {
        return 5;
      }
      if val > 0 {
        return val;
      }
      if val == DEVICE_ID_WALK {
        frameLen := WalkObjects(data, index);
      } else if val < 0 {
        var offset := -val / 256;
        if available <= offset {
          return PREDICT_NEED_MORE;
        }
        frameLen := -val % 256 + ByteAt(data, index + offset);
      } else {
        return PREDICT_UNKNOWN;
      }
    }

    /** Walk the identification objects of an FC 43 / MEI 14 response. */
    method WalkObjects(data: seq<byte>, index: nat) returns (frameLen: int)
      requires residualLen <= residual.Length
      requires index + MIN_FRAME_LENGTH <= residualLen + |data|
      ensures frameLen == DeviceIdLength((Held() + data)[index..])
    {
      ghost var s := (Held() + data)[index..];
      var totalAvailable := residualLen + |data|;
      if totalAvailable - index < 8 {
        return PREDICT_NEED_MORE;
      }
      if ByteAt(data, index + 2) != MEI_READ_DEVICE_ID {
        return PREDICT_UNKNOWN;
      }
      var numObjs := ByteAt(data, index + 7);
      var cursor := index + 8;
      for i := 0 to numObjs
        invariant index + 8 <= cursor
        invariant ObjectsLength(s, 8, numObjs) == ObjectsLength(s, cursor - index, numObjs - i)
      {
        if totalAvailable < cursor + 2 {
          return PREDICT_NEED_MORE;
        }
        cursor := cursor + 2 + ByteAt(data, cursor + 1);
      }
      frameLen := cursor - index + 2;
    }

    /** CRC of the bytes `index .. crcEnd`, which may straddle the buffer and the chunk. */
    method CrcAt(data: seq<byte>, index: nat, crcEnd: nat) returns (crc: bv16)
      requires residualLen <= residual.Length
      requires index <= crcEnd <= residualLen + |data|
      ensures crc == Crc((Held() + data)[index..crcEnd])
    {
      hide Crc;
      SliceOfJoin(Held(), data, index, crcEnd);
      if crcEnd <= residualLen {
        crc := CrcFixed(residual[..residualLen], index, crcEnd);
      } else if index >= residualLen {
        crc := CrcFixed(data, index - residualLen, crcEnd - residualLen);
      } else {
        crc := CrcDual(residual[..residualLen], index, residualLen - index, data, 0, crcEnd - residualLen);
      }
    }

    /** The bytes `index .. index + len`, copied out of the buffer and the chunk. */
    method RawAt(data: seq<byte>, index: nat, len: nat) returns (raw: seq<byte>)
      requires residualLen <= residual.Length
      requires index + len <= residualLen + |data|
      ensures raw == (Held() + data)[index..index + len]
    {
      SliceOfJoin(Held(), data, index, index + len);
      if index + len <= residualLen {
        raw := residual[..residualLen][index..index + len];
      } else if index >= residualLen {
        raw := data[index - residualLen..index - residualLen + len];
      } else {
        var headLen := residualLen - index;
        raw := residual[..residualLen][index..residualLen] + data[0..len - headLen];
      }
    }

    /** One attempt at a frame starting at `index`: the branch the scan takes there. */
    method TryAt(data: seq<byte>, index: nat) returns (attempt: Attempt)
      requires residualLen <= residual.Length
      requires index + MIN_FRAME_LENGTH <= residualLen + |data|
      modifies this`expectedLen
      ensures attempt == Try(role, (Held() + data)[index..])
      ensures var n := Predict(role, (Held() + data)[index..]);
              var total := residualLen + |data|;
              expectedLen == if attempt.Wait? && n != PREDICT_NEED_MORE then index + n
                             else if attempt.Accept? then PREDICT_NEED_MORE
                             else old(expectedLen)
    {
      hide CrcValid, Predict;
      ghost var s := (Held() + data)[index..];
      var totalAvailable := residualLen + |data|;
      var frameLen := PredictAt(data, index);
      if frameLen == PREDICT_UNKNOWN {
        return Slide;
      }
      if frameLen == PREDICT_NEED_MORE {
        return Wait;
      }
      if frameLen > MAX_FRAME_LENGTH || frameLen < MIN_FRAME_LENGTH {
        return Slide;
      }
      if totalAvailable - index < frameLen {
        expectedLen := index + frameLen;
        return Wait;
      }
      var crc := CrcAt(data, index, index + frameLen - 2);
      var valid := TrailerMatches(data, index, frameLen, crc);
      if !valid {
        return Slide;
      }
      expectedLen := PREDICT_NEED_MORE;
      return Accept(frameLen);
    }

    method TrailerMatches(data: seq<byte>, index: nat, frameLen: nat, crc: bv16) returns (valid: bool)
      requires residualLen <= residual.Length
      requires MIN_FRAME_LENGTH <= frameLen && index + frameLen <= residualLen + |data|
      requires crc == Crc((Held() + data)[index..index + frameLen - 2])
      ensures valid == CrcValid((Held() + data)[index..][..frameLen])
    {
      ghost var frame := (Held() + data)[index..][..frameLen];
      assert frame[..frameLen - 2] == (Held() + data)[index..index + frameLen - 2];
      valid := Trailer(Bits(ByteAt(data, index + frameLen - 2)), Bits(ByteAt(data, index + frameLen - 1))) == crc;
    }
  }
}
