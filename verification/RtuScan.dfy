/** What the leftmost scan is, said without the scan: where its frames lie in the stream and why nothing else is one. */
module RtuScan {
  import opened Bytes
  import opened Crc16
  import opened RtuFraming
  import opened RtuDecoder
  import opened RtuRuns

  // ---------- Accepted bytes are an encoded legal frame ----------

  /** Bytes with a valid trailer are the encoding of the frame read from them. */
  lemma ValidIsEncoded(raw: seq<byte>)
    requires MIN_FRAME_LENGTH <= |raw| && CrcValid(raw)
    ensures Encode(FrameOf(raw)) == raw
  {
    hide Crc, Bits, ByteOf, LowHalf, HighHalf, Trailer;
    var n := |raw| - 2;
    var body := [raw[0], raw[1]] + raw[2..n];
    assert body == raw[..n];
    var crc := Crc(body);
    TrailerTellsCrc(crc, Bits(raw[n]), Bits(raw[n + 1]));
    ByteOfBits(raw[n]);
    ByteOfBits(raw[n + 1]);
  }

  lemma {:induction false} ObjectsLengthWithin(s: seq<byte>, m: nat, cursor: nat, n: nat)
    requires m <= |s| && ObjectsLength(s, cursor, n) != PREDICT_NEED_MORE && ObjectsLength(s, cursor, n) <= m
    ensures cursor + 2 <= ObjectsLength(s, cursor, n)
    ensures ObjectsLength(s[..m], cursor, n) == ObjectsLength(s, cursor, n)
    decreases n
  {
    if n > 0 {
      ObjectsLengthWithin(s, m, cursor + 2 + s[cursor + 1], n - 1);
    }
  }

  /** A predicted length does not depend on bytes beyond it. */
  lemma PredictWithin(role: Role, s: seq<byte>)
    requires MIN_FRAME_LENGTH <= |s| && MIN_FRAME_LENGTH <= Predict(role, s) <= |s|
    ensures Predict(role, s[..Predict(role, s)]) == Predict(role, s)
  {
    var n := Predict(role, s);
    if role.Master? && s[1] == 43 && 8 <= |s| && s[2] == MEI_READ_DEVICE_ID {
      ObjectsLengthWithin(s, n, 8, s[7]);
    }
  }

  /** The scan accepts `n` bytes exactly when they are the encoding of a legal frame. */
  lemma AcceptsIffEncoded(role: Role, s: seq<byte>, n: nat)
    requires MIN_FRAME_LENGTH <= |s| && MIN_FRAME_LENGTH <= n <= |s|
    ensures Try(role, s) == Accept(n) <==> Legal(role, FrameOf(s[..n])) && Encode(FrameOf(s[..n])) == s[..n]
  {
    hide Encode, CrcValid, Legal, Predict, FrameOf;
    var f := FrameOf(s[..n]);
    FrameOfLength(s[..n]);
    if Try(role, s) == Accept(n) {
      PredictWithin(role, s);
      ValidIsEncoded(s[..n]);
      PredictedIffLegal(role, f);
    }
    if Legal(role, f) && Encode(f) == s[..n] {
      AcceptedWhole(role, f);
      TryStable(role, s[..n], s[n..]);
      assert s[..n] + s[n..] == s;
    }
  }

  // ---------- Where frames start ----------

  /** Some legal frame's encoding stands at the head of `s`. */
  ghost predicate StartsFrame(role: Role, s: seq<byte>) {
    exists f :: Legal(role, f) && Encode(f) <= s
  }

  lemma StartsIffAccepted(role: Role, s: seq<byte>)
    ensures StartsFrame(role, s) <==> MIN_FRAME_LENGTH <= |s| && Try(role, s).Accept?
  {
    hide Encode, CrcValid, Legal, Predict, Try, FrameOf;
    if StartsFrame(role, s) {
      var f :| Legal(role, f) && Encode(f) <= s;
      EncodeShape(f);
      assert s[..|Encode(f)|] == Encode(f);
      AcceptsIffEncoded(role, s, |Encode(f)|);
    }
    if MIN_FRAME_LENGTH <= |s| && Try(role, s).Accept? {
      var n := Try(role, s).len;
      AcceptsIffEncoded(role, s, n);
      assert Encode(FrameOf(s[..n])) <= s;
    }
  }

  /** A byte is given up only when no continuation would make it the start of a frame. */
  lemma SlidesOnlyPastNoFrame(role: Role, s: seq<byte>, t: seq<byte>)
    requires MIN_FRAME_LENGTH <= |s| && Try(role, s).Slide?
    ensures !StartsFrame(role, s + t)
  {
    hide Try;
    TryStable(role, s, t);
    StartsIffAccepted(role, s + t);
  }

  // ---------- The leftmost reading of a stream ----------

  /** `frames[i]` stands at offset `at[i]`, one after the other, within the first `end` bytes. */
  predicate Placed(s: seq<byte>, frames: seq<Frame>, at: seq<nat>, end: nat) {
    && |at| == |frames| && end <= |s|
    && (forall i :: 0 <= i < |at| ==> at[i] + |Encode(frames[i])| <= end)
    && (forall i :: 0 <= i < |at| ==> s[at[i]..at[i] + |Encode(frames[i])|] == Encode(frames[i]))
    && (forall i, j :: 0 <= i < j < |at| ==> at[i] + |Encode(frames[i])| <= at[j])
  }

  predicate Inside(frames: seq<Frame>, at: seq<nat>, o: nat)
    requires |at| == |frames|
  {
    exists i :: 0 <= i < |at| && at[i] <= o < at[i] + |Encode(frames[i])|
  }

  /** No frame starts at an offset before `end` that is not inside one of the frames. */
  ghost predicate NoneMissed(role: Role, s: seq<byte>, frames: seq<Frame>, at: seq<nat>, end: nat)
    requires |at| == |frames| && end <= |s|
  {
    forall o :: 0 <= o < end && !Inside(frames, at, o) ==> !StartsFrame(role, s[o..])
  }

  function Shifted(at: seq<nat>, n: nat): (r: seq<nat>)
    ensures |r| == |at| && forall i :: 0 <= i < |r| ==> r[i] == at[i] + n
  {
    seq(|at|, i requires 0 <= i < |at| => at[i] + n)
  }

  lemma InsideShifts(frames: seq<Frame>, at: seq<nat>, n: nat, o: nat)
    requires |at| == |frames| && n <= o
    ensures Inside(frames, Shifted(at, n), o) <==> Inside(frames, at, o - n)
  {
    hide Encode;
    if Inside(frames, at, o - n) {
      var i :| 0 <= i < |at| && at[i] <= o - n < at[i] + |Encode(frames[i])|;
      assert Shifted(at, n)[i] <= o < Shifted(at, n)[i] + |Encode(frames[i])|;
    }
  }

  lemma InsideOneMore(f: Frame, frames: seq<Frame>, at: seq<nat>, o: nat)
    requires |at| == |frames|
    ensures Inside([f] + frames, [0] + at, o) <==> o < |Encode(f)| || Inside(frames, at, o)
  {
    hide Encode;
    var all, places := [f] + frames, [0] + at;
    if o < |Encode(f)| {
      assert places[0] <= o < places[0] + |Encode(all[0])|;
    }
    if Inside(frames, at, o) {
      var i :| 0 <= i < |at| && at[i] <= o < at[i] + |Encode(frames[i])|;
      assert places[i + 1] <= o < places[i + 1] + |Encode(all[i + 1])|;
    }
  }

  lemma ShiftPlaced(s: seq<byte>, n: nat, frames: seq<Frame>, at: seq<nat>, end: nat)
    requires n <= |s| && Placed(s[n..], frames, at, end)
    ensures Placed(s, frames, Shifted(at, n), n + end)
  {
    hide Encode;
    forall i | 0 <= i < |at| ensures s[at[i] + n..at[i] + n + |Encode(frames[i])|] == Encode(frames[i]) {
      PartOfSuffix(s, n, at[i], at[i] + |Encode(frames[i])|);
    }
  }

  lemma PartOfSuffix(s: seq<byte>, n: nat, i: nat, j: nat)
    requires n <= |s| && i <= j <= |s| - n
    ensures s[n..][i..j] == s[i + n..j + n]
  {
  }

  lemma ShiftNoneMissed(role: Role, s: seq<byte>, n: nat, frames: seq<Frame>, at: seq<nat>, end: nat)
    requires n <= |s| && |at| == |frames| && end <= |s| - n && NoneMissed(role, s[n..], frames, at, end)
    ensures forall o :: n <= o < n + end && !Inside(frames, Shifted(at, n), o) ==> !StartsFrame(role, s[o..])
  {
    hide Encode, StartsFrame, Inside;
    forall o | n <= o < n + end && !Inside(frames, Shifted(at, n), o) ensures !StartsFrame(role, s[o..]) {
      InsideShifts(frames, at, n, o);
      assert s[n..][o - n..] == s[o..];
    }
  }

  lemma FirstPlaced(s: seq<byte>, f: Frame, frames: seq<Frame>, at: seq<nat>, end: nat)
    requires var n := |Encode(f)|; n <= |s| && s[..n] == Encode(f) && Placed(s[n..], frames, at, end)
    ensures Placed(s, [f] + frames, [0] + Shifted(at, |Encode(f)|), |Encode(f)| + end)
  {
    hide Encode;
    var n := |Encode(f)|;
    ShiftPlaced(s, n, frames, at, end);
    PlacedOneMore(s, f, frames, Shifted(at, n), n + end);
  }

  lemma PlacedOneMore(s: seq<byte>, f: Frame, frames: seq<Frame>, at: seq<nat>, end: nat)
    requires Placed(s, frames, at, end) && |Encode(f)| <= end && s[..|Encode(f)|] == Encode(f)
    requires forall i :: 0 <= i < |at| ==> |Encode(f)| <= at[i]
    ensures Placed(s, [f] + frames, [0] + at, end)
  {
    hide Encode;
  }

  /**
   * Both roles, every stream: the frames of the scan are legal, each is there byte for byte with its
   * checksum, they do not overlap, no frame in between was missed, and nothing else precedes the rest.
   */
  lemma {:induction false} ScanIsLeftmost(role: Role, s: seq<byte>) returns (at: seq<nat>)
    ensures var all := Scan(role, s);
            var end := |s| - |all.rest|;
            && |all.rest| <= |s| && s[end..] == all.rest && |at| == |all.frames|
            && AllLegal(role, all.frames)
            && Placed(s, all.frames, at, end)
            && NoneMissed(role, s, all.frames, at, end)
            && !StartsFrame(role, all.rest)
    decreases |s|
  {
    hide Encode, CrcValid, Legal, Predict, Try, FrameOf, StartsFrame, Placed, NoneMissed, Scan;
    StartsIffAccepted(role, s);
    if |s| < MIN_FRAME_LENGTH || Try(role, s).Wait? {
      at := [];
      ScanWaits(role, s);
      return;
    }
    ScanFromStart(role, s);
    if Try(role, s).Slide? {
      var inner := ScanIsLeftmost(role, s[1..]);
      at := Shifted(inner, 1);
      SlidePlaced(role, s, Scan(role, s).frames, inner, |s| - 1 - |Scan(role, s).rest|);
    } else {
      var n := Try(role, s).len;
      AcceptsIffEncoded(role, s, n);
      var inner := ScanIsLeftmost(role, s[n..]);
      at := [0] + Shifted(inner, n);
      var tail := Scan(role, s[n..]);
      FirstPlaced(s, FrameOf(s[..n]), tail.frames, inner, |s| - n - |tail.rest|);
      AcceptMissesNone(role, s, FrameOf(s[..n]), tail.frames, inner, |s| - n - |tail.rest|);
    }
  }

  lemma ScanWaits(role: Role, s: seq<byte>)
    requires |s| < MIN_FRAME_LENGTH || Try(role, s).Wait?
    ensures Scan(role, s) == Scanned([], s) && s[0..] == s
    ensures Placed(s, [], [], 0) && NoneMissed(role, s, [], [], 0)
  {
    hide Try, StartsFrame;
  }

  lemma SlidePlaced(role: Role, s: seq<byte>, frames: seq<Frame>, at: seq<nat>, end: nat)
    requires s != [] && Placed(s[1..], frames, at, end) && NoneMissed(role, s[1..], frames, at, end)
    requires !StartsFrame(role, s)
    ensures Placed(s, frames, Shifted(at, 1), 1 + end) && NoneMissed(role, s, frames, Shifted(at, 1), 1 + end)
  {
    hide StartsFrame, Encode, Inside;
    ShiftPlaced(s, 1, frames, at, end);
    ShiftNoneMissed(role, s, 1, frames, at, end);
    assert s[0..] == s;
  }

  lemma AcceptMissesNone(role: Role, s: seq<byte>, f: Frame, frames: seq<Frame>, at: seq<nat>, end: nat)
    requires var n := |Encode(f)|;
             n <= |s| && |at| == |frames| && end <= |s| - n && NoneMissed(role, s[n..], frames, at, end)
    ensures NoneMissed(role, s, [f] + frames, [0] + Shifted(at, |Encode(f)|), |Encode(f)| + end)
  {
    hide StartsFrame, Encode, Inside;
    var n := |Encode(f)|;
    var all, places := [f] + frames, [0] + Shifted(at, n);
    ShiftNoneMissed(role, s, n, frames, at, end);
    forall o | 0 <= o < n + end && !Inside(all, places, o) ensures !StartsFrame(role, s[o..]) {
      InsideOneMore(f, frames, Shifted(at, n), o);
    }
  }

  /** These frames at these offsets are a leftmost reading of the first `end` bytes. */
  ghost predicate Leftmost(role: Role, s: seq<byte>, frames: seq<Frame>, at: seq<nat>, end: nat) {
    AllLegal(role, frames) && Placed(s, frames, at, end) && NoneMissed(role, s, frames, at, end)
  }

  /** Frame `k` of one reading starts where the other reading has a frame too. */
  lemma StartIsInside(role: Role, s: seq<byte>, fs: seq<Frame>, at: seq<nat>, gs: seq<Frame>, bt: seq<nat>, end: nat, k: nat)
    requires Leftmost(role, s, fs, at, end) && Leftmost(role, s, gs, bt, end) && k < |fs|
    ensures |bt| == |gs| && Inside(gs, bt, at[k])
  {
    hide Encode, Legal, Inside;
    EncodeShape(fs[k]);
    assert s[at[k]..at[k] + |Encode(fs[k])|] == s[at[k]..][..|Encode(fs[k])|];
    assert Encode(fs[k]) <= s[at[k]..] && fs[k] in fs;
    assert StartsFrame(role, s[at[k]..]);
  }

  /** Two legal frames cannot stand at one offset. */
  lemma OneFrameAt(role: Role, s: seq<byte>, f: Frame, g: Frame)
    requires Legal(role, f) && Legal(role, g) && Encode(f) <= s && Encode(g) <= s
    ensures f == g
  {
    hide Encode, Legal, Try, FrameOf;
    EncodeShape(f);
    EncodeShape(g);
    assert s[..|Encode(f)|] == Encode(f) && s[..|Encode(g)|] == Encode(g);
    AcceptsIffEncoded(role, s, |Encode(f)|);
    AcceptsIffEncoded(role, s, |Encode(g)|);
  }

  lemma {:induction false} ReadingsAgree(role: Role, s: seq<byte>, fs: seq<Frame>, at: seq<nat>, gs: seq<Frame>, bt: seq<nat>,
                                         end: nat, k: nat)
    requires Leftmost(role, s, fs, at, end) && Leftmost(role, s, gs, bt, end)
    requires |at| == |fs| && |bt| == |gs| && k <= |fs|
    ensures k <= |gs| && fs[..k] == gs[..k] && at[..k] == bt[..k]
  {
    hide Leftmost, Encode;
    if k > 0 {
      var n := k - 1;
      ReadingsAgree(role, s, fs, at, gs, bt, end, n);
      SameFrame(role, s, fs, at, gs, bt, end, n);
      assert fs[..k] == fs[..n] + [fs[n]] && gs[..k] == gs[..n] + [gs[n]];
      assert at[..k] == at[..n] + [at[n]] && bt[..k] == bt[..n] + [bt[n]];
    }
  }

  lemma SameFrame(role: Role, s: seq<byte>, fs: seq<Frame>, at: seq<nat>, gs: seq<Frame>, bt: seq<nat>, end: nat, n: nat)
    requires Leftmost(role, s, fs, at, end) && Leftmost(role, s, gs, bt, end)
    requires |at| == |fs| && |bt| == |gs| && n < |fs| && n <= |gs| && fs[..n] == gs[..n] && at[..n] == bt[..n]
    ensures n < |gs| && fs[n] == gs[n] && at[n] == bt[n]
  {
    hide Encode, Legal, NoneMissed, StartsFrame;
    StartIsInside(role, s, fs, at, gs, bt, end, n);
    var i :| 0 <= i < |gs| && bt[i] <= at[n] < bt[i] + |Encode(gs[i])|;
    EarlierEndsBefore(s, fs, at, gs, bt, end, n, i);
    StartIsInside(role, s, gs, bt, fs, at, end, n);
    var j :| 0 <= j < |fs| && at[j] <= bt[n] < at[j] + |Encode(fs[j])|;
    SameStart(s, fs, at, gs, bt, end, n, i, j);
    LegalAt(role, s, fs, at, end, n);
    LegalAt(role, s, gs, bt, end, n);
    OneFrameAt(role, s[at[n]..], fs[n], gs[n]);
  }

  lemma LegalAt(role: Role, s: seq<byte>, fs: seq<Frame>, at: seq<nat>, end: nat, n: nat)
    requires Leftmost(role, s, fs, at, end) && n < |fs|
    ensures Legal(role, fs[n]) && at[n] <= |s| && Encode(fs[n]) <= s[at[n]..]
  {
    hide Encode, Legal, NoneMissed;
    assert s[at[n]..at[n] + |Encode(fs[n])|] == s[at[n]..][..|Encode(fs[n])|];
  }

  lemma SameStart(s: seq<byte>, fs: seq<Frame>, at: seq<nat>, gs: seq<Frame>, bt: seq<nat>, end: nat, n: nat, i: nat, j: nat)
    requires Placed(s, fs, at, end) && Placed(s, gs, bt, end)
    requires n < |fs| && n <= i < |gs| && j < |fs|
    requires at[..n] == bt[..n] && fs[..n] == gs[..n]
    requires bt[i] <= at[n] && at[j] <= bt[n] < at[j] + |Encode(fs[j])|
    ensures at[n] == bt[n]
  {
    hide Encode;
    EarlierEndsBefore(s, gs, bt, fs, at, end, n, j);
    assert bt[n] <= bt[i] && at[n] <= at[j];
  }

  /** While the readings agree, what one has before frame `n` ends before the other's frame `n` starts. */
  lemma EarlierEndsBefore(s: seq<byte>, fs: seq<Frame>, at: seq<nat>, gs: seq<Frame>, bt: seq<nat>, end: nat, n: nat, i: nat)
    requires Placed(s, fs, at, end) && Placed(s, gs, bt, end)
    requires n < |fs| && n <= |gs| && i < |gs|
    requires at[..n] == bt[..n] && fs[..n] == gs[..n]
    ensures i < n ==> bt[i] + |Encode(gs[i])| <= at[n]
  {
    hide Encode;
    if i < n {
      assert gs[i] == gs[..n][i] == fs[i] && bt[i] == bt[..n][i] == at[i];
    }
  }

  /** The frames of the scan are the only leftmost reading of what it has decided. */
  lemma LeftmostIsUnique(role: Role, s: seq<byte>, frames: seq<Frame>, at: seq<nat>)
    requires |Scan(role, s).rest| <= |s| && Leftmost(role, s, frames, at, |s| - |Scan(role, s).rest|)
    ensures frames == Scan(role, s).frames
  {
    hide Encode, Legal, Scan, NoneMissed, StartsFrame;
    var bt := ScanIsLeftmost(role, s);
    var end, gs := |s| - |Scan(role, s).rest|, Scan(role, s).frames;
    ReadingsAgree(role, s, frames, at, gs, bt, end, |frames|);
    ReadingsAgree(role, s, gs, bt, frames, at, end, |gs|);
    assert frames[..|frames|] == frames && gs[..|gs|] == gs;
  }

  // ---------- What a receiver reports ----------

  /** No frame is reported that was not sent with a valid checksum, whatever the line did. */
  lemma ReportedWasThere(role: Role, s: seq<byte>, f: Frame) returns (i: nat)
    requires f in Scan(role, s).frames
    ensures Legal(role, f) && i + |Encode(f)| <= |s| && s[i..i + |Encode(f)|] == Encode(f)
  {
    hide Encode, Legal, Scan, StartsFrame, NoneMissed;
    var at := ScanIsLeftmost(role, s);
    var k :| 0 <= k < |Scan(role, s).frames| && Scan(role, s).frames[k] == f;
    i := at[k];
  }

  /** Damage within two adjacent bytes of a frame: the bytes in its place are no frame's encoding. */
  lemma DamagedIsNoFrame(role: Role, f: Frame, damaged: seq<byte>, k: nat, t: seq<byte>)
    requires |damaged| == |Encode(f)| && k + 1 < |damaged| && damaged != Encode(f)
    requires forall i :: 0 <= i < |damaged| && i != k && i != k + 1 ==> damaged[i] == Encode(f)[i]
    ensures forall g :: Encode(g) != damaged
    ensures MIN_FRAME_LENGTH <= |damaged| && Try(role, damaged + t) != Accept(|damaged|)
  {
    hide Encode, CrcValid, Try, Legal;
    EncodeShape(f);
    AdjacentDamageIsDetected(Encode(f), damaged, k);
    forall g ensures Encode(g) != damaged {
      EncodeShape(g);
    }
    AcceptsIffEncoded(role, damaged + t, |damaged|);
    assert (damaged + t)[..|damaged|] == damaged;
  }

  // ---------- Over a whole run ----------

  predicate StandsAt(f: Frame, s: seq<byte>, i: nat) {
    i + |Encode(f)| <= |s| && s[i..i + |Encode(f)|] == Encode(f)
  }

  /** The encoding of `f` stands somewhere in `s`. */
  ghost predicate Stands(f: Frame, s: seq<byte>) {
    exists i :: StandsAt(f, s, i)
  }

  lemma StandsWithin(f: Frame, before: seq<byte>, s: seq<byte>, t: seq<byte>)
    requires Stands(f, s)
    ensures Stands(f, before + s + t)
  {
    hide Encode;
    var i: nat :| StandsAt(f, s, i);
    var all, j := before + s + t, |before| + i;
    assert all[j..j + |Encode(f)|] == s[i..i + |Encode(f)|];
    assert StandsAt(f, all, j);
  }

  /** One chunk, by either path: every frame reported stands in the bytes at hand, and a suffix of them is held. */
  lemma DecodedStands(role: Role, held: seq<byte>, data: seq<byte>) returns (gone: seq<byte>)
    ensures forall f :: f in Decoded(role, held, data).frames ==> Stands(f, held + data)
    ensures held + data == gone + Decoded(role, held, data).rest
  {
    hide Encode, Scan, FrameOf, Predict, CrcValid, AllLegal, Placed, NoneMissed, StartsFrame;
    var s := held + data;
    var at := ScanIsLeftmost(role, s);
    gone := s[..|s| - |Decoded(role, held, data).rest|];
    if held == [] && Oversized(role, data) {
      ValidIsEncoded(data);
      assert s == data == s[0..0 + |data|];
      assert StandsAt(FrameOf(data), s, 0);
    } else {
      forall f | f in Decoded(role, held, data).frames ensures Stands(f, s) {
        var i := ReportedWasThere(role, s, f);
        assert StandsAt(f, s, i);
      }
    }
  }

  /** Over a whole run, however it is cut: every frame reported was received byte for byte, checksum included. */
  lemma {:induction false} RunStands(role: Role, held: seq<byte>, chunks: seq<seq<byte>>)
    ensures forall f :: f in Run(role, held, chunks).frames ==> Stands(f, held + Flatten(chunks))
    decreases |chunks|
  {
    hide Decoded, Stands;
    if chunks != [] {
      var first, later := Decoded(role, held, chunks[0]), Flatten(chunks[1..]);
      var gone := DecodedStands(role, held, chunks[0]);
      RunStands(role, first.rest, chunks[1..]);
      hide Flatten, Run;
      FirstChunk(role, held, chunks);
      var all := held + (chunks[0] + later);
      Regrouped(held, chunks[0], later, gone, first.rest);
      forall f | f in Run(role, held, chunks).frames ensures Stands(f, all) {
        if f in first.frames {
          StandsWithin(f, [], held + chunks[0], later);
        } else {
          StandsWithin(f, gone, first.rest + later, []);
        }
      }
    }
  }

  lemma FirstChunk(role: Role, held: seq<byte>, chunks: seq<seq<byte>>)
    requires chunks != []
    ensures Flatten(chunks) == chunks[0] + Flatten(chunks[1..])
    ensures var first := Decoded(role, held, chunks[0]);
            Run(role, held, chunks).frames == first.frames + Run(role, first.rest, chunks[1..]).frames
  {
    hide Decoded;
  }

  lemma Regrouped(held: seq<byte>, data: seq<byte>, later: seq<byte>, gone: seq<byte>, rest: seq<byte>)
    requires held + data == gone + rest
    ensures held + (data + later) == [] + (held + data) + later == gone + (rest + later) + []
  {
    assert held + (data + later) == (held + data) + later;
    assert (gone + rest) + later == gone + (rest + later);
  }
}
