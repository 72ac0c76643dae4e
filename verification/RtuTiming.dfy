/** The RTU receiver with the t3.5 inter-frame silence enabled. */
module RtuTiming {
  import opened Bytes
  import opened RtuFraming
  import opened RtuDecoder

  /** A chunk that arrives at `now`; `afterSilence` when the t3.5 deadline fired just before it. */
  datatype Arrival = Arrival(now: int, afterSilence: bool, data: seq<byte>)

  datatype Line = Line(events: seq<Event>, held: seq<byte>)

  /** The silence before the last arrival separates it from the one before. */
  predicate Separated(t35: int, arrivals: seq<Arrival>)
    requires arrivals != []
  {
    var n := |arrivals| - 1;
    n == 0 || arrivals[n].afterSilence || arrivals[n].now - arrivals[n - 1].now > t35
  }

  /** What a held remainder becomes when `data` arrives; a separating silence discards it first. */
  function Next(role: Role, line: Line, separated: bool, data: seq<byte>): Line {
    var base := if separated then [] else line.held;
    var cut := if separated && line.held != [] then [SilenceError] else [];
    var all := Decoded(role, base, data);
    Line(line.events + cut + FrameEvents(all.frames), all.rest)
  }

  function Timed(role: Role, t35: int, arrivals: seq<Arrival>): Line {
    if arrivals == [] then Line([], [])
    else
      var n := |arrivals| - 1;
      Next(role, Timed(role, t35, arrivals[..n]), Separated(t35, arrivals), arrivals[n].data)
  }

  /** One arrival, preceded by the deadline if it fires. */
  method Arrive(layer: RtuProtocolLayer, arrival: Arrival, ghost separated: bool)
    requires layer.Valid() && layer.t35Time > 0
    requires layer.timerArmed ==>
               separated == (arrival.afterSilence || arrival.now - layer.lastChunkTime > layer.t35Time)
    modifies layer, layer.residual
    ensures layer.Valid()
    ensures var line := Next(layer.role, Line(old(layer.events), old(layer.Held())), separated, arrival.data);
            layer.events == line.events && layer.Held() == line.held
    ensures layer.timerArmed ==> layer.lastChunkTime == arrival.now
  {
    hide Decoded, FrameEvents;
    if arrival.afterSilence && layer.timerArmed {
      layer.OnSilence();
    }
    layer.Decode(arrival.data, arrival.now);
  }

  /** A receiver with timing enabled behaves as `Timed`, deadline firings included. */
  method ReceiveTimed(layer: RtuProtocolLayer, arrivals: seq<Arrival>)
    requires layer.Valid() && layer.t35Time > 0 && layer.Held() == [] && layer.events == []
    modifies layer, layer.residual
    ensures layer.Valid()
    ensures var line := Timed(layer.role, layer.t35Time, arrivals);
            layer.events == line.events && layer.Held() == line.held
  {
    hide Next;
    for i := 0 to |arrivals|
      invariant layer.Valid()
      invariant Line(layer.events, layer.Held()) == Timed(layer.role, layer.t35Time, arrivals[..i])
      invariant layer.timerArmed ==> i > 0 && layer.lastChunkTime == arrivals[i - 1].now
    {
      ghost var sofar := arrivals[..i + 1];
      assert sofar[..i] == arrivals[..i];
      Arrive(layer, arrivals[i], Separated(layer.t35Time, sofar));
    }
    assert arrivals[..|arrivals|] == arrivals;
  }

  /** The bytes received since the last separating silence. */
  function Burst(t35: int, arrivals: seq<Arrival>): seq<byte> {
    if arrivals == [] then []
    else
      var n := |arrivals| - 1;
      (if Separated(t35, arrivals) then [] else Burst(t35, arrivals[..n])) + arrivals[n].data
  }

  function Sent(arrivals: seq<Arrival>): seq<byte> {
    if arrivals == [] then [] else Sent(arrivals[..|arrivals| - 1]) + arrivals[|arrivals| - 1].data
  }

  /** Arrival `k` comes after a gap of more than t3.5, or after the deadline has fired, or first of all. */
  predicate AfterGap(t35: int, arrivals: seq<Arrival>, k: nat)
    requires k < |arrivals|
  {
    k == 0 || arrivals[k].afterSilence || arrivals[k].now - arrivals[k - 1].now > t35
  }

  /** A burst is what arrived from the last such arrival on. */
  lemma {:induction false} BurstStartsAtGap(t35: int, arrivals: seq<Arrival>, i: nat)
    requires i < |arrivals| && AfterGap(t35, arrivals, i)
    requires forall k :: i < k < |arrivals| ==> !AfterGap(t35, arrivals, k)
    ensures Burst(t35, arrivals) == Sent(arrivals[i..])
  {
    hide AfterGap, Separated, Burst, Sent;
    var n := |arrivals| - 1;
    var before, last := arrivals[..n], arrivals[n];
    LastGap(t35, arrivals);
    BurstUnfolds(t35, arrivals);
    SentSnoc(before[i..], last);
    assert arrivals[i..] == before[i..] + [last];
    if i == n {
      NothingSent();
    } else {
      BurstStartsAtGap(t35, before, i);
    }
  }

  lemma LastGap(t35: int, arrivals: seq<Arrival>)
    requires arrivals != []
    ensures var n := |arrivals| - 1;
            && (Separated(t35, arrivals) <==> AfterGap(t35, arrivals, n))
            && (forall k :: 0 <= k < n ==> AfterGap(t35, arrivals[..n], k) == AfterGap(t35, arrivals, k))
  {
  }

  lemma BurstUnfolds(t35: int, arrivals: seq<Arrival>)
    requires arrivals != []
    ensures var n := |arrivals| - 1;
            Burst(t35, arrivals) == (if Separated(t35, arrivals) then [] else Burst(t35, arrivals[..n])) + arrivals[n].data
  {
    hide Separated;
  }

  lemma SentSnoc(arrivals: seq<Arrival>, last: Arrival)
    ensures Sent(arrivals + [last]) == Sent(arrivals) + last.data
  {
    assert (arrivals + [last])[..|arrivals|] == arrivals;
  }

  lemma NothingSent()
    ensures Sent([]) == []
  {
  }

  /** The frame consists of consecutive bytes of `s`. */
  predicate Piece(f: Frame, s: seq<byte>) {
    exists i, j :: 0 <= i && i + MIN_FRAME_LENGTH <= j <= |s| && f == FrameOf(s[i..j])
  }

  predicate Suffix(t: seq<byte>, s: seq<byte>) {
    |t| <= |s| && s[|s| - |t|..] == t
  }

  lemma PieceOfSuffix(f: Frame, t: seq<byte>, s: seq<byte>)
    requires Piece(f, t) && Suffix(t, s)
    ensures Piece(f, s)
  {
    hide FrameOf;
    var i, j :| 0 <= i && i + MIN_FRAME_LENGTH <= j <= |t| && f == FrameOf(t[i..j]);
    var d := |s| - |t|;
    assert s[d..][i..j] == s[d + i..d + j];
  }

  lemma {:induction false} ScannedFramesArePieces(role: Role, s: seq<byte>)
    ensures forall f :: f in Scan(role, s).frames ==> Piece(f, s)
    ensures Suffix(Scan(role, s).rest, s)
    decreases |s|
  {
    hide Try, FrameOf;
    if MIN_FRAME_LENGTH <= |s| && !Try(role, s).Wait? {
      var n := if Try(role, s).Slide? then 1 else Try(role, s).len;
      ScannedFramesArePieces(role, s[n..]);
      assert Suffix(s[n..], s);
      forall f | f in Scan(role, s).frames ensures Piece(f, s) {
        if f in Scan(role, s[n..]).frames {
          PieceOfSuffix(f, s[n..], s);
        } else {
          assert f == FrameOf(s[0..n]);
        }
      }
    }
  }

  lemma DecodedFramesArePieces(role: Role, held: seq<byte>, data: seq<byte>)
    ensures forall f :: f in Decoded(role, held, data).frames ==> Piece(f, held + data)
    ensures Suffix(Decoded(role, held, data).rest, held + data)
  {
    hide FastHit, FrameOf, Scan;
    ScannedFramesArePieces(role, held + data);
    if held == [] && Oversized(role, data) {
      assert (held + data)[0..|data|] == data;
    }
  }

  lemma SuffixExtends(t: seq<byte>, s: seq<byte>, data: seq<byte>)
    requires Suffix(t, s)
    ensures Suffix(t + data, s + data)
  {
    var d := |s| - |t|;
    assert (s + data)[d..] == s[d..] + data;
  }

  lemma SuffixOfSuffix(r: seq<byte>, t: seq<byte>, s: seq<byte>)
    requires Suffix(r, t) && Suffix(t, s)
    ensures Suffix(r, s)
  {
    assert s[|s| - |r|..] == s[|s| - |t|..][|t| - |r|..];
  }

  /** Bytes still combined with the last arrival, that arrival included. */
  function Window(role: Role, t35: int, arrivals: seq<Arrival>): seq<byte>
    requires arrivals != []
  {
    var n := |arrivals| - 1;
    (if Separated(t35, arrivals) then [] else Timed(role, t35, arrivals[..n]).held) + arrivals[n].data
  }

  /** Held bytes never reach back across a silence longer than t3.5. */
  lemma {:induction false} HeldIsRecent(role: Role, t35: int, arrivals: seq<Arrival>)
    ensures Suffix(Timed(role, t35, arrivals).held, Burst(t35, arrivals))
    ensures arrivals != [] ==> Suffix(Window(role, t35, arrivals), Burst(t35, arrivals))
    decreases |arrivals|
  {
    hide Decoded, Suffix, Separated;
    if arrivals == [] {
      assert Suffix([], []) by { EmptySuffix([]); }
    } else {
      var n := |arrivals| - 1;
      var before, data := arrivals[..n], arrivals[n].data;
      HeldIsRecent(role, t35, before);
      EmptySuffix([]);
      var base := if Separated(t35, arrivals) then [] else Timed(role, t35, before).held;
      SuffixExtends(base, if Separated(t35, arrivals) then [] else Burst(t35, before), data);
      DecodedFramesArePieces(role, base, data);
      SuffixOfSuffix(Timed(role, t35, arrivals).held, base + data, Burst(t35, arrivals));
    }
  }

  lemma EmptySuffix(s: seq<byte>)
    ensures Suffix([], s)
  {
  }

  /** Every frame an arrival completes lies within the burst of that arrival: no frame spans a silence. */
  lemma NoFrameSpansASilence(role: Role, t35: int, arrivals: seq<Arrival>)
    requires arrivals != []
    ensures var before := Timed(role, t35, arrivals[..|arrivals| - 1]);
            forall f :: FrameEvent(f) in Timed(role, t35, arrivals).events[|before.events|..]
              ==> Piece(f, Burst(t35, arrivals))
  {
    hide Decoded, Burst, Piece, Suffix, Separated;
    var n := |arrivals| - 1;
    var base := if Separated(t35, arrivals) then [] else Timed(role, t35, arrivals[..n]).held;
    HeldIsRecent(role, t35, arrivals);
    DecodedFramesArePieces(role, base, arrivals[n].data);
    forall f | f in Decoded(role, base, arrivals[n].data).frames ensures Piece(f, Burst(t35, arrivals)) {
      PieceOfSuffix(f, Window(role, t35, arrivals), Burst(t35, arrivals));
    }
  }
}
