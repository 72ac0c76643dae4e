/** TcpProtocolLayer: the flat residual buffer and its chunk-by-chunk decoder. */
module TcpDecoder {
  import opened Bytes
  import opened TcpFraming

  class TcpProtocolLayer {
    const residual: array<byte>
    var residualLen: nat
    var events: seq<Event>

    /** The buffer holds a proper prefix of one frame, so its 260 bytes always suffice. */
    ghost predicate Valid()
      reads this, residual
    {
      && residual.Length == MAX_FRAME_LENGTH
      && residualLen <= MAX_FRAME_LENGTH
      && Head(Held()).Incomplete?
    }

    ghost function Held(): seq<byte>
      requires residualLen <= residual.Length
      reads this, residual
    {
      residual[..residualLen]
    }

    constructor ()
      ensures Valid() && fresh(residual) && Held() == [] && events == []
    {
      residual := new byte[MAX_FRAME_LENGTH];
      residualLen, events := 0, [];
    }

    method Flush()
      requires Valid()
      modifies this
      ensures Valid() && Held() == [] && events == old(events)
    {
      residualLen := 0;
    }

    method Decode(data: seq<byte>)
      requires Valid()
      modifies this, residual
      ensures Valid()
      ensures var p := Parse(old(Held()) + data);
              && events == old(events) + Events(p)
              && Held() == if p.outcome.Rest? then p.outcome.bytes else []
    {
      hide FrameOf, Parse, Head;
      ghost var s := Held() + data;
      RestIsIncomplete(s);
      assert s[0..] == s;
      ParseFrom(s, 0);
      if residualLen == 0 {
        assert s == data;
        var hit := TakeWhole(data);
        if hit {
          WholeFrame(data);
          return;
        }
      }
      var dataIndex := 0;
      if residualLen > 0 {
        var done;
        done, dataIndex := CompleteHeld(data);
        if done {
          return;
        }
      }
      Sweep(data, dataIndex);
    }

    /** Fast path: nothing is held and the chunk is exactly one frame. */
    method TakeWhole(data: seq<byte>) returns (hit: bool)
      modifies this`events
      ensures hit == (Head(data) == Complete(|data|))
      ensures events == if hit then old(events) + [FrameEvent(FrameOf(data))] else old(events)
    {
      hide FrameOf;
      if 8 <= |data| && data[2] == 0 && data[3] == 0 {
        var length := Word(data[4], data[5]);
        var frameLen := HEADER_LENGTH + length;
        if frameLen == |data| && frameLen <= MAX_FRAME_LENGTH && length >= 2 {
          events := events + [FrameEvent(FrameOf(data))];
          return true;
        }
      }
      return false;
    }

    /** Finish the frame whose head is held; `done` when the chunk is used up or rejected. */
    method CompleteHeld(data: seq<byte>) returns (done: bool, dataIndex: nat)
      requires Valid() && residualLen > 0
      modifies this, residual
      ensures done ==> Valid() && dataIndex == 0
      ensures done ==> var p := Parse(old(Held()) + data);
                       && events == old(events) + Events(p)
                       && Held() == if p.outcome.Rest? then p.outcome.bytes else []
      ensures !done ==> residualLen == 0 && dataIndex <= |data|
      ensures !done ==> var s := old(Held()) + data; var n := old(residualLen) + dataIndex;
                        && Head(s) == Complete(n)
                        && events == old(events) + [FrameEvent(FrameOf(s[..n]))]
                        && s[n..] == data[dataIndex..]
    {
      hide FrameOf, Parse;
      ghost var s := Held() + data;
      assert s[0..] == s;
      ParseFrom(s, 0);
      var totalAvailable := residualLen + |data|;
      if totalAvailable < HEADER_LENGTH {
        Append(data);
        return true, 0;
      }
      var b2 := if residualLen > 2 then residual[2] else data[2 - residualLen];
      var b3 := if residualLen > 3 then residual[3] else data[3 - residualLen];
      assert b2 == s[2] && b3 == s[3];
      if b2 != 0 || b3 != 0 {
        events := events + [ErrorEvent(ProtocolIdInvalid)];
        residualLen := 0;
        return true, 0;
      }
      var b4 := if residualLen > 4 then residual[4] else data[4 - residualLen];
      var b5 := if residualLen > 5 then residual[5] else data[5 - residualLen];
      assert b4 == s[4] && b5 == s[5];
      var length := Word(b4, b5);
      var frameLen := HEADER_LENGTH + length;
      if frameLen > MAX_FRAME_LENGTH || length < 2 {
        events := events + [ErrorEvent(FrameLengthInvalid)];
        residualLen := 0;
        return true, 0;
      }
      if |data| < frameLen - residualLen {
        Append(data);
        return true, 0;
      }
      HeldIsShorter(Held(), data, frameLen);
      var needBytes := frameLen - residualLen;
      var raw := residual[..residualLen] + data[..needBytes];
      assert raw == s[..frameLen] && s[frameLen..] == data[needBytes..];
      events := events + [FrameEvent(FrameOf(raw))];
      residualLen := 0;
      return false, needBytes;
    }

    /** The frame a held prefix belongs to is longer than the prefix. */
    lemma HeldIsShorter(held: seq<byte>, data: seq<byte>, n: nat)
      requires Head(held).Incomplete? && Head(held + data) == Complete(n)
      ensures |held| < n
    {
    }

    /** `data.copy(residual, residualLen)` */
    method Append(data: seq<byte>)
      requires residualLen + |data| <= residual.Length
      modifies residual, this`residualLen
      ensures residualLen == old(residualLen) + |data|
      ensures residual[..residualLen] == old(residual[..residualLen]) + data
    {
      CopyIn(data, residualLen);
      residualLen := residualLen + |data|;
    }

    method CopyIn(data: seq<byte>, at: nat)
      requires at + |data| <= residual.Length
      modifies residual
      ensures residual[..at + |data|] == old(residual[..at]) + data
    {
      for i := 0 to |data|
        invariant residual[..at + i] == old(residual[..at]) + data[..i]
      {
        residual[at + i] := data[i];
        assert residual[..at + i + 1] == residual[..at + i] + [data[i]];
      }
    }

    /** Read the header at `dataIndex` of the chunk. */
    method HeadAt(data: seq<byte>, dataIndex: nat) returns (verdict: Verdict)
      requires dataIndex + HEADER_LENGTH <= |data|
      ensures verdict == Head(data[dataIndex..])
    {
      if data[dataIndex + 2] != 0 || data[dataIndex + 3] != 0 {
        return Bad(ProtocolIdInvalid);
      }
      var length := Word(data[dataIndex + 4], data[dataIndex + 5]);
      var frameLen := HEADER_LENGTH + length;
      if frameLen > MAX_FRAME_LENGTH || length < 2 {
        return Bad(FrameLengthInvalid);
      }
      if |data| < dataIndex + frameLen {
        return Incomplete;
      }
      return Complete(frameLen);
    }

    /** Frames that lie entirely in the chunk, from `start` on. */
    method Sweep(data: seq<byte>, start: nat)
      requires residual.Length == MAX_FRAME_LENGTH && residualLen == 0 && start <= |data|
      modifies this, residual
      ensures Valid()
      ensures var p := Parse(data[start..]);
              && events == old(events) + Events(p)
              && Held() == if p.outcome.Rest? then p.outcome.bytes else []
    {
      hide FrameOf, Parse, Head, Behind;
      var dataIndex := start;
      ghost var found: seq<Frame> := [];
      while dataIndex + HEADER_LENGTH <= |data|
        invariant start <= dataIndex <= |data| && residualLen == 0
        invariant events == old(events) + FrameEvents(found)
        invariant Parse(data[start..]).frames == found + Parse(data[dataIndex..]).frames
        invariant Parse(data[start..]).outcome == Parse(data[dataIndex..]).outcome
        decreases |data| - dataIndex
      {
        ParseFrom(data, dataIndex);
        var verdict := HeadAt(data, dataIndex);
        match verdict {
          case Bad(e) =>
            events := events + [ErrorEvent(e)];
            assert found + [] == found;
            TooShortForHeader(residual[..0]);
            return;
          case Incomplete =>
            break;
          case Complete(frameLen) =>
            var frame := FrameOf(data[dataIndex..dataIndex + frameLen]);
            events := events + [FrameEvent(frame)];
            found := found + [frame];
            dataIndex := dataIndex + frameLen;
        }
      }
      TooShortForHeader(data[dataIndex..]);
      ShortIsRest(data[dataIndex..]);
      assert found + [] == found;
      KeepRest(data, dataIndex);
    }

    lemma TooShortForHeader(s: seq<byte>)
      ensures |s| < HEADER_LENGTH ==> Head(s).Incomplete?
    {
    }

    method KeepRest(data: seq<byte>, dataIndex: nat)
      requires residual.Length == MAX_FRAME_LENGTH && dataIndex <= |data|
      requires Head(data[dataIndex..]).Incomplete?
      modifies residual, this`residualLen
      ensures residualLen <= residual.Length && Held() == data[dataIndex..]
    {
      var finalRestLen := |data| - dataIndex;
      if finalRestLen == 0 {
        residualLen := 0;
      } else {
        var keepLen := if finalRestLen < MAX_FRAME_LENGTH then finalRestLen else MAX_FRAME_LENGTH;
        CopyIn(data[dataIndex..dataIndex + keepLen], 0);
        residualLen := keepLen;
      }
    }
  }

  // ---------- Whole transmissions ----------

  datatype Line = Line(events: seq<Event>, held: seq<byte>)

  function Step(held: seq<byte>, data: seq<byte>): Line {
    var p := Parse(held + data);
    Line(Events(p), if p.outcome.Rest? then p.outcome.bytes else [])
  }

  function Run(held: seq<byte>, chunks: seq<seq<byte>>): Line
    decreases |chunks|
  {
    if chunks == [] then Line([], held)
    else
      var first := Step(held, chunks[0]);
      var others := Run(first.held, chunks[1..]);
      Line(first.events + others.events, others.held)
  }

  method Receive(layer: TcpProtocolLayer, chunks: seq<seq<byte>>)
    requires layer.Valid()
    modifies layer, layer.residual
    ensures layer.Valid()
    ensures var all := Run(old(layer.Held()), chunks);
            layer.events == old(layer.events) + all.events && layer.Held() == all.held
  {
    hide Parse, Events;
    ghost var all := Run(layer.Held(), chunks);
    for i := 0 to |chunks|
      invariant layer.Valid()
      invariant all.held == Run(layer.Held(), chunks[i..]).held
      invariant old(layer.events) + all.events == layer.events + Run(layer.Held(), chunks[i..]).events
    {
      assert chunks[i..][1..] == chunks[i + 1..];
      layer.Decode(chunks[i]);
    }
  }

  /** Up to the first framing error the cut does not matter; without an error it never does. */
  lemma {:induction false} RunIsParse(held: seq<byte>, chunks: seq<seq<byte>>)
    requires Head(held).Incomplete?
    ensures var p := Parse(held + Flatten(chunks));
            match p.outcome
            case Rest(r) => Run(held, chunks) == Line(FrameEvents(p.frames), r)
            case Failed(e) => FrameEvents(p.frames) + [ErrorEvent(e)] <= Run(held, chunks).events
    decreases |chunks|
  {
    hide Head, Parse;
    if chunks == [] {
      assert held + [] == held;
      ShortIsRest(held);
    } else {
      var s, t := held + chunks[0], Flatten(chunks[1..]);
      assert held + Flatten(chunks) == s + t;
      ParseResumes(s, t);
      RestIsIncomplete(s);
      if Parse(s).outcome.Rest? {
        RunIsParse(Parse(s).outcome.bytes, chunks[1..]);
      }
    }
  }

  /** Encoded traffic, cut anywhere, comes out frame by frame and leaves nothing behind. */
  lemma TrafficIsLossless(fs: seq<Frame>, chunks: seq<seq<byte>>)
    requires forall f :: f in fs ==> Fits(f)
    requires Flatten(chunks) == EncodeAll(fs)
    ensures Run([], chunks) == Line(FrameEvents(fs), [])
  {
    hide Encode, Fits;
    EncodedStreamParses(fs, []);
    assert EncodeAll(fs) + [] == EncodeAll(fs) && fs + [] == fs;
    assert [] + Flatten(chunks) == Flatten(chunks);
    RunIsParse([], chunks);
  }

  // ---------- When the cut matters ----------

  /** After an error the cut can matter: the rest of the chunk is dropped, a new chunk is not. */
  lemma CutMattersAfterError(f: Frame)
    requires Fits(f)
    ensures var bad: seq<byte> := [0, 0, 1, 0, 0, 2];
            && Run([], [bad + Encode(f)]).events == [ErrorEvent(ProtocolIdInvalid)]
            && Run([], [bad, Encode(f)]).events == [ErrorEvent(ProtocolIdInvalid), FrameEvent(f)]
  {
    hide Encode, Parse, Head;
    var bad: seq<byte> := [0, 0, 1, 0, 0, 2];
    var none: seq<seq<byte>> := [];
    var glued := bad + Encode(f);
    assert [] + glued == glued && [] + bad == bad && [] + Encode(f) == Encode(f);
    BadHeader(bad);
    ParseResumes(bad, Encode(f));
    SurvivesIffFits(f);
    assert [glued][1..] == none && [bad, Encode(f)][1..] == [Encode(f)] && [Encode(f)][1..] == none;
  }

  lemma BadHeader(s: seq<byte>)
    requires HEADER_LENGTH <= |s| && s[2] != 0
    ensures Parse(s) == Parsed([], Failed(ProtocolIdInvalid))
  {
  }

  lemma {:induction false} NothingArrives(chunks: seq<seq<byte>>)
    requires Flatten(chunks) == []
    ensures Run([], chunks) == Line([], [])
    decreases |chunks|
  {
    hide Parse;
    if chunks != [] {
      assert chunks[0] == [] && [] + chunks[0] == [];
      ShortIsRest([]);
      NothingArrives(chunks[1..]);
    }
  }

  /** With nothing behind the failing header, every cut is as good as none. */
  lemma {:induction false} RunIsStep(held: seq<byte>, chunks: seq<seq<byte>>)
    requires Head(held).Incomplete? && Behind(held + Flatten(chunks)) == []
    ensures Run(held, chunks) == Step(held, Flatten(chunks))
    decreases |chunks|
  {
    hide Head, Parse, Behind;
    if chunks == [] {
      assert held + [] == held;
      ShortIsRest(held);
    } else {
      var s, t := held + chunks[0], Flatten(chunks[1..]);
      assert held + Flatten(chunks) == s + t;
      ParseResumes(s, t);
      BehindResumes(s, t);
      RestIsIncomplete(s);
      if Parse(s).outcome.Rest? {
        RunIsStep(Parse(s).outcome.bytes, chunks[1..]);
        assert FrameEvents(Parse(s + t).frames)
            == FrameEvents(Parse(s).frames) + FrameEvents(Parse(Parse(s).outcome.bytes + t).frames);
      } else {
        NothingArrives(chunks[1..]);
      }
    }
  }

  lemma SomethingHappens(s: seq<byte>)
    requires s != []
    ensures Step([], s) != Line([], [])
  {
    hide Head, FrameOf;
    assert [] + s == s;
  }

  lemma RunOfTwo(a: seq<byte>, b: seq<byte>)
    requires Parse(a).outcome.Failed?
    ensures Run([], [a, b]) == Line(Events(Parse(a)) + Step([], b).events, Step([], b).held)
    ensures Run([], [a + b]) == Step([], a + b)
    ensures Flatten([a, b]) == a + b
  {
    hide Parse, Events;
    var none: seq<seq<byte>> := [];
    assert [a, b][1..] == [b] && [b][1..] == none && [a + b][1..] == none;
    assert [] + a == a && Flatten([b]) == b && Flatten([a, b]) == a + Flatten([b]);
    assert Run([], none) == Line([], []) && Step([], a) == Line(Events(Parse(a)), []);
    assert Run([], [b]) == Step([], b) && Run([], [a + b]) == Step([], a + b);
  }

  /** No cut of the stream changes what the receiver reports or holds. */
  ghost predicate CutsAgree(s: seq<byte>) {
    forall chunks: seq<seq<byte>> :: Flatten(chunks) == s ==> Run([], chunks) == Run([], [s])
  }

  /**
   * The cut is immaterial exactly when nothing follows the header at which parsing fails, if it fails at
   * all: what follows it in the same chunk is dropped, what follows in a new chunk is not.
   */
  lemma CutsAgreeIffNothingBehind(s: seq<byte>)
    ensures CutsAgree(s) <==> Behind(s) == []
  {
    hide Parse, Head, Events, Behind, Run, Step;
    if Behind(s) == [] {
      assert [] + s == s;
      ShortStart();
      forall chunks: seq<seq<byte>> | Flatten(chunks) == s ensures Run([], chunks) == Run([], [s]) {
        RunIsStep([], chunks);
        OneChunk(s);
      }
    } else {
      CutMatters(s);
    }
  }

  lemma ShortStart()
    ensures Head([]).Incomplete?
  {
  }

  lemma OneChunk(s: seq<byte>)
    ensures Run([], [s]) == Step([], s)
  {
    hide Parse, Events;
    var none: seq<seq<byte>> := [];
    assert [s][1..] == none;
  }

  lemma OnlyFailuresHaveBehind(s: seq<byte>)
    ensures Behind(s) != [] ==> Parse(s).outcome.Failed?
    decreases |s|
  {
    hide FrameOf;
  }

  /** Cut right behind the failing header, the bytes that follow are heard. */
  lemma CutMatters(s: seq<byte>)
    requires Behind(s) != []
    ensures !CutsAgree(s)
  {
    hide Parse, Head, Events, Behind, Run, Step;
    OnlyFailuresHaveBehind(s);
    var front := CutBehind(s);
    var b := Behind(s);
    RunOfTwo(front, b);
    SomethingHappens(b);
    DropsTheRest(s);
    assert Flatten([front, b]) == s;
  }

  lemma DropsTheRest(s: seq<byte>)
    requires Parse(s).outcome.Failed?
    ensures Step([], s) == Line(Events(Parse(s)), [])
  {
    hide Parse;
    assert [] + s == s;
  }
}
