/** What a Modbus TCP receiver makes of a byte stream: MBAP headers and the frames behind them. */
module TcpFraming {
  import opened Bytes

  const MAX_FRAME_LENGTH := 260
  const HEADER_LENGTH := 6

  type word = w: int | 0 <= w < 0x1_0000

  datatype Frame = Frame(transaction: word, unit: byte, fc: byte, data: seq<byte>)

  datatype FrameError = ProtocolIdInvalid | FrameLengthInvalid

  datatype Event = FrameEvent(frame: Frame) | ErrorEvent(error: FrameError)

  // ---------- One frame at the head of the stream ----------

  datatype Verdict = Incomplete | Bad(error: FrameError) | Complete(len: nat)

  function LengthField(s: seq<byte>): nat
    requires HEADER_LENGTH <= |s|
  {
    Word(s[4], s[5])
  }

  /** What the bytes at hand say about the first frame. */
  function Head(s: seq<byte>): (v: Verdict)
    ensures v.Complete? ==> HEADER_LENGTH + 2 <= v.len <= |s| && v.len <= MAX_FRAME_LENGTH
    ensures v.Incomplete? ==> |s| < MAX_FRAME_LENGTH
  {
    if |s| < HEADER_LENGTH then Incomplete
    else if s[2] != 0 || s[3] != 0 then Bad(ProtocolIdInvalid)
    else
      var frameLen := HEADER_LENGTH + LengthField(s);
      if frameLen > MAX_FRAME_LENGTH || LengthField(s) < 2 then Bad(FrameLengthInvalid)
      else if |s| < frameLen then Incomplete
      else Complete(frameLen)
  }

  function FrameOf(raw: seq<byte>): Frame
    requires HEADER_LENGTH + 2 <= |raw|
  {
    Frame(Word(raw[0], raw[1]), raw[6], raw[7], raw[8..])
  }

  // ---------- The stream ----------

  datatype Outcome = Rest(bytes: seq<byte>) | Failed(error: FrameError)

  datatype Parsed = Parsed(frames: seq<Frame>, outcome: Outcome)

  /** The frames up to the first framing error, or up to the incomplete remainder. */
  function Parse(s: seq<byte>): Parsed
    decreases |s|
  {
    match Head(s)
    case Incomplete => Parsed([], Rest(s))
    case Bad(e) => Parsed([], Failed(e))
    case Complete(n) =>
      var tail := Parse(s[n..]);
      Parsed([FrameOf(s[..n])] + tail.frames, tail.outcome)
  }

  function FrameEvents(frames: seq<Frame>): seq<Event> {
    seq(|frames|, i requires 0 <= i < |frames| => FrameEvent(frames[i]))
  }

  function Events(p: Parsed): seq<Event> {
    FrameEvents(p.frames) + if p.outcome.Failed? then [ErrorEvent(p.outcome.error)] else []
  }

  lemma HeadStable(s: seq<byte>, t: seq<byte>)
    requires !Head(s).Incomplete?
    ensures Head(s + t) == Head(s)
  {
  }

  /** What more bytes make of what was parsed. */
  predicate Resumes(s: seq<byte>, t: seq<byte>) {
    match Parse(s).outcome
    case Rest(r) => Parse(s + t) == Parsed(Parse(s).frames + Parse(r + t).frames, Parse(r + t).outcome)
    case Failed(e) => Parse(s + t) == Parse(s)
  }

  /** Parsing resumes from the remainder; an error found is final. */
  lemma {:induction false} ParseResumes(s: seq<byte>, t: seq<byte>)
    ensures Resumes(s, t)
    decreases |s|
  {
    match Head(s) {
      case Incomplete => ShortIsRest(s);
      case Bad(e) => BadIsFinal(s, t);
      case Complete(n) =>
        hide Head, Parse, Resumes;
        ParseResumes(s[n..], t);
        ResumesBehindFrame(s, t);
    }
  }

  lemma ResumesBehindFrame(s: seq<byte>, t: seq<byte>)
    requires Head(s).Complete? && Resumes(s[Head(s).len..], t)
    ensures Resumes(s, t)
  {
    hide FrameOf, Head, Parse;
    var n := Head(s).len;
    ParseStep(s, t);
    ParseStep(s, []);
    assert s + [] == s && s[n..] + [] == s[n..];
  }

  lemma BadIsFinal(s: seq<byte>, t: seq<byte>)
    requires Head(s).Bad?
    ensures Parse(s) == Parse(s + t) == Parsed([], Failed(Head(s).error))
  {
    hide Head, FrameOf;
    HeadStable(s, t);
  }

  /** Whatever follows, a complete frame at the head is found first. */
  lemma ParseStep(s: seq<byte>, t: seq<byte>)
    requires Head(s).Complete?
    ensures var n := Head(s).len;
            var tail := Parse(s[n..] + t);
            Parse(s + t) == Parsed([FrameOf(s[..n])] + tail.frames, tail.outcome)
  {
    hide FrameOf, Head;
    HeadStable(s, t);
    var n := Head(s).len;
    assert (s + t)[n..] == s[n..] + t && (s + t)[..n] == s[..n];
  }

  /** The remainder is a proper prefix of one frame: a partial header, or a valid header and too few bytes. */
  lemma {:induction false} RestIsIncomplete(s: seq<byte>)
    ensures Parse(s).outcome.Rest? ==> Head(Parse(s).outcome.bytes).Incomplete?
    decreases |s|
  {
    if Head(s).Complete? {
      RestIsIncomplete(s[Head(s).len..]);
    }
  }

  /** The bytes behind the header at which parsing fails; none if it does not fail. */
  function Behind(s: seq<byte>): seq<byte>
    decreases |s|
  {
    match Head(s)
    case Incomplete => []
    case Bad(e) => s[HEADER_LENGTH..]
    case Complete(n) => Behind(s[n..])
  }

  lemma {:induction false} BehindResumes(s: seq<byte>, t: seq<byte>)
    ensures match Parse(s).outcome
            case Rest(r) => Behind(s + t) == Behind(r + t)
            case Failed(e) => Behind(s + t) == Behind(s) + t
    decreases |s|
  {
    hide FrameOf;
    if !Head(s).Incomplete? {
      HeadStable(s, t);
      if Head(s).Complete? {
        var n := Head(s).len;
        assert (s + t)[n..] == s[n..] + t;
        BehindResumes(s[n..], t);
      }
    }
  }

  /** Up to and including that header, the stream parses as it does as a whole. */
  lemma {:induction false} CutBehind(s: seq<byte>) returns (front: seq<byte>)
    requires Parse(s).outcome.Failed?
    ensures s == front + Behind(s) && Parse(front) == Parse(s)
    decreases |s|
  {
    hide FrameOf, Head;
    if Head(s).Bad? {
      HeadOfHeader(s);
      front := s[..HEADER_LENGTH];
    } else {
      var n := Head(s).len;
      var inner := CutBehind(s[n..]);
      front := s[..n] + inner;
      assert s == s[..n] + s[n..];
      assert front[n..] == inner && front[..n] == s[..n];
      HeadOfFrame(s, inner);
    }
  }

  lemma HeadOfHeader(s: seq<byte>)
    requires Head(s).Bad?
    ensures HEADER_LENGTH <= |s| && Head(s[..HEADER_LENGTH]) == Head(s)
    ensures s == s[..HEADER_LENGTH] + s[HEADER_LENGTH..]
  {
  }

  lemma HeadOfFrame(s: seq<byte>, t: seq<byte>)
    requires Head(s).Complete?
    ensures Head(s[..Head(s).len] + t) == Head(s)
  {
  }

  lemma ParseFrom(data: seq<byte>, index: nat)
    requires index <= |data|
    ensures match Head(data[index..])
            case Incomplete => Parse(data[index..]) == Parsed([], Rest(data[index..]))
            case Bad(e) => Parse(data[index..]) == Parsed([], Failed(e))
            case Complete(n) =>
              var tail := Parse(data[index + n..]);
              Parse(data[index..]) == Parsed([FrameOf(data[index..index + n])] + tail.frames, tail.outcome)
  {
    hide FrameOf;
    var here := data[index..];
    if Head(here).Complete? {
      var n := Head(here).len;
      assert here[n..] == data[index + n..] && here[..n] == data[index..index + n];
    }
  }

  lemma WholeFrame(s: seq<byte>)
    requires Head(s) == Complete(|s|)
    ensures Parse(s) == Parsed([FrameOf(s)], Rest([]))
  {
    assert s[..|s|] == s && s[|s|..] == [];
  }

  lemma ShortIsRest(s: seq<byte>)
    requires Head(s).Incomplete?
    ensures Parse(s) == Parsed([], Rest(s))
  {
  }

  // ---------- The encoder ----------

  function Encode(f: Frame): seq<byte> {
    var len := |f.data| + 2;
    [High(f.transaction), Low(f.transaction), 0, 0, High(len), Low(len), f.unit, f.fc] + f.data
  }

  /** `encode`: header fields stored byte by byte, then the payload. */
  method EncodeFrame(f: Frame) returns (buffer: array<byte>)
    ensures fresh(buffer) && buffer[..] == Encode(f)
  {
    hide High, Low;
    var len := |f.data| + 2;
    buffer := new byte[8 + |f.data|];
    buffer[0], buffer[1], buffer[2], buffer[3] := High(f.transaction), Low(f.transaction), 0, 0;
    buffer[4], buffer[5], buffer[6], buffer[7] := High(len), Low(len), f.unit, f.fc;
    ghost var header := [High(f.transaction), Low(f.transaction), 0, 0, High(len), Low(len), f.unit, f.fc];
    assert buffer[..8] == header;
    for i := 0 to |f.data|
      invariant buffer[..8 + i] == header + f.data[..i]
    {
      buffer[8 + i] := f.data[i];
      assert buffer[..8 + i + 1] == buffer[..8 + i] + [f.data[i]];
    }
    assert buffer[..] == buffer[..8 + |f.data|];
  }

  function EncodeAll(fs: seq<Frame>): seq<byte> {
    if fs == [] then [] else Encode(fs[0]) + EncodeAll(fs[1..])
  }

  /** The payload fits the 253-byte PDU, function code included. */
  predicate Fits(f: Frame) {
    |f.data| <= 252
  }

  lemma LengthFieldOfEncode(f: Frame)
    ensures LengthField(Encode(f)) == (|f.data| + 2) % 0x1_0000
    ensures Word(Encode(f)[0], Encode(f)[1]) == f.transaction
  {
    hide High, Low, Word;
    WordOfHalves(|f.data| + 2);
    WordOfHalves(f.transaction);
  }

  lemma EncodedHead(f: Frame, t: seq<byte>)
    requires Fits(f)
    ensures var s := Encode(f) + t;
            && Head(s) == Complete(|Encode(f)|)
            && FrameOf(s[..|Encode(f)|]) == f
  {
    hide High, Low, Word;
    LengthFieldOfEncode(f);
    var s := Encode(f) + t;
    assert s[..|Encode(f)|] == Encode(f);
    assert Encode(f)[8..] == f.data;
  }

  /** A frame comes back as itself exactly when its payload fits; 253 bytes already do not. */
  lemma SurvivesIffFits(f: Frame)
    ensures Parse(Encode(f)) == Parsed([f], Rest([])) <==> Fits(f)
  {
    var s := Encode(f);
    LengthFieldOfEncode(f);
    if Fits(f) {
      EncodedHead(f, []);
      assert s + [] == s && s[|s|..] == [];
    } else if Head(s).Complete? {
      assert Parse(s).frames[0] == FrameOf(s[..Head(s).len]);
      assert |FrameOf(s[..Head(s).len]).data| <= 252;
    }
  }

  /** Any sequence of frames that fit is parsed back in order, whatever follows. */
  lemma {:induction false} EncodedStreamParses(fs: seq<Frame>, t: seq<byte>)
    requires forall f :: f in fs ==> Fits(f)
    ensures Parse(EncodeAll(fs) + t) == Parsed(fs + Parse(t).frames, Parse(t).outcome)
    decreases |fs|
  {
    hide Encode, Fits, FrameOf, Head, Parse;
    if fs == [] {
      assert [] + t == t;
    } else {
      var tail := EncodeAll(fs[1..]) + t;
      var s := EncodeAll(fs) + t;
      assert s == Encode(fs[0]) + tail;
      EncodedHead(fs[0], tail);
      ParseFrom(s, 0);
      assert s[0..] == s && s[|Encode(fs[0])|..] == tail;
      EncodedStreamParses(fs[1..], t);
    }
  }
}
