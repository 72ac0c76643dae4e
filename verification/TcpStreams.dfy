/** TCP streams by their bytes: what a header says, and that what is parsed is what was encoded. */
module TcpStreams {
  import opened Bytes
  import opened TcpFraming

  /** The verdict on the first frame, by the bytes of its header. */
  lemma HeaderByBytes(s: seq<byte>)
    ensures |s| < 6 ==> Head(s) == Incomplete
    ensures |s| >= 6 && (s[2] != 0 || s[3] != 0) ==> Head(s) == Bad(ProtocolIdInvalid)
    ensures |s| >= 6 && s[2] == 0 && s[3] == 0 ==>
              var high: nat, low: nat := s[4], s[5]; var length := 256 * high + low;
              Head(s) == if length < 2 || length > 254 then Bad(FrameLengthInvalid)
                         else if |s| < 6 + length then Incomplete
                         else Complete(6 + length)
  {
  }

  /** Bytes with a good header are the encoding of what is read from them. */
  lemma EncodedAgain(raw: seq<byte>)
    requires 8 <= |raw| <= 260 && raw[2] == 0 && raw[3] == 0
    requires High(|raw| - 6) == raw[4] && Low(|raw| - 6) == raw[5]
    ensures Encode(FrameOf(raw)) == raw && Fits(FrameOf(raw))
  {
    hide High, Low, Word;
    HalvesOfWord(raw[0], raw[1]);
    assert Encode(FrameOf(raw))[8..] == raw[8..];
    assert Encode(FrameOf(raw))[..8] == raw[..8];
    assert raw == raw[..8] + raw[8..];
  }

  lemma GoodHeader(s: seq<byte>)
    requires Head(s).Complete?
    ensures var n := Head(s).len; 8 <= n <= |s| && n <= 260 && n - 6 == Word(s[4], s[5]) && s[2] == 0 && s[3] == 0
  {
  }

  /** `rest` is what of `s` gave no frame: the incomplete remainder, or the failing header and all behind it. */
  predicate LeftBy(s: seq<byte>, rest: seq<byte>) {
    match Parse(s).outcome
    case Rest(r) => rest == r && Head(rest) == Incomplete
    case Failed(e) => Head(rest) == Bad(e) && |rest| >= 6 && Behind(s) == rest[6..]
  }

  /** The frames found and what is left make up the stream, and every one of them fits. */
  predicate MadeUp(s: seq<byte>, rest: seq<byte>) {
    var frames := Parse(s).frames;
    s == EncodeAll(frames) + rest && forall f :: f in frames ==> Fits(f)
  }

  /**
   * On every stream: what precedes the remainder, or the failing header, is the encoding of exactly the
   * frames found, all of which fit.
   */
  lemma {:induction false} ParsedIsEncoded(s: seq<byte>) returns (rest: seq<byte>)
    ensures MadeUp(s, rest) && LeftBy(s, rest)
    decreases |s|
  {
    if Head(s).Complete? {
      var n := Head(s).len;
      rest := ParsedIsEncoded(s[n..]);
      OneFrameMore(s, rest);
    } else {
      hide FrameOf, Encode, Fits;
      rest := s;
      assert EncodeAll([]) + rest == rest;
    }
  }

  lemma OneFrameMore(s: seq<byte>, rest: seq<byte>)
    requires Head(s).Complete? && MadeUp(s[Head(s).len..], rest) && LeftBy(s[Head(s).len..], rest)
    ensures MadeUp(s, rest) && LeftBy(s, rest)
  {
    var n := Head(s).len;
    GoodHeader(s);
    HalvesOfWord(s[4], s[5]);
    EncodedAgain(s[..n]);
    FrameThenRest(s);
    hide Head, Parse, FrameOf, Encode, EncodeAll, Fits, Behind;
    var f, frames := FrameOf(s[..n]), Parse(s[n..]).frames;
    EncodedTogether(f, frames);
    Regroup(Encode(f), EncodeAll(frames), rest);
    assert s == s[..n] + s[n..];
  }

  lemma EncodedTogether(f: Frame, fs: seq<Frame>)
    ensures EncodeAll([f] + fs) == Encode(f) + EncodeAll(fs)
  {
    assert ([f] + fs)[1..] == fs;
  }

  lemma Regroup(a: seq<byte>, b: seq<byte>, c: seq<byte>)
    ensures a + (b + c) == (a + b) + c
  {
  }

  lemma FrameThenRest(s: seq<byte>)
    requires Head(s).Complete?
    ensures var n := Head(s).len;
            && Parse(s) == Parsed([FrameOf(s[..n])] + Parse(s[n..]).frames, Parse(s[n..]).outcome)
            && (Parse(s).outcome.Failed? ==> Behind(s) == Behind(s[n..]))
  {
    hide Head, FrameOf;
  }

  /** A stream without a framing error is read back as what was encoded, byte for byte, and nothing else reads so. */
  lemma ReadsAsEncoded(s: seq<byte>, fs: seq<Frame>)
    ensures Parse(s) == Parsed(fs, Rest([])) <==> (forall f :: f in fs ==> Fits(f)) && s == EncodeAll(fs)
  {
    hide Head, Encode, Fits, FrameOf;
    if Parse(s) == Parsed(fs, Rest([])) {
      var rest := ParsedIsEncoded(s);
      assert EncodeAll(fs) + [] == EncodeAll(fs);
    }
    if (forall f :: f in fs ==> Fits(f)) && s == EncodeAll(fs) {
      EncodedStreamParses(fs, []);
      EmptyStream();
      assert EncodeAll(fs) + [] == EncodeAll(fs) && fs + [] == fs;
    }
  }

  lemma EmptyStream()
    ensures Parse([]) == Parsed([], Rest([]))
  {
  }
}
