/** The Modbus ASCII receiver as a byte-at-a-time machine, and the encoder it answers to. */
module AsciiFraming {
  import opened Bytes

  /** Most hex characters between the colon and the line end. */
  const MAX_FRAME_LENGTH := 512
  const COLON: byte := 58
  const CR: byte := 13
  const LF: byte := 10

  type nibble = n: int | 0 <= n < 16

  datatype Frame = Frame(unit: byte, fc: byte, data: seq<byte>)

  datatype FrameError =
    | LrcCheckFailed(fc: byte)
    | FrameTooLong
    | HexCharacterInvalid
    | FrameLengthInsufficient
    | FrameLengthInvalid

  datatype Event = FrameEvent(frame: Frame) | ErrorEvent(error: FrameError)

  // ---------- Hex digits ----------

  /** `HEX_DECODE` when lenient, `HEX_DECODE_STRICT` otherwise: 0xFF marks a byte that is no digit. */
  function Hex(lenient: bool, b: byte): byte {
    if 48 <= b <= 57 then b - 48
    else if 65 <= b <= 70 then b - 55
    else if lenient && 97 <= b <= 102 then b - 87
    else 0xFF
  }

  predicate IsHex(lenient: bool, b: byte) {
    Hex(lenient, b) <= 15
  }

  predicate AllHex(lenient: bool, s: seq<byte>) {
    forall i :: 0 <= i < |s| ==> IsHex(lenient, s[i])
  }

  function Nibbles(lenient: bool, s: seq<byte>): (r: seq<nibble>)
    requires AllHex(lenient, s)
  {
    seq(|s|, i requires 0 <= i < |s| => Hex(lenient, s[i]))
  }

  /** `(hi << 4) | lo` */
  function Pair(hi: nibble, lo: nibble): byte {
    16 * hi + lo
  }

  function Pairs(body: seq<nibble>): seq<byte> {
    seq(|body| / 2, i requires 0 <= i < |body| / 2 => Pair(body[2 * i], body[2 * i + 1]))
  }

  // ---------- Longitudinal redundancy check ----------

  function Sum(s: seq<byte>): nat {
    if s == [] then 0
    else
      var last: byte := s[|s| - 1];
      Sum(s[..|s| - 1]) + last
  }

  lemma SumSnoc(s: seq<byte>, b: byte)
    ensures Sum(s + [b]) == Sum(s) + b
  {
    assert (s + [b])[..|s|] == s;
  }

  /** `(~sum + 1) & 0xff` */
  function Lrc(sum: int): byte {
    -sum % 256
  }

  // ---------- The machine ----------

  datatype State = Idle | Reception(body: seq<nibble>) | WaitingEnd(body: seq<nibble>)

  /** The event a complete hex body gives rise to. */
  function Finish(body: seq<nibble>): Event {
    if |body| < 6 then ErrorEvent(FrameLengthInsufficient)
    else if |body| % 2 != 0 then ErrorEvent(FrameLengthInvalid)
    else Report(Pairs(body))
  }

  /** Accept the bytes of a line if their checksum agrees. */
  function Report(bytes: seq<byte>): Event
    requires 3 <= |bytes|
  {
    var n := |bytes| - 1;
    if bytes[n] == Lrc(Sum(bytes[..n])) then FrameEvent(Frame(bytes[0], bytes[1], bytes[2..n]))
    else ErrorEvent(LrcCheckFailed(bytes[1]))
  }

  datatype Progress = Progress(state: State, events: seq<Event>)

  function Step(lenient: bool, state: State, b: byte): Progress {
    match state
    case Idle => Progress(if b == COLON then Reception([]) else Idle, [])
    case Reception(body) =>
      if b == COLON then Progress(Reception([]), [])
      else if b == CR then Progress(WaitingEnd(body), [])
      else if |body| >= MAX_FRAME_LENGTH then Progress(Idle, [ErrorEvent(FrameTooLong)])
      else if !IsHex(lenient, b) then Progress(Idle, [ErrorEvent(HexCharacterInvalid)])
      else Progress(Reception(body + [Hex(lenient, b)]), [])
    case WaitingEnd(body) =>
      if b == COLON then Progress(Reception([]), [])
      else if b == LF then Progress(Idle, [Finish(body)])
      else Progress(Idle, [])
  }

  /** The machine over a whole byte sequence. */
  function Fold(lenient: bool, state: State, s: seq<byte>): Progress {
    if s == [] then Progress(state, [])
    else
      var before := Fold(lenient, state, s[..|s| - 1]);
      var last := Step(lenient, before.state, s[|s| - 1]);
      Progress(last.state, before.events + last.events)
  }

  lemma FoldSnoc(lenient: bool, state: State, s: seq<byte>, b: byte)
    ensures var before := Fold(lenient, state, s);
            var last := Step(lenient, before.state, b);
            Fold(lenient, state, s + [b]) == Progress(last.state, before.events + last.events)
  {
    hide Step;
    assert (s + [b])[..|s|] == s;
  }

  /** Cutting the input anywhere changes nothing. */
  lemma {:induction false} FoldResumes(lenient: bool, state: State, s: seq<byte>, t: seq<byte>)
    ensures var first := Fold(lenient, state, s);
            var second := Fold(lenient, first.state, t);
            Fold(lenient, state, s + t) == Progress(second.state, first.events + second.events)
    decreases |t|
  {
    hide Step;
    if t == [] {
      assert s + t == s;
    } else {
      var n := |t| - 1;
      assert s + t == s + t[..n] + [t[n]];
      FoldResumes(lenient, state, s, t[..n]);
      FoldSnoc(lenient, state, s + t[..n], t[n]);
    }
  }

  // ---------- A whole frame on the line ----------

  lemma NibblesSnoc(lenient: bool, chars: seq<byte>, c: byte)
    requires AllHex(lenient, chars) && IsHex(lenient, c)
    ensures AllHex(lenient, chars + [c])
    ensures Nibbles(lenient, chars + [c]) == Nibbles(lenient, chars) + [Hex(lenient, c)]
  {
    hide Hex;
  }

  lemma PairsSnoc(body: seq<nibble>, hi: nibble, lo: nibble)
    requires |body| % 2 == 0
    ensures Pairs(body + [hi, lo]) == Pairs(body) + [Pair(hi, lo)]
  {
    hide Pair;
    var n := |body| / 2;
    assert (body + [hi, lo])[2 * n] == hi && (body + [hi, lo])[2 * n + 1] == lo;
  }

  lemma NibblesLength(lenient: bool, chars: seq<byte>)
    requires AllHex(lenient, chars)
    ensures |Nibbles(lenient, chars)| == |chars|
  {
  }

  lemma PairsGrow(lenient: bool, chars: seq<byte>, hi: byte, lo: byte)
    requires |chars| % 2 == 0 && AllHex(lenient, chars)
    ensures AllHex(lenient, chars + [hi, lo]) <==> IsHex(lenient, hi) && IsHex(lenient, lo)
    ensures AllHex(lenient, chars + [hi, lo]) ==>
              Pairs(Nibbles(lenient, chars + [hi, lo]))
              == Pairs(Nibbles(lenient, chars)) + [Pair(Hex(lenient, hi), Hex(lenient, lo))]
  {
    hide Hex, Pair;
    var all := chars + [hi, lo];
    assert all[|chars|] == hi && all[|chars| + 1] == lo;
    if IsHex(lenient, hi) && IsHex(lenient, lo) {
      NibblesLength(lenient, chars);
      PairsSnoc(Nibbles(lenient, chars), Hex(lenient, hi), Hex(lenient, lo));
      assert Nibbles(lenient, all) == Nibbles(lenient, chars) + [Hex(lenient, hi), Hex(lenient, lo)];
    }
  }

  lemma DigitsAreNotDelimiters(lenient: bool, b: byte)
    requires IsHex(lenient, b)
    ensures b != COLON && b != CR && b != LF
  {
  }

  /** A colon starts afresh from any state; the digits that follow are collected. */
  lemma {:induction false} CollectsBody(lenient: bool, state: State, chars: seq<byte>)
    requires AllHex(lenient, chars) && |chars| <= MAX_FRAME_LENGTH
    ensures Fold(lenient, state, [COLON] + chars) == Progress(Reception(Nibbles(lenient, chars)), [])
    decreases |chars|
  {
    hide Hex, IsHex, Fold;
    if chars == [] {
      assert [COLON] + chars == [] + [COLON];
      FoldSnoc(lenient, state, [], COLON);
      EmptyFold(lenient, state);
      assert Nibbles(lenient, chars) == [];
    } else {
      var n := |chars| - 1;
      var before := chars[..n];
      CollectsBody(lenient, state, before);
      assert [COLON] + chars == [COLON] + before + [chars[n]];
      FoldSnoc(lenient, state, [COLON] + before, chars[n]);
      DigitsAreNotDelimiters(lenient, chars[n]);
      NibblesSnoc(lenient, before, chars[n]);
      assert before + [chars[n]] == chars;
    }
  }

  lemma EmptyFold(lenient: bool, state: State)
    ensures Fold(lenient, state, []) == Progress(state, [])
  {
  }

  lemma WholeFrame(lenient: bool, state: State, chars: seq<byte>)
    requires AllHex(lenient, chars) && |chars| <= MAX_FRAME_LENGTH
    ensures Fold(lenient, state, [COLON] + chars + [CR, LF]) == Progress(Idle, [Finish(Nibbles(lenient, chars))])
  {
    hide Finish;
    CollectsBody(lenient, state, chars);
    FoldSnoc(lenient, state, [COLON] + chars, CR);
    FoldSnoc(lenient, state, [COLON] + chars + [CR], LF);
    assert [COLON] + chars + [CR] + [LF] == [COLON] + chars + [CR, LF];
  }

  // ---------- The encoder ----------

  /** `HEX_ENCODE[n]` */
  function HexDigit(n: nibble): (b: byte)
    ensures Hex(false, b) == n && Hex(true, b) == n
  {
    if n < 10 then 48 + n else 55 + n
  }

  /** `HEX_ENCODE_PAIR` applied to every byte. */
  function HexPairs(s: seq<byte>): (r: seq<byte>)
    ensures |r| == 2 * |s|
  {
    if s == [] then []
    else HexPairs(s[..|s| - 1]) + [HexDigit(s[|s| - 1] / 16), HexDigit(s[|s| - 1] % 16)]
  }

  function Body(f: Frame): seq<byte> {
    var head := [f.unit, f.fc] + f.data;
    head + [Lrc(Sum(head))]
  }

  function Encode(f: Frame): seq<byte> {
    [COLON] + HexPairs(Body(f)) + [CR, LF]
  }

  /** `encode`: the checksum first, then colon, hex pairs and line end written in place. */
  method EncodeFrame(f: Frame) returns (out: array<byte>)
    ensures fresh(out) && out[..] == Encode(f)
  {
    hide HexPairs, Sum;
    var sum := SumOf([f.unit, f.fc], f.data);
    var lrc := Lrc(sum);
    var body := [f.unit, f.fc] + f.data + [lrc];
    assert body == Body(f);
    out := new byte[1 + 2 * (|f.data| + 3) + 2];
    out[0] := COLON;
    HexPairsOfNone();
    for i := 0 to |body|
      invariant out[..1 + 2 * i] == [COLON] + HexPairs(body[..i])
    {
      assert body[..i + 1] == body[..i] + [body[i]];
      HexPairsSnoc(body[..i], body[i]);
      out[1 + 2 * i], out[2 + 2 * i] := HexDigit(body[i] / 16), HexDigit(body[i] % 16);
      assert out[..1 + 2 * (i + 1)] == out[..1 + 2 * i] + [HexDigit(body[i] / 16), HexDigit(body[i] % 16)];
    }
    assert body[..|body|] == body;
    var outOff := 1 + 2 * |body|;
    out[outOff], out[outOff + 1] := CR, LF;
    assert out[..] == out[..outOff] + [CR, LF];
  }

  method SumOf(head: seq<byte>, data: seq<byte>) returns (sum: nat)
    requires |head| == 2
    ensures sum == Sum(head + data)
  {
    SumSnoc([], head[0]);
    SumSnoc([head[0]], head[1]);
    assert [] + [head[0]] == [head[0]] && [head[0]] + [head[1]] == head;
    sum := head[0];
    sum := sum + head[1];
    assert head + data[..0] == head;
    for i := 0 to |data|
      invariant sum == Sum(head + data[..i])
    {
      SumSnoc(head + data[..i], data[i]);
      assert head + data[..i] + [data[i]] == head + data[..i + 1];
      sum := sum + data[i];
    }
    assert data[..|data|] == data;
  }

  lemma HexPairsOfNone()
    ensures HexPairs([]) == []
  {
  }

  lemma HexPairsSnoc(s: seq<byte>, b: byte)
    ensures HexPairs(s + [b]) == HexPairs(s) + [HexDigit(b / 16), HexDigit(b % 16)]
  {
    assert (s + [b])[..|s|] == s;
  }

  lemma {:induction false} HexPairsDecode(lenient: bool, s: seq<byte>)
    ensures AllHex(lenient, HexPairs(s))
    ensures Pairs(Nibbles(lenient, HexPairs(s))) == s
    decreases |s|
  {
    hide Hex, HexDigit, Pairs, Nibbles, AllHex;
    if s == [] {
      NothingDecodes(lenient);
    } else {
      var n := |s| - 1;
      HexPairsDecode(lenient, s[..n]);
      var before := HexPairs(s[..n]);
      var hi, lo := HexDigit(s[n] / 16), HexDigit(s[n] % 16);
      assert before + [hi, lo] == HexPairs(s);
      PairsGrow(lenient, before, hi, lo);
      assert s == s[..n] + [s[n]];
    }
  }

  lemma NothingDecodes(lenient: bool)
    ensures AllHex(lenient, []) && Pairs(Nibbles(lenient, [])) == []
  {
  }

  lemma BodyFinishes(lenient: bool, f: Frame)
    ensures AllHex(lenient, HexPairs(Body(f)))
    ensures Finish(Nibbles(lenient, HexPairs(Body(f)))) == FrameEvent(f)
  {
    hide HexPairs, Sum, Lrc;
    HexPairsDecode(lenient, Body(f));
    assert Body(f)[..|f.data| + 2] == [f.unit, f.fc] + f.data;
    assert Body(f)[2..|f.data| + 2] == f.data;
  }

  lemma {:induction false} IdleIgnores(lenient: bool, s: seq<byte>)
    requires COLON !in s
    ensures Fold(lenient, Idle, s) == Progress(Idle, [])
    decreases |s|
  {
    if s != [] {
      IdleIgnores(lenient, s[..|s| - 1]);
    }
  }

  lemma DigitsHaveNoColon(lenient: bool, chars: seq<byte>)
    requires AllHex(lenient, chars)
    ensures COLON !in chars
  {
  }

  /** The 513th hex character ends the attempt. */
  lemma OverlongIsRejected(lenient: bool, state: State, chars: seq<byte>, tail: seq<byte>)
    requires AllHex(lenient, chars) && |chars| > MAX_FRAME_LENGTH
    requires COLON !in tail
    ensures Fold(lenient, state, [COLON] + chars + tail) == Progress(Idle, [ErrorEvent(FrameTooLong)])
  {
    hide Hex, IsHex, Fold;
    var m := MAX_FRAME_LENGTH;
    var head, others := [COLON] + chars[..m], chars[m + 1..] + tail;
    CollectsBody(lenient, state, chars[..m]);
    DigitsAreNotDelimiters(lenient, chars[m]);
    FoldSnoc(lenient, state, head, chars[m]);
    DigitsHaveNoColon(lenient, chars[m + 1..]);
    IdleIgnores(lenient, others);
    FoldResumes(lenient, state, head + [chars[m]], others);
    assert [COLON] + chars + tail == head + [chars[m]] + others;
  }

  /**
   * Self-synchronisation and round trip. From any state an encoded frame yields exactly itself, or
   * exactly one error when its payload exceeds 253 bytes; either way the machine ends idle.
   */
  lemma EncodedFrameSynchronises(lenient: bool, state: State, f: Frame)
    ensures Fold(lenient, state, Encode(f))
            == Progress(Idle, [if |f.data| <= 253 then FrameEvent(f) else ErrorEvent(FrameTooLong)])
  {
    hide Finish, Body, HexPairs, Nibbles, AllHex;
    BodyFinishes(lenient, f);
    BodyLength(f);
    var chars := HexPairs(Body(f));
    if |f.data| <= 253 {
      WholeFrame(lenient, state, chars);
    } else {
      OverlongIsRejected(lenient, state, chars, [CR, LF]);
    }
  }

  lemma BodyLength(f: Frame)
    ensures |HexPairs(Body(f))| == 2 * (|f.data| + 3)
  {
  }
}
