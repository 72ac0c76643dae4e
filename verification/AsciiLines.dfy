/** ASCII lines in the words of the serial line specification: alphabet, longitudinal check, and what each kind of line yields. */
module AsciiLines {
  import opened Bytes
  import opened AsciiFraming

  // ---------- The alphabet ----------

  /** The sixteen digits sent, in order, are 0 to 9 and A to F. */
  lemma DigitsSent(n: nibble)
    ensures HexDigit(n) == "0123456789ABCDEF"[n] as int
  {
  }

  /** Digits understood: the same, and in lenient mode a to f. */
  lemma DigitsUnderstood(lenient: bool, b: byte)
    ensures IsHex(lenient, b) <==> 48 <= b <= 57 || 65 <= b <= 70 || (lenient && 97 <= b <= 102)
    ensures 48 <= b <= 57 ==> Hex(lenient, b) == b - 48
    ensures 65 <= b <= 70 ==> Hex(lenient, b) == b - 65 + 10
    ensures lenient && 97 <= b <= 102 ==> Hex(lenient, b) == b - 97 + 10
  {
  }

  /** The high half of a byte comes first, both ways. */
  lemma HighHalfFirst(b: byte, body: seq<nibble>, i: nat)
    requires 2 * i + 1 < |body|
    ensures HexPairs([b]) == [HexDigit(b / 16), HexDigit(b % 16)]
    ensures i < |Pairs(body)|
    ensures var hi: int, lo: int := body[2 * i], body[2 * i + 1]; Pairs(body)[i] == 16 * hi + lo
  {
    hide HexDigit;
    HexPairsOfNone();
    HexPairsSnoc([], b);
    assert [] + [b] == [b];
  }

  // ---------- The longitudinal redundancy check ----------

  /** The bytes of an encoded frame, check byte included, add up to 0 modulo 256. */
  lemma FrameSumsToZero(f: Frame)
    ensures Sum(Body(f)) % 256 == 0
    ensures |Body(f)| == |f.data| + 3 && Body(f)[0] == f.unit && Body(f)[1] == f.fc && Body(f)[2..|f.data| + 2] == f.data
  {
    hide Sum, Lrc;
    var head := [f.unit, f.fc] + f.data;
    SumSnoc(head, Lrc(Sum(head)));
    CheckIffZero(Sum(head), Lrc(Sum(head)));
  }

  /** A line is accepted exactly when its bytes add up to 0 modulo 256. */
  lemma AcceptedIffZeroSum(bytes: seq<byte>)
    requires 3 <= |bytes|
    ensures Report(bytes) == if Sum(bytes) % 256 == 0 then FrameEvent(Frame(bytes[0], bytes[1], bytes[2..|bytes| - 1]))
                             else ErrorEvent(LrcCheckFailed(bytes[1]))
  {
    hide Sum, Lrc;
    var n := |bytes| - 1;
    SumSnoc(bytes[..n], bytes[n]);
    assert bytes == bytes[..n] + [bytes[n]];
    CheckIffZero(Sum(bytes[..n]), bytes[n]);
  }

  /** A check byte agrees exactly when it brings the sum to 0 modulo 256. */
  lemma CheckIffZero(sum: nat, b: byte)
    ensures b == Lrc(sum) <==> (sum + b) % 256 == 0
  {
    hide Lrc;
    var q, r := sum / 256, sum % 256;
    LrcCompletes(sum);
    if r + b < 256 {
      ByteRemainder(sum + b, q, r + b);
    } else {
      ByteRemainder(sum + b, q + 1, r + b - 256);
    }
  }

  lemma LrcCompletes(sum: nat)
    ensures Lrc(sum) == if sum % 256 == 0 then 0 else 256 - sum % 256
  {
    var s: int, q: int, r: int := sum, sum / 256, sum % 256;
    if r == 0 {
      ByteRemainder(-s, -q, 0);
    } else {
      ByteRemainder(-s, -q - 1, 256 - r);
    }
  }

  lemma ByteRemainder(n: int, k: int, r: int)
    requires n == 256 * k + r && 0 <= r < 256
    ensures n % 256 == r
  {
  }

  /** What a complete line yields: too short, of odd length, wrong sum, or its frame. */
  lemma LineYields(lenient: bool, state: State, chars: seq<byte>)
    requires AllHex(lenient, chars) && |chars| <= 512
    ensures var bytes := Pairs(Nibbles(lenient, chars));
            Fold(lenient, state, [58] + chars + [13, 10])
            == Progress(Idle, [if |chars| < 6 then ErrorEvent(FrameLengthInsufficient)
                               else if |chars| % 2 == 1 then ErrorEvent(FrameLengthInvalid)
                               else if Sum(bytes) % 256 != 0 then ErrorEvent(LrcCheckFailed(bytes[1]))
                               else FrameEvent(Frame(bytes[0], bytes[1], bytes[2..|bytes| - 1]))])
  {
    hide Fold, Pairs, Nibbles, AllHex, Report, Sum;
    WholeFrame(lenient, state, chars);
    NibblesLength(lenient, chars);
    PairsLength(Nibbles(lenient, chars));
    if 6 <= |chars| && |chars| % 2 == 0 {
      AcceptedIffZeroSum(Pairs(Nibbles(lenient, chars)));
    }
  }

  lemma PairsLength(body: seq<nibble>)
    ensures |Pairs(body)| == |body| / 2
  {
  }

  // ---------- Lines that are not complete ----------

  /** A character that is no digit ends the attempt with one error; nothing more comes of the line. */
  lemma BadDigitEndsLine(lenient: bool, state: State, chars: seq<byte>, bad: byte, tail: seq<byte>)
    requires AllHex(lenient, chars) && |chars| < 512
    requires !IsHex(lenient, bad) && bad != 58 && bad != 13 && 58 !in tail
    ensures Fold(lenient, state, [58] + chars + [bad] + tail) == Progress(Idle, [ErrorEvent(HexCharacterInvalid)])
  {
    hide Fold, AllHex, IsHex, Nibbles;
    CollectsBody(lenient, state, chars);
    NibblesLength(lenient, chars);
    FoldSnoc(lenient, state, [58] + chars, bad);
    FoldResumes(lenient, state, [58] + chars + [bad], tail);
    IdleIgnores(lenient, tail);
  }

  /** A carriage return without its line feed ends the attempt silently. */
  lemma LineFeedMissing(lenient: bool, state: State, chars: seq<byte>, other: byte, tail: seq<byte>)
    requires AllHex(lenient, chars) && |chars| <= 512 && other != 58 && other != 10 && 58 !in tail
    ensures Fold(lenient, state, [58] + chars + [13] + [other] + tail) == Progress(Idle, [])
  {
    hide Fold, AllHex, Nibbles;
    CollectsBody(lenient, state, chars);
    FoldSnoc(lenient, state, [58] + chars, 13);
    FoldSnoc(lenient, state, [58] + chars + [13], other);
    FoldResumes(lenient, state, [58] + chars + [13] + [other], tail);
    IdleIgnores(lenient, tail);
  }

  /** Whatever came before, a colon starts a new line and discards an unfinished one without a word. */
  lemma ColonRestarts(lenient: bool, state: State)
    ensures Fold(lenient, state, [58]) == Progress(Reception([]), [])
  {
    FoldSnoc(lenient, state, [], 58);
    EmptyFold(lenient, state);
    assert [] + [58] == [58];
  }
}
