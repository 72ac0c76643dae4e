/** The deduplication key of a request: streamed MurmurHash3 (x86, 32 bits, seed 0) over its bytes. */
module Fingerprint {
  import opened Bytes

  type octet = bv8

  // ---------- Word arithmetic, modulo 2^32 ----------

  function Times1(k: bv32): bv32 { k * 0xcc9e2d51 }
  function Times2(k: bv32): bv32 { k * 0x1b873593 }
  function Times3(h: bv32): bv32 { h * 5 + 0xe6546b64 }
  function Times4(h: bv32): bv32 { h * 0x85ebca6b }
  function Times5(h: bv32): bv32 { h * 0xc2b2ae35 }
  function Turn15(k: bv32): bv32 { (k << 15) | (k >> 17) }
  function Turn13(h: bv32): bv32 { (h << 13) | (h >> 19) }
  function Fold16(h: bv32): bv32 { h ^ (h >> 16) }
  function Fold13(h: bv32): bv32 { h ^ (h >> 13) }
  function Xor(h: bv32, k: bv32): bv32 { h ^ k }

  function Scramble(k: bv32): bv32 {
    Times2(Turn15(Times1(k)))
  }

  function Absorb(h: bv32, k: bv32): bv32 {
    Xor(h, Scramble(k))
  }

  function Mix(h: bv32, k: bv32): bv32 {
    Times3(Turn13(Absorb(h, k)))
  }

  function Avalanche(h: bv32): bv32 {
    Fold16(Times5(Fold13(Times4(Fold16(h)))))
  }

  function Wide(b: octet): bv32 {
    b as bv32
  }

  function Octet(n: bv32): octet {
    (n & 0xff) as bv8
  }

  function LowEight(n: bv32): bv32 { n & 0xff }

  /** `b` moved to byte 1, 2 or 3 and added to a word. */
  function Or1(k: bv32, b: bv32): bv32 { k | (b << 8) }
  function Or2(k: bv32, b: bv32): bv32 { k | (b << 16) }
  function Or3(k: bv32, b: bv32): bv32 { k | (b << 24) }

  /** Little-endian word of at most four bytes. */
  function WordOf(s: seq<octet>): bv32
    requires |s| <= 4
  {
    if |s| == 0 then 0
    else if |s| == 1 then Wide(s[0])
    else if |s| == 2 then Or1(Wide(s[0]), Wide(s[1]))
    else if |s| == 3 then Or2(Or1(Wide(s[0]), Wide(s[1])), Wide(s[2]))
    else Or3(Or2(Or1(Wide(s[0]), Wide(s[1])), Wide(s[2])), Wide(s[3]))
  }

  /** Final mix with the number of bytes. */
  function Seal(h: bv32, length: nat): bv32 {
    Avalanche(Xor(h, Truncated(length)))
  }

  function Truncated(n: nat): bv32 {
    (n % 0x1_0000_0000) as bv32
  }

  // ---------- The reference hash ----------

  datatype Digest = Digest(h: bv32, rest: seq<octet>)

  /** Whole words mixed in, and the bytes that do not fill one. */
  function Blocks(h: bv32, s: seq<octet>): (d: Digest)
    ensures |d.rest| == |s| % 4
    decreases |s|
  {
    if |s| < 4 then Digest(h, s) else Blocks(Mix(h, WordOf(s[..4])), s[4..])
  }

  function Finish(d: Digest, length: nat): bv32
    requires |d.rest| < 4
  {
    Seal(if d.rest == [] then d.h else Absorb(d.h, WordOf(d.rest)), length)
  }

  function Murmur3(s: seq<octet>): bv32 {
    Finish(Blocks(0, s), |s|)
  }

  // ---------- Streaming ----------

  lemma {:induction false} BlocksResume(h: bv32, a: seq<octet>, b: seq<octet>)
    ensures Blocks(h, a + b) == Blocks(Blocks(h, a).h, Blocks(h, a).rest + b)
    decreases |a|
  {
    if |a| >= 4 {
      assert (a + b)[..4] == a[..4] && (a + b)[4..] == a[4..] + b;
      BlocksResume(Mix(h, WordOf(a[..4])), a[4..], b);
    }
  }

  /** Registers `h1`, `k1` and `rem` after the bytes `seen`. */
  predicate Streaming(seen: seq<octet>, h1: bv32, k1: bv32, rem: nat) {
    var d := Blocks(0, seen);
    h1 == d.h && rem == |d.rest| && k1 == WordOf(d.rest)
  }

  lemma StreamStart()
    ensures Streaming([], 0, 0, 0)
  {
  }

  /** Bytes that do not fill the open word are added to it. */
  lemma StreamPart(seen: seq<octet>, h1: bv32, k1: bv32, rem: nat, more: seq<octet>)
    requires Streaming(seen, h1, k1, rem) && rem + |more| < 4
    ensures Streaming(seen + more, h1, WordOf(Blocks(0, seen).rest + more), rem + |more|)
  {
    hide WordOf;
    BlocksResume(0, seen, more);
  }

  /** Bytes that fill the open word close it. */
  lemma StreamWord(seen: seq<octet>, h1: bv32, k1: bv32, rem: nat, more: seq<octet>)
    requires Streaming(seen, h1, k1, rem) && rem + |more| == 4
    ensures Streaming(seen + more, Mix(h1, WordOf(Blocks(0, seen).rest + more)), 0, 0)
  {
    hide Mix;
    BlocksResume(0, seen, more);
    var word := Blocks(0, seen).rest + more;
    assert word[..4] == word && word[4..] == [];
    assert Blocks(h1, word) == Blocks(Mix(h1, WordOf(word)), []);
  }

  lemma LowByte(n: bv32)
    ensures LowEight(n) == Wide(Octet(n))
  {
  }

  lemma WordGrows(rest: seq<octet>, b: octet)
    requires |rest| <= 3
    ensures WordOf(rest + [b])
         == if |rest| == 0 then Wide(b)
            else if |rest| == 1 then Or1(WordOf(rest), Wide(b))
            else if |rest| == 2 then Or2(WordOf(rest), Wide(b))
            else Or3(WordOf(rest), Wide(b))
  {
    hide Wide, Or1, Or2, Or3;
  }

  /** The header bytes that are present, low eight bits of each. */
  function Present(n: Option<bv32>): seq<octet> {
    if n.None? then [] else [Octet(n.value)]
  }

  lemma StreamByte(seen: seq<octet>, h1: bv32, k1: bv32, rem: nat, n: bv32)
    requires Streaming(seen, h1, k1, rem)
    ensures var b := LowEight(n);
            var now := seen + [Octet(n)];
            if rem == 0 then Streaming(now, h1, b, 1)
            else if rem == 1 then Streaming(now, h1, Or1(k1, b), 2)
            else if rem == 2 then Streaming(now, h1, Or2(k1, b), 3)
            else Streaming(now, Mix(h1, Or3(k1, b)), 0, 0)
  {
    hide Wide, Octet, Or1, Or2, Or3, WordOf, Mix;
    LowByte(n);
    WordGrows(Blocks(0, seen).rest, Octet(n));
    if rem < 3 {
      StreamPart(seen, h1, k1, rem, [Octet(n)]);
    } else {
      StreamWord(seen, h1, k1, rem, [Octet(n)]);
    }
  }

  /** One step of the header state machine. */
  method PushHeaderByte(n: Option<bv32>, h: bv32, k: bv32, r: nat, total: nat, ghost seen: seq<octet>)
      returns (h1: bv32, k1: bv32, rem: nat, totalLen: nat)
    requires Streaming(seen, h, k, r) && total == |seen|
    ensures Streaming(seen + Present(n), h1, k1, rem) && totalLen == |seen + Present(n)|
  {
    hide Streaming, Mix, Octet, Or1, Or2, Or3;
    h1, k1, rem, totalLen := h, k, r, total;
    if n.None? {
      assert seen + [] == seen;
      return;
    }
    totalLen := totalLen + 1;
    StreamByte(seen, h, k, r, n.value);
    var b := LowEight(n.value);
    if rem == 0 {
      k1 := b;
      rem := 1;
    } else if rem == 1 {
      k1 := Or1(k1, b);
      rem := 2;
    } else if rem == 2 {
      k1 := Or2(k1, b);
      rem := 3;
    } else {
      h1 := Mix(h1, Or3(k1, b));
      k1 := 0;
      rem := 0;
    }
  }

  // ---------- The payload ----------

  /** The three expressions that top up an open word. */
  function Fill1(k: bv32, a: bv32, b: bv32, c: bv32): bv32 { k | ((a << 8) | (b << 16) | (c << 24)) }
  function Fill2(k: bv32, a: bv32, b: bv32): bv32 { k | ((a << 16) | (b << 24)) }
  function Part1(k: bv32, a: bv32, b: bv32): bv32 { k | ((a << 8) | (b << 16)) }

  lemma Fill1IsOrs(k: bv32, a: bv32, b: bv32, c: bv32)
    ensures Fill1(k, a, b, c) == Or3(Or2(Or1(k, a), b), c)
  {
  }

  lemma Fill2IsOrs(k: bv32, a: bv32, b: bv32)
    ensures Fill2(k, a, b) == Or3(Or2(k, a), b)
  {
  }

  lemma Part1IsOrs(k: bv32, a: bv32, b: bv32)
    ensures Part1(k, a, b) == Or2(Or1(k, a), b)
  {
  }

  /** Completing the open word from the front of the payload, or adding all of a short payload to it. */
  method TopUp(buffer: seq<octet>, h: bv32, k: bv32, r: nat, ghost seen: seq<octet>)
      returns (i: nat, h1: bv32, k1: bv32, rem: nat)
    requires Streaming(seen, h, k, r)
    ensures i <= |buffer|
    ensures Streaming(seen + buffer[..i], h1, k1, rem)
    ensures rem == 0 || i == |buffer|
  {
    hide Mix, Wide, Or1, Or2, Or3, Fill1, Fill2, Part1, WordOf;
    var len := |buffer|;
    i, h1, k1, rem := 0, h, k, r;
    assert seen + buffer[..0] == seen;
    if rem == 0 || len == 0 {
      return;
    }
    var need := 4 - rem;
    if len >= need {
      TopUpWord(seen, h, k, rem, buffer[..need]);
      if rem == 1 {
        k1 := Fill1(k1, Wide(buffer[i]), Wide(buffer[i + 1]), Wide(buffer[i + 2]));
      } else if rem == 2 {
        k1 := Fill2(k1, Wide(buffer[i]), Wide(buffer[i + 1]));
      } else {
        k1 := Or3(k1, Wide(buffer[i]));
      }
      i := i + need;
      h1 := Mix(h1, k1);
      k1, rem := 0, 0;
    } else {
      assert buffer[..len] == buffer;
      TopUpPart(seen, h, k, rem, buffer);
      if rem == 1 {
        k1 := if len == 1 then Or1(k1, Wide(buffer[0])) else Part1(k1, Wide(buffer[0]), Wide(buffer[1]));
      } else {
        k1 := Or2(k1, Wide(buffer[0]));
      }
      rem := rem + len;
      i := len;
    }
  }

  lemma TopUpWord(seen: seq<octet>, h: bv32, k: bv32, rem: nat, more: seq<octet>)
    requires Streaming(seen, h, k, rem) && rem > 0 && rem + |more| == 4
    ensures var k1 := if rem == 1 then Fill1(k, Wide(more[0]), Wide(more[1]), Wide(more[2]))
                      else if rem == 2 then Fill2(k, Wide(more[0]), Wide(more[1]))
                      else Or3(k, Wide(more[0]));
            Streaming(seen + more, Mix(h, k1), 0, 0)
  {
    hide Mix, Wide, Or1, Or2, Or3, Fill1, Fill2, Part1;
    StreamWord(seen, h, k, rem, more);
    if rem == 1 {
      Fill1IsOrs(k, Wide(more[0]), Wide(more[1]), Wide(more[2]));
    } else if rem == 2 {
      Fill2IsOrs(k, Wide(more[0]), Wide(more[1]));
    }
  }

  lemma TopUpPart(seen: seq<octet>, h: bv32, k: bv32, rem: nat, more: seq<octet>)
    requires Streaming(seen, h, k, rem) && rem > 0 && more != [] && rem + |more| < 4
    ensures var k1 := if rem == 2 then Or2(k, Wide(more[0]))
                      else if |more| == 1 then Or1(k, Wide(more[0]))
                      else Part1(k, Wide(more[0]), Wide(more[1]));
            Streaming(seen + more, h, k1, rem + |more|)
  {
    hide Mix, Wide, Or1, Or2, Or3, Fill1, Fill2, Part1;
    StreamPart(seen, h, k, rem, more);
    if |more| == 2 {
      Part1IsOrs(k, Wide(more[0]), Wide(more[1]));
    }
  }

  /** Four aligned bytes. */
  lemma StreamBlock(seen: seq<octet>, buffer: seq<octet>, i: nat, h: bv32, k: bv32)
    requires i + 4 <= |buffer| && Streaming(seen + buffer[..i], h, k, 0)
    ensures var word := Or3(Or2(Or1(Wide(buffer[i]), Wide(buffer[i + 1])), Wide(buffer[i + 2])), Wide(buffer[i + 3]));
            Streaming(seen + buffer[..i + 4], Mix(h, word), 0, 0)
  {
    hide Mix, Wide, Or1, Or2, Or3;
    var more := buffer[i..i + 4];
    assert seen + buffer[..i] + more == seen + buffer[..i + 4];
    StreamWord(seen + buffer[..i], h, k, 0, more);
    assert Blocks(0, seen + buffer[..i]).rest + more == more;
  }

  /** The one to three bytes after the last block. */
  lemma StreamTail(seen: seq<octet>, buffer: seq<octet>, i: nat, h: bv32, k: bv32)
    requires i <= |buffer| < i + 4 && Streaming(seen + buffer[..i], h, k, 0)
    ensures Streaming(seen + buffer, h, WordOf(buffer[i..]), |buffer| - i)
  {
    hide WordOf;
    var more := buffer[i..];
    assert seen + buffer[..i] + more == seen + buffer;
    StreamPart(seen + buffer[..i], h, k, 0, more);
    assert Blocks(0, seen + buffer[..i]).rest + more == more;
  }

  method MixPayload(buffer: seq<octet>, h: bv32, k: bv32, r: nat, ghost seen: seq<octet>)
      returns (h1: bv32, k1: bv32, rem: nat)
    requires Streaming(seen, h, k, r)
    ensures Streaming(seen + buffer, h1, k1, rem)
  {
    hide Streaming, Mix, Wide, Or1, Or2, Or3;
    var i: nat;
    var len := |buffer|;
    i, h1, k1, rem := TopUp(buffer, h, k, r, seen);
    var end := i + (len - i) / 4 * 4;
    while i < end
      invariant i <= end <= len < end + 4 && (end - i) % 4 == 0
      invariant rem == 0 || i == len
      invariant Streaming(seen + buffer[..i], h1, k1, rem)
    {
      StreamBlock(seen, buffer, i, h1, k1);
      var word := Or3(Or2(Or1(Wide(buffer[i]), Wide(buffer[i + 1])), Wide(buffer[i + 2])), Wide(buffer[i + 3]));
      h1, k1 := Mix(h1, word), 0;
      i := i + 4;
    }
    var tail := len - i;
    if tail > 0 {
      StreamTail(seen, buffer, i, h1, k1);
      if tail == 1 {
        k1 := Wide(buffer[i]);
        rem := 1;
      } else if tail == 2 {
        k1 := Or1(Wide(buffer[i]), Wide(buffer[i + 1]));
        rem := 2;
      } else {
        k1 := Or2(Or1(Wide(buffer[i]), Wide(buffer[i + 1])), Wide(buffer[i + 2]));
        rem := 3;
      }
    } else {
      assert buffer[..i] == buffer;
    }
  }

  // ---------- The whole hash ----------

  /** The bytes hashed: header bytes that are present, then the payload. */
  function Hashed(buffer: Option<seq<octet>>, n1: Option<bv32>, n2: Option<bv32>, n3: Option<bv32>, n4: Option<bv32>): seq<octet> {
    [] + Present(n1) + Present(n2) + Present(n3) + Present(n4) + if buffer.None? then [] else buffer.value
  }

  lemma StreamEnds(seen: seq<octet>, h1: bv32, k1: bv32, rem: nat)
    requires Streaming(seen, h1, k1, rem)
    ensures Murmur3(seen) == Seal(if rem > 0 then Absorb(h1, k1) else h1, |seen|)
  {
    hide Seal, Absorb, WordOf;
  }

  /** Every choice of header bytes and payload: the streamed hash is the reference hash of their concatenation. */
  method GenerateAduHashFingerprint(buffer: Option<seq<octet>>,
                                    n1: Option<bv32>, n2: Option<bv32>, n3: Option<bv32>, n4: Option<bv32>)
      returns (hash: bv32)
    ensures hash == Murmur3(Hashed(buffer, n1, n2, n3, n4))
  {
    hide Streaming, Seal, Absorb, Murmur3, Present;
    var h1: bv32, k1: bv32, rem: nat := 0, 0, 0;
    var totalLen: nat := 0;
    ghost var seen: seq<octet> := [];
    StreamStart();
    h1, k1, rem, totalLen := PushHeaderByte(n1, h1, k1, rem, totalLen, seen);
    seen := seen + Present(n1);
    h1, k1, rem, totalLen := PushHeaderByte(n2, h1, k1, rem, totalLen, seen);
    seen := seen + Present(n2);
    h1, k1, rem, totalLen := PushHeaderByte(n3, h1, k1, rem, totalLen, seen);
    seen := seen + Present(n3);
    h1, k1, rem, totalLen := PushHeaderByte(n4, h1, k1, rem, totalLen, seen);
    seen := seen + Present(n4);
    if buffer.Some? {
      totalLen := totalLen + |buffer.value|;
      h1, k1, rem := MixPayload(buffer.value, h1, k1, rem, seen);
      seen := seen + buffer.value;
    } else {
      assert seen + [] == seen;
    }
    assert seen == Hashed(buffer, n1, n2, n3, n4);
    StreamEnds(seen, h1, k1, rem);
    if rem > 0 {
      h1 := Absorb(h1, k1);
    }
    hash := Seal(h1, totalLen);
  }

  // ---------- What the hash tells apart ----------

  // Each step is undone by another one.

  function UnTimes1(r: bv32): bv32 { r * 0xdee13bb1 }

  lemma Times1Back(k: bv32)
    ensures UnTimes1(Times1(k)) == k
  {
    calc {
      UnTimes1(Times1(k));
      UnTimes1(k * 0xcc9e2d51);
      (k * 0xcc9e2d51) * 0xdee13bb1;
      k;
    }
  }

  lemma Times1Apart(a: bv32, b: bv32)
    requires Times1(a) == Times1(b)
    ensures a == b
  {
    hide Times1, UnTimes1;
    Times1Back(a);
    Times1Back(b);
  }

  function UnTimes2(r: bv32): bv32 { r * 0x56ed309b }

  lemma Times2Back(k: bv32)
    ensures UnTimes2(Times2(k)) == k
  {
    calc {
      UnTimes2(Times2(k));
      UnTimes2(k * 0x1b873593);
      (k * 0x1b873593) * 0x56ed309b;
      k;
    }
  }

  lemma Times2Apart(a: bv32, b: bv32)
    requires Times2(a) == Times2(b)
    ensures a == b
  {
    hide Times2, UnTimes2;
    Times2Back(a);
    Times2Back(b);
  }

  function UnTimes3(r: bv32): bv32 { (r - 0xe6546b64) * 0xcccccccd }

  lemma Times3Back(k: bv32)
    ensures UnTimes3(Times3(k)) == k
  {
    calc {
      UnTimes3(Times3(k));
      UnTimes3(k * 5 + 0xe6546b64);
      ((k * 5 + 0xe6546b64) - 0xe6546b64) * 0xcccccccd;
      k;
    }
  }

  lemma Times3Apart(a: bv32, b: bv32)
    requires Times3(a) == Times3(b)
    ensures a == b
  {
    hide Times3, UnTimes3;
    Times3Back(a);
    Times3Back(b);
  }

  function UnTimes4(r: bv32): bv32 { r * 0xa5cb9243 }

  lemma Times4Back(k: bv32)
    ensures UnTimes4(Times4(k)) == k
  {
    calc {
      UnTimes4(Times4(k));
      UnTimes4(k * 0x85ebca6b);
      (k * 0x85ebca6b) * 0xa5cb9243;
      k;
    }
  }

  lemma Times4Apart(a: bv32, b: bv32)
    requires Times4(a) == Times4(b)
    ensures a == b
  {
    hide Times4, UnTimes4;
    Times4Back(a);
    Times4Back(b);
  }

  function UnTimes5(r: bv32): bv32 { r * 0x7ed1b41d }

  lemma Times5Back(k: bv32)
    ensures UnTimes5(Times5(k)) == k
  {
    calc {
      UnTimes5(Times5(k));
      UnTimes5(k * 0xc2b2ae35);
      (k * 0xc2b2ae35) * 0x7ed1b41d;
      k;
    }
  }

  lemma Times5Apart(a: bv32, b: bv32)
    requires Times5(a) == Times5(b)
    ensures a == b
  {
    hide Times5, UnTimes5;
    Times5Back(a);
    Times5Back(b);
  }

  function UnTurn15(r: bv32): bv32 { (r >> 15) | (r << 17) }

  lemma Turn15Back(k: bv32)
    ensures UnTurn15(Turn15(k)) == k
  {
    calc {
      UnTurn15(Turn15(k));
      UnTurn15((k << 15) | (k >> 17));
      (((k << 15) | (k >> 17)) >> 15) | (((k << 15) | (k >> 17)) << 17);
      k;
    }
  }

  lemma Turn15Apart(a: bv32, b: bv32)
    requires Turn15(a) == Turn15(b)
    ensures a == b
  {
    hide Turn15, UnTurn15;
    Turn15Back(a);
    Turn15Back(b);
  }

  function UnTurn13(r: bv32): bv32 { (r >> 13) | (r << 19) }

  lemma Turn13Back(k: bv32)
    ensures UnTurn13(Turn13(k)) == k
  {
    calc {
      UnTurn13(Turn13(k));
      UnTurn13((k << 13) | (k >> 19));
      (((k << 13) | (k >> 19)) >> 13) | (((k << 13) | (k >> 19)) << 19);
      k;
    }
  }

  lemma Turn13Apart(a: bv32, b: bv32)
    requires Turn13(a) == Turn13(b)
    ensures a == b
  {
    hide Turn13, UnTurn13;
    Turn13Back(a);
    Turn13Back(b);
  }

  function UnFold16(r: bv32): bv32 { r ^ (r >> 16) }

  lemma Fold16Inside(k: bv32)
    ensures UnFold16(Fold16(k)) == UnFold16(k ^ (k >> 16))
  {
    hide UnFold16;
  }

  lemma UnFold16Outside(k: bv32)
    ensures UnFold16(k ^ (k >> 16)) == (k ^ (k >> 16)) ^ ((k ^ (k >> 16)) >> 16)
  {
    hide Fold16;
  }

  lemma Fold16Cancels(k: bv32)
    ensures (k ^ (k >> 16)) ^ ((k ^ (k >> 16)) >> 16) == k
  {
  }

  lemma Fold16Back(k: bv32)
    ensures UnFold16(Fold16(k)) == k
  {
    hide Fold16, UnFold16;
    Fold16Inside(k);
    UnFold16Outside(k);
    Fold16Cancels(k);
  }

  lemma Fold16Apart(a: bv32, b: bv32)
    requires Fold16(a) == Fold16(b)
    ensures a == b
  {
    hide Fold16, UnFold16;
    Fold16Back(a);
    Fold16Back(b);
  }

  function UnFold13(r: bv32): bv32 { r ^ (r >> 13) ^ (r >> 26) }

  lemma Fold13Inside(k: bv32)
    ensures UnFold13(Fold13(k)) == UnFold13(k ^ (k >> 13))
  {
    hide UnFold13;
  }

  lemma UnFold13Outside(k: bv32)
    ensures UnFold13(k ^ (k >> 13)) == (k ^ (k >> 13)) ^ ((k ^ (k >> 13)) >> 13) ^ ((k ^ (k >> 13)) >> 26)
  {
    hide Fold13;
  }

  lemma Fold13Cancels(k: bv32)
    ensures (k ^ (k >> 13)) ^ ((k ^ (k >> 13)) >> 13) ^ ((k ^ (k >> 13)) >> 26) == k
  {
  }

  lemma Fold13Back(k: bv32)
    ensures UnFold13(Fold13(k)) == k
  {
    hide Fold13, UnFold13;
    Fold13Inside(k);
    UnFold13Outside(k);
    Fold13Cancels(k);
  }

  lemma Fold13Apart(a: bv32, b: bv32)
    requires Fold13(a) == Fold13(b)
    ensures a == b
  {
    hide Fold13, UnFold13;
    Fold13Back(a);
    Fold13Back(b);
  }

  lemma XorApart(h: bv32, k: bv32, g: bv32)
    ensures Xor(h, k) == Xor(g, k) ==> h == g
    ensures Xor(k, h) == Xor(k, g) ==> h == g
  {
  }

  lemma ScrambleApart(k: bv32, l: bv32)
    requires Scramble(k) == Scramble(l)
    ensures k == l
  {
    hide Times1, Times2, Turn15;
    var a, b := Times1(k), Times1(l);
    Times2Apart(Turn15(a), Turn15(b));
    Turn15Apart(a, b);
    Times1Apart(k, l);
  }

  lemma MixApart(h: bv32, g: bv32, k: bv32, l: bv32)
    ensures Mix(h, k) == Mix(g, k) ==> h == g
    ensures Mix(h, k) == Mix(h, l) ==> k == l
  {
    hide Times3, Turn13, Scramble, Xor;
    if Mix(h, k) == Mix(g, k) {
      MixArguments(h, k, g, k);
      XorApart(h, Scramble(k), g);
    }
    if Mix(h, k) == Mix(h, l) {
      MixArguments(h, k, h, l);
      XorApart(Scramble(k), h, Scramble(l));
      ScrambleApart(k, l);
    }
  }

  lemma MixArguments(h: bv32, k: bv32, g: bv32, l: bv32)
    requires Mix(h, k) == Mix(g, l)
    ensures Absorb(h, k) == Absorb(g, l)
  {
    hide Times3, Turn13, Absorb;
    Times3Apart(Turn13(Absorb(h, k)), Turn13(Absorb(g, l)));
    Turn13Apart(Absorb(h, k), Absorb(g, l));
  }

  lemma AvalancheApart(h: bv32, g: bv32)
    requires Avalanche(h) == Avalanche(g)
    ensures h == g
  {
    hide Times4, Times5, Fold13, Fold16;
    var a, b := Times4(Fold16(h)), Times4(Fold16(g));
    Fold16Apart(Times5(Fold13(a)), Times5(Fold13(b)));
    Times5Apart(Fold13(a), Fold13(b));
    Fold13Apart(a, b);
    Times4Apart(Fold16(h), Fold16(g));
    Fold16Apart(h, g);
  }

  lemma {:induction false} BlocksApart(h: bv32, g: bv32, s: seq<octet>)
    requires h != g
    ensures Blocks(h, s).h != Blocks(g, s).h && Blocks(h, s).rest == Blocks(g, s).rest
    decreases |s|
  {
    hide Mix, WordOf;
    if |s| >= 4 {
      var k := WordOf(s[..4]);
      MixApart(h, g, k, k);
      BlocksApart(Mix(h, k), Mix(g, k), s[4..]);
    }
  }

  lemma FinishApart(d: Digest, e: Digest, length: nat)
    requires |d.rest| == |e.rest| < 4
    requires (d.h != e.h && d.rest == e.rest) || (d.h == e.h && d.rest != e.rest)
    ensures Finish(d, length) != Finish(e, length)
  {
    hide Avalanche, Truncated, Scramble, Xor, WordOf;
    var h := if d.rest == [] then d.h else Absorb(d.h, WordOf(d.rest));
    var g := if e.rest == [] then e.h else Absorb(e.h, WordOf(e.rest));
    if Finish(d, length) == Finish(e, length) {
      AvalancheApart(Xor(h, Truncated(length)), Xor(g, Truncated(length)));
      XorApart(h, Truncated(length), g);
      if d.h != e.h {
        XorApart(d.h, Scramble(WordOf(d.rest)), e.h);
      } else {
        XorApart(Scramble(WordOf(d.rest)), d.h, Scramble(WordOf(e.rest)));
        ScrambleApart(WordOf(d.rest), WordOf(e.rest));
        WordApart(d.rest, e.rest);
      }
    }
  }

  lemma Lanes4Apart(a: octet, b: octet, c: octet, d: octet, p: octet, q: octet, r: octet, t: octet)
    requires Or3(Or2(Or1(Wide(a), Wide(b)), Wide(c)), Wide(d)) == Or3(Or2(Or1(Wide(p), Wide(q)), Wide(r)), Wide(t))
    ensures a == p && b == q && c == r && d == t
  {
  }

  lemma Lanes3Apart(a: octet, b: octet, c: octet, p: octet, q: octet, r: octet)
    requires Or2(Or1(Wide(a), Wide(b)), Wide(c)) == Or2(Or1(Wide(p), Wide(q)), Wide(r))
    ensures a == p && b == q && c == r
  {
  }

  lemma Lanes2Apart(a: octet, b: octet, p: octet, q: octet)
    requires Or1(Wide(a), Wide(b)) == Or1(Wide(p), Wide(q))
    ensures a == p && b == q
  {
  }

  lemma LaneApart(a: octet, p: octet)
    requires Wide(a) == Wide(p)
    ensures a == p
  {
  }

  lemma WordApart(s: seq<octet>, t: seq<octet>)
    requires |s| == |t| <= 4 && WordOf(s) == WordOf(t)
    ensures s == t
  {
    hide Or1, Or2, Or3, Wide;
    match |s| {
      case 0 =>
      case 1 => LaneApart(s[0], t[0]);
      case 2 => Lanes2Apart(s[0], s[1], t[0], t[1]);
      case 3 => Lanes3Apart(s[0], s[1], s[2], t[0], t[1], t[2]);
      case _ => Lanes4Apart(s[0], s[1], s[2], s[3], t[0], t[1], t[2], t[3]);
    }
  }

  lemma AlignedResume(a: seq<octet>, s: seq<octet>)
    requires |a| % 4 == 0
    ensures Blocks(0, a + s) == Blocks(Blocks(0, a).h, s)
  {
    BlocksResume(0, a, s);
    assert Blocks(0, a).rest + s == s;
  }

  lemma WordFirst(h: bv32, w: seq<octet>, c: seq<octet>)
    requires |w| == 4
    ensures Blocks(h, w + c) == Blocks(Mix(h, WordOf(w)), c)
  {
    hide Mix, WordOf;
    assert (w + c)[..4] == w && (w + c)[4..] == c;
  }

  /** Messages of one length that differ only inside one aligned word never share a hash. */
  lemma OneWordNeverCollides(a: seq<octet>, w: seq<octet>, v: seq<octet>, c: seq<octet>)
    requires |a| % 4 == 0 && |w| == |v| <= 4 && w != v
    requires |w| < 4 ==> c == []
    ensures Murmur3(a + (w + c)) != Murmur3(a + (v + c))
  {
    hide Finish, WordOf, Mix, Blocks;
    var h := Blocks(0, a).h;
    AlignedResume(a, w + c);
    AlignedResume(a, v + c);
    if |w| == 4 {
      if WordOf(w) == WordOf(v) {
        WordApart(w, v);
      }
      WordFirst(h, w, c);
      WordFirst(h, v, c);
      MixApart(h, h, WordOf(w), WordOf(v));
      BlocksApart(Mix(h, WordOf(w)), Mix(h, WordOf(v)), c);
    } else {
      assert w + c == w && v + c == v;
      ShortRest(h, w);
      ShortRest(h, v);
    }
    FinishApart(Blocks(h, w + c), Blocks(h, v + c), |a + (w + c)|);
  }

  lemma ShortRest(h: bv32, w: seq<octet>)
    requires |w| < 4
    ensures Blocks(h, w) == Digest(h, w)
  {
  }

  // ---------- The key of a request ----------

  /** `generateRequestFingerprint` for standard function codes; `None` stands for "not deduplicated". */
  function RequestFingerprint(unit: bv32, fc: bv32, data: seq<octet>): Option<bv32> {
    var at := (i: nat) => if i < |data| then Some(Wide(data[i])) else None;
    if Keyed(fc) then Some(Murmur3(Hashed(Some(data), Some(unit), Some(fc), None, None)))
    else if fc == 43 then Some(Murmur3(Hashed(None, Some(unit), Some(fc), at(1), at(2))))
    else if fc == 17 then Some(Murmur3(Hashed(None, Some(unit), Some(fc), None, None)))
    else None
  }

  predicate Keyed(fc: bv32) {
    fc in {1, 2, 3, 4, 5, 6, 8, 15, 16, 22, 23}
  }

  lemma KeyBytes(unit: bv32, fc: bv32, data: seq<octet>)
    requires Keyed(fc) && |data| == 4
    ensures RequestFingerprint(unit, fc, data)
         == Some(Murmur3([] + ([Octet(unit), Octet(fc)] + data[..2] + data[2..])))
    ensures RequestFingerprint(unit, fc, data)
         == Some(Murmur3(([Octet(unit), Octet(fc)] + data[..2]) + (data[2..] + [])))
  {
    hide Murmur3, Octet;
    var bytes := Hashed(Some(data), Some(unit), Some(fc), None, None);
    assert bytes == [] + ([Octet(unit), Octet(fc)] + data[..2] + data[2..]);
    assert bytes == ([Octet(unit), Octet(fc)] + data[..2]) + (data[2..] + []);
  }

  /**
   * Address-and-value requests: two that differ only in target (unit, function code, address), or only in
   * value, are never taken for duplicates.
   */
  lemma SingleRequestsApart(unit: bv32, fc: bv32, data: seq<octet>, unit': bv32, fc': bv32, data': seq<octet>)
    requires Keyed(fc) && Keyed(fc') && |data| == |data'| == 4
    requires var target := [Octet(unit), Octet(fc)] + data[..2];
             var target' := [Octet(unit'), Octet(fc')] + data'[..2];
             (target == target') != (data[2..] == data'[2..])
    ensures RequestFingerprint(unit, fc, data) != RequestFingerprint(unit', fc', data')
  {
    hide Murmur3, Octet, RequestFingerprint;
    KeyBytes(unit, fc, data);
    KeyBytes(unit', fc', data');
    var target := [Octet(unit), Octet(fc)] + data[..2];
    var target' := [Octet(unit'), Octet(fc')] + data'[..2];
    if target == target' {
      OneWordNeverCollides(target, data[2..], data'[2..], []);
    } else {
      OneWordNeverCollides([], target, target', data[2..]);
    }
  }

  /** Identification requests have one key per unit, access code and object. */
  lemma IdentificationKeyIsExact(unit: bv32, data: seq<octet>, unit': bv32, data': seq<octet>)
    requires |data| == |data'| == 3
    ensures RequestFingerprint(unit, 43, data) == RequestFingerprint(unit', 43, data')
         <==> Octet(unit) == Octet(unit') && data[1..] == data'[1..]
  {
    hide Murmur3;
    IdentificationKey(unit, data);
    IdentificationKey(unit', data');
    var word, word' := [Octet(unit), 43, data[1], data[2]], [Octet(unit'), 43, data'[1], data'[2]];
    if word != word' {
      OneWordNeverCollides([], word, word', []);
    }
    assert word[0] == Octet(unit) && word[2..] == data[1..] && word'[0] == Octet(unit') && word'[2..] == data'[1..];
  }

  lemma IdentificationKey(unit: bv32, data: seq<octet>)
    requires |data| == 3
    ensures RequestFingerprint(unit, 43, data)
         == Some(Murmur3([] + ([Octet(unit), 43, data[1], data[2]] + [])))
  {
    hide Murmur3;
    assert Hashed(None, Some(unit), Some(43), Some(Wide(data[1])), Some(Wide(data[2])))
        == [] + ([Octet(unit), 43, data[1], data[2]] + []);
  }
}
