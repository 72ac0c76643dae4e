/** Bytes and 16-bit words as they travel on the wire. */
module Bytes {
  type byte = b: int | 0 <= b < 256

  datatype Option<+T> = None | Some(value: T)

  /** Big-endian 16-bit word: `(hi << 8) | lo`. */
  function Word(hi: byte, lo: byte): (w: nat)
    ensures w < 0x1_0000
  {
    256 * hi + lo
  }

  /** `(w >>> 8) & 0xff`, the high byte of the low 16 bits. */
  function High(w: nat): byte {
    w % 0x1_0000 / 256
  }

  /** `w & 0xff`, the low byte of the low 16 bits. */
  function Low(w: nat): byte {
    w % 0x1_0000 % 256
  }

  lemma WordOfHalves(w: nat)
    ensures Word(High(w), Low(w)) == w % 0x1_0000
  {
  }

  lemma HalvesOfWord(hi: byte, lo: byte)
    ensures High(Word(hi, lo)) == hi && Low(Word(hi, lo)) == lo
  {
  }

  lemma LowOf(w: nat)
    ensures Low(w) == w <==> w < 256
    ensures w < 256 ==> Low(w) == w
  {
  }

  /** The chunks of a transmission glued back together. */
  function Flatten<T>(chunks: seq<seq<T>>): seq<T> {
    if chunks == [] then [] else chunks[0] + Flatten(chunks[1..])
  }
}
