/** Values published for the algorithms and formats: anchors that do not depend on this model. */
module Published {
  import opened Bytes
  import opened Crc16
  import RtuFraming
  import RtuRuns
  import TcpFraming
  import AsciiFraming
  import CoilPacking
  import opened Fingerprint

  // ---------- CRC-16/MODBUS ----------

  /** One byte more. */
  lemma Then(s: seq<byte>, b: byte) returns (t: seq<byte>)
    ensures t == s + [b] && Crc(t) == Feed(Crc(s), Bits(b))
  {
    CrcAppend(s, b);
    t := s + [b];
  }

  lemma CrcOfNothing()
    ensures Crc([]) == 0xFFFF
  {
  }

  lemma DigitsFeed()
    ensures Feed(0xFFFF, Bits(0x31)) == 0x947E
    ensures Feed(0x947E, Bits(0x32)) == 0xF595
    ensures Feed(0xF595, Bits(0x33)) == 0x7A75
    ensures Feed(0x7A75, Bits(0x34)) == 0x30BA
    ensures Feed(0x30BA, Bits(0x35)) == 0xA471
    ensures Feed(0xA471, Bits(0x36)) == 0x32E4
    ensures Feed(0x32E4, Bits(0x37)) == 0x9D73
    ensures Feed(0x9D73, Bits(0x38)) == 0x37DD
    ensures Feed(0x37DD, Bits(0x39)) == 0x4B37
  {
  }

  /** The check value of CRC-16/MODBUS: the digits 1 to 9 in ASCII. */
  lemma CrcCheckValue()
    ensures Crc([0x31, 0x32, 0x33, 0x34, 0x35, 0x36, 0x37, 0x38, 0x39]) == 0x4B37
  {
    hide Crc, Feed, Bits;
    CrcOfNothing();
    DigitsFeed();
    var s: seq<byte> := [];
    s := Then(s, 0x31);
    s := Then(s, 0x32);
    s := Then(s, 0x33);
    s := Then(s, 0x34);
    s := Then(s, 0x35);
    s := Then(s, 0x36);
    s := Then(s, 0x37);
    s := Then(s, 0x38);
    s := Then(s, 0x39);
    assert s == [0x31, 0x32, 0x33, 0x34, 0x35, 0x36, 0x37, 0x38, 0x39];
  }

  // ---------- A request of unit 17 for three registers from 107 on, on each kind of line ----------

  lemma RequestFeeds()
    ensures Feed(0xFFFF, Bits(0x11)) == 0x4C7F
    ensures Feed(0x4C7F, Bits(0x03)) == 0xE14D
    ensures Feed(0xE14D, Bits(0x00)) == 0x3521
    ensures Feed(0x3521, Bits(0x6B)) == 0xF7B4
    ensures Feed(0xF7B4, Bits(0x00)) == 0x77F7
    ensures Feed(0x77F7, Bits(0x03)) == 0x8776
  {
  }

  lemma RequestCrc()
    ensures Crc([0x11, 0x03, 0x00, 0x6B, 0x00, 0x03]) == 0x8776
  {
    hide Crc, Feed, Bits;
    CrcOfNothing();
    RequestFeeds();
    var s: seq<byte> := [];
    s := Then(s, 0x11);
    s := Then(s, 0x03);
    s := Then(s, 0x00);
    s := Then(s, 0x6B);
    s := Then(s, 0x00);
    s := Then(s, 0x03);
    assert s == [0x11, 0x03, 0x00, 0x6B, 0x00, 0x03];
  }

  lemma RequestOnRtu()
    ensures RtuRuns.Encode(RtuFraming.Frame(17, 3, [0, 107, 0, 3])) == [0x11, 0x03, 0x00, 0x6B, 0x00, 0x03, 0x76, 0x87]
  {
    hide Crc, ByteOf;
    RequestCrc();
    assert [17, 3] + [0, 107, 0, 3] == [0x11, 0x03, 0x00, 0x6B, 0x00, 0x03];
    assert LowHalf(0x8776) == 0x76 && HighHalf(0x8776) == 0x87;
    TrailerBytes();
  }

  lemma TrailerBytes()
    ensures ByteOf(0x76) == 0x76 && ByteOf(0x87) == 0x87
  {
  }

  lemma RequestOnTcp()
    ensures TcpFraming.Encode(TcpFraming.Frame(1, 17, 3, [0, 107, 0, 3])) == [0, 1, 0, 0, 0, 6, 17, 3, 0, 107, 0, 3]
  {
  }

  /** The characters `:1103006B00037E` and the line end. */
  lemma RequestOnAscii()
    ensures AsciiFraming.Encode(AsciiFraming.Frame(17, 3, [0, 107, 0, 3]))
         == [58, 49, 49, 48, 51, 48, 48, 54, 66, 48, 48, 48, 51, 55, 69, 13, 10]
  {
    var body: seq<byte> := [17, 3, 0, 107, 0, 3, 126];
    RequestBody();
    RequestHex();
  }

  lemma RequestBody()
    ensures AsciiFraming.Body(AsciiFraming.Frame(17, 3, [0, 107, 0, 3])) == [17, 3, 0, 107, 0, 3, 126]
  {
    hide AsciiFraming.Sum;
    var s: seq<byte> := [];
    AsciiFraming.SumSnoc([], 17);
    AsciiFraming.SumSnoc([17], 3);
    AsciiFraming.SumSnoc([17, 3], 0);
    AsciiFraming.SumSnoc([17, 3, 0], 107);
    AsciiFraming.SumSnoc([17, 3, 0, 107], 0);
    AsciiFraming.SumSnoc([17, 3, 0, 107, 0], 3);
    assert s + [17] == [17] && [17] + [3] == [17, 3] && [17, 3] + [0] == [17, 3, 0];
    assert [17, 3, 0] + [107] == [17, 3, 0, 107] && [17, 3, 0, 107] + [0] == [17, 3, 0, 107, 0];
    assert [17, 3, 0, 107, 0] + [3] == [17, 3, 0, 107, 0, 3] == [17, 3] + [0, 107, 0, 3];
    SumOfNothing();
  }

  lemma SumOfNothing()
    ensures AsciiFraming.Sum([]) == 0
  {
  }

  /** Two hex digits more. */
  lemma ThenHex(s: seq<byte>, hex: seq<byte>, b: byte, hi: byte, lo: byte)
      returns (t: seq<byte>, more: seq<byte>)
    requires AsciiFraming.HexPairs(s) == hex
    requires AsciiFraming.HexDigit(b / 16) == hi && AsciiFraming.HexDigit(b % 16) == lo
    ensures t == s + [b] && more == hex + [hi, lo] && AsciiFraming.HexPairs(t) == more
  {
    AsciiFraming.HexPairsSnoc(s, b);
    t, more := s + [b], hex + [hi, lo];
  }

  lemma RequestHex()
    ensures AsciiFraming.HexPairs([17, 3, 0, 107, 0, 3, 126]) == [49, 49, 48, 51, 48, 48, 54, 66, 48, 48, 48, 51, 55, 69]
  {
    hide AsciiFraming.HexPairs;
    AsciiFraming.HexPairsOfNone();
    var s: seq<byte>, hex: seq<byte> := [], [];
    s, hex := ThenHex(s, hex, 17, 49, 49);
    s, hex := ThenHex(s, hex, 3, 48, 51);
    s, hex := ThenHex(s, hex, 0, 48, 48);
    s, hex := ThenHex(s, hex, 107, 54, 66);
    s, hex := ThenHex(s, hex, 0, 48, 48);
    s, hex := ThenHex(s, hex, 3, 48, 51);
    s, hex := ThenHex(s, hex, 126, 55, 69);
    assert s == [17, 3, 0, 107, 0, 3, 126];
  }

  // ---------- Writing ten coils from 20 on, section 6.11 of the application protocol ----------

  lemma TenCoils(values: seq<int>)
    requires values == [1, 0, 1, 1, 0, 0, 1, 1, 1, 0]
    ensures CoilPacking.WriteCoilsRequest(19, values) == [0x00, 0x13, 0x00, 0x0A, 0x02, 0xCD, 0x01]
  {
    hide CoilPacking.Octet;
    FirstEight(values);
    LastTwo(values);
    assert CoilPacking.Packed(values, 10) == [0xCD, 0x01];
  }

  lemma FirstEight(values: seq<int>)
    requires values == [1, 0, 1, 1, 0, 0, 1, 1, 1, 0]
    ensures CoilPacking.Octet(values, 10, 0) == 0xCD
  {
  }

  lemma LastTwo(values: seq<int>)
    requires values == [1, 0, 1, 1, 0, 0, 1, 1, 1, 0]
    ensures CoilPacking.Octet(values, 10, 8) == 0x01
  {
  }

  // ---------- MurmurHash3, x86, 32 bits, seed 0 ----------

  lemma HellWord()
    ensures WordOf([0x68, 0x65, 0x6C, 0x6C]) == 0x6C6C6568 && WordOf([0x6F]) == 0x6F
  {
  }

  lemma HellMixes()
    ensures Mix(0, 0x6C6C6568) == 0xEF13EFCD
  {
  }

  lemma HelloAbsorbs()
    ensures Absorb(0xEF13EFCD, 0x6F) == 0x9CAF3FB3
  {
  }

  lemma FitsWord(n: nat)
    requires n < 0x1_0000_0000
    ensures Truncated(n) == n as bv32
  {
  }

  lemma FiveAsWord()
    ensures 5 as bv32 == 5
  {
  }

  lemma FiveBytes()
    ensures Truncated(5) == 5
  {
    hide Truncated;
    FitsWord(5);
    FiveAsWord();
  }

  lemma HelloAvalanches()
    ensures Avalanche(Fingerprint.Xor(0x9CAF3FB3, 5)) == 0x248BFA47
  {
  }

  lemma HelloSeals()
    ensures Seal(0x9CAF3FB3, 5) == 0x248BFA47
  {
    hide Truncated, Avalanche, Fingerprint.Xor;
    FiveBytes();
    HelloAvalanches();
  }

  /** The hash of "hello". */
  lemma HelloHash()
    ensures Murmur3([0x68, 0x65, 0x6C, 0x6C, 0x6F]) == 0x248BFA47
  {
    hide Blocks, WordOf, Mix, Absorb, Seal;
    var word: seq<octet>, tail: seq<octet> := [0x68, 0x65, 0x6C, 0x6C], [0x6F];
    HellWord();
    HellMixes();
    HelloAbsorbs();
    HelloSeals();
    WordFirst(0, word, tail);
    ShortRest(0xEF13EFCD, tail);
    assert word + tail == [0x68, 0x65, 0x6C, 0x6C, 0x6F];
  }
}
