/** CRC-16/MODBUS: the published table, the loops that use it, and what the checksum detects. */
module Crc16 {
  import opened Bytes

  // ---------- Bytes as bit-vectors, half by half ----------

  function NibbleBits(n: int): bv4
    requires 0 <= n < 16
  {
    match n
    case 0 => 0 case 1 => 1 case 2 => 2 case 3 => 3 case 4 => 4 case 5 => 5 case 6 => 6 case 7 => 7
    case 8 => 8 case 9 => 9 case 10 => 10 case 11 => 11 case 12 => 12 case 13 => 13 case 14 => 14 case _ => 15
  }

  function NibbleValue(x: bv4): int {
    match x
    case 0 => 0 case 1 => 1 case 2 => 2 case 3 => 3 case 4 => 4 case 5 => 5 case 6 => 6 case 7 => 7
    case 8 => 8 case 9 => 9 case 10 => 10 case 11 => 11 case 12 => 12 case 13 => 13 case 14 => 14 case _ => 15
  }

  function Join(hi: bv4, lo: bv4): bv8 {
    (hi as bv8 << 4) | lo as bv8
  }

  function Bits(b: byte): bv8 {
    Join(NibbleBits(b / 16), NibbleBits(b % 16))
  }

  function ByteOf(x: bv8): byte {
    16 * NibbleValue((x >> 4) as bv4) + NibbleValue((x & 0xf) as bv4)
  }

  lemma JoinParts(hi: bv4, lo: bv4)
    ensures (Join(hi, lo) >> 4) as bv4 == hi && (Join(hi, lo) & 0xf) as bv4 == lo
  {
  }

  lemma PartsJoin(x: bv8)
    ensures Join((x >> 4) as bv4, (x & 0xf) as bv4) == x
  {
  }

  lemma NibbleRoundTrip(n: int)
    requires 0 <= n < 16
    ensures NibbleValue(NibbleBits(n)) == n
  {
  }

  lemma NibbleBitsRoundTrip(x: bv4)
    ensures NibbleBits(NibbleValue(x)) == x
  {
  }

  lemma ByteOfBits(b: byte)
    ensures ByteOf(Bits(b)) == b
  {
    hide Join, NibbleBits, NibbleValue;
    JoinParts(NibbleBits(b / 16), NibbleBits(b % 16));
    NibbleRoundTrip(b / 16);
    NibbleRoundTrip(b % 16);
  }

  lemma BitsOfByte(x: bv8)
    ensures Bits(ByteOf(x)) == x
  {
    hide Join, NibbleBits;
    PartsJoin(x);
    NibbleBitsRoundTrip((x >> 4) as bv4);
    NibbleBitsRoundTrip((x & 0xf) as bv4);
  }

  // ---------- The table, one function per row of sixteen entries ----------

  function Row0(n: bv4): bv16 {
    match n
    case 0 => 0x0000 case 1 => 0xc0c1 case 2 => 0xc181 case 3 => 0x0140
    case 4 => 0xc301 case 5 => 0x03c0 case 6 => 0x0280 case 7 => 0xc241
    case 8 => 0xc601 case 9 => 0x06c0 case 10 => 0x0780 case 11 => 0xc741
    case 12 => 0x0500 case 13 => 0xc5c1 case 14 => 0xc481 case _ => 0x0440
  }

  function Row1(n: bv4): bv16 {
    match n
    case 0 => 0xcc01 case 1 => 0x0cc0 case 2 => 0x0d80 case 3 => 0xcd41
    case 4 => 0x0f00 case 5 => 0xcfc1 case 6 => 0xce81 case 7 => 0x0e40
    case 8 => 0x0a00 case 9 => 0xcac1 case 10 => 0xcb81 case 11 => 0x0b40
    case 12 => 0xc901 case 13 => 0x09c0 case 14 => 0x0880 case _ => 0xc841
  }

  function Row2(n: bv4): bv16 {
    match n
    case 0 => 0xd801 case 1 => 0x18c0 case 2 => 0x1980 case 3 => 0xd941
    case 4 => 0x1b00 case 5 => 0xdbc1 case 6 => 0xda81 case 7 => 0x1a40
    case 8 => 0x1e00 case 9 => 0xdec1 case 10 => 0xdf81 case 11 => 0x1f40
    case 12 => 0xdd01 case 13 => 0x1dc0 case 14 => 0x1c80 case _ => 0xdc41
  }

  function Row3(n: bv4): bv16 {
    match n
    case 0 => 0x1400 case 1 => 0xd4c1 case 2 => 0xd581 case 3 => 0x1540
    case 4 => 0xd701 case 5 => 0x17c0 case 6 => 0x1680 case 7 => 0xd641
    case 8 => 0xd201 case 9 => 0x12c0 case 10 => 0x1380 case 11 => 0xd341
    case 12 => 0x1100 case 13 => 0xd1c1 case 14 => 0xd081 case _ => 0x1040
  }

  function Row4(n: bv4): bv16 {
    match n
    case 0 => 0xf001 case 1 => 0x30c0 case 2 => 0x3180 case 3 => 0xf141
    case 4 => 0x3300 case 5 => 0xf3c1 case 6 => 0xf281 case 7 => 0x3240
    case 8 => 0x3600 case 9 => 0xf6c1 case 10 => 0xf781 case 11 => 0x3740
    case 12 => 0xf501 case 13 => 0x35c0 case 14 => 0x3480 case _ => 0xf441
  }

  function Row5(n: bv4): bv16 {
    match n
    case 0 => 0x3c00 case 1 => 0xfcc1 case 2 => 0xfd81 case 3 => 0x3d40
    case 4 => 0xff01 case 5 => 0x3fc0 case 6 => 0x3e80 case 7 => 0xfe41
    case 8 => 0xfa01 case 9 => 0x3ac0 case 10 => 0x3b80 case 11 => 0xfb41
    case 12 => 0x3900 case 13 => 0xf9c1 case 14 => 0xf881 case _ => 0x3840
  }

  function Row6(n: bv4): bv16 {
    match n
    case 0 => 0x2800 case 1 => 0xe8c1 case 2 => 0xe981 case 3 => 0x2940
    case 4 => 0xeb01 case 5 => 0x2bc0 case 6 => 0x2a80 case 7 => 0xea41
    case 8 => 0xee01 case 9 => 0x2ec0 case 10 => 0x2f80 case 11 => 0xef41
    case 12 => 0x2d00 case 13 => 0xedc1 case 14 => 0xec81 case _ => 0x2c40
  }

  function Row7(n: bv4): bv16 {
    match n
    case 0 => 0xe401 case 1 => 0x24c0 case 2 => 0x2580 case 3 => 0xe541
    case 4 => 0x2700 case 5 => 0xe7c1 case 6 => 0xe681 case 7 => 0x2640
    case 8 => 0x2200 case 9 => 0xe2c1 case 10 => 0xe381 case 11 => 0x2340
    case 12 => 0xe101 case 13 => 0x21c0 case 14 => 0x2080 case _ => 0xe041
  }

  function Row8(n: bv4): bv16 {
    match n
    case 0 => 0xa001 case 1 => 0x60c0 case 2 => 0x6180 case 3 => 0xa141
    case 4 => 0x6300 case 5 => 0xa3c1 case 6 => 0xa281 case 7 => 0x6240
    case 8 => 0x6600 case 9 => 0xa6c1 case 10 => 0xa781 case 11 => 0x6740
    case 12 => 0xa501 case 13 => 0x65c0 case 14 => 0x6480 case _ => 0xa441
  }

  function Row9(n: bv4): bv16 {
    match n
    case 0 => 0x6c00 case 1 => 0xacc1 case 2 => 0xad81 case 3 => 0x6d40
    case 4 => 0xaf01 case 5 => 0x6fc0 case 6 => 0x6e80 case 7 => 0xae41
    case 8 => 0xaa01 case 9 => 0x6ac0 case 10 => 0x6b80 case 11 => 0xab41
    case 12 => 0x6900 case 13 => 0xa9c1 case 14 => 0xa881 case _ => 0x6840
  }

  function RowA(n: bv4): bv16 {
    match n
    case 0 => 0x7800 case 1 => 0xb8c1 case 2 => 0xb981 case 3 => 0x7940
    case 4 => 0xbb01 case 5 => 0x7bc0 case 6 => 0x7a80 case 7 => 0xba41
    case 8 => 0xbe01 case 9 => 0x7ec0 case 10 => 0x7f80 case 11 => 0xbf41
    case 12 => 0x7d00 case 13 => 0xbdc1 case 14 => 0xbc81 case _ => 0x7c40
  }

  function RowB(n: bv4): bv16 {
    match n
    case 0 => 0xb401 case 1 => 0x74c0 case 2 => 0x7580 case 3 => 0xb541
    case 4 => 0x7700 case 5 => 0xb7c1 case 6 => 0xb681 case 7 => 0x7640
    case 8 => 0x7200 case 9 => 0xb2c1 case 10 => 0xb381 case 11 => 0x7340
    case 12 => 0xb101 case 13 => 0x71c0 case 14 => 0x7080 case _ => 0xb041
  }

  function RowC(n: bv4): bv16 {
    match n
    case 0 => 0x5000 case 1 => 0x90c1 case 2 => 0x9181 case 3 => 0x5140
    case 4 => 0x9301 case 5 => 0x53c0 case 6 => 0x5280 case 7 => 0x9241
    case 8 => 0x9601 case 9 => 0x56c0 case 10 => 0x5780 case 11 => 0x9741
    case 12 => 0x5500 case 13 => 0x95c1 case 14 => 0x9481 case _ => 0x5440
  }

  function RowD(n: bv4): bv16 {
    match n
    case 0 => 0x9c01 case 1 => 0x5cc0 case 2 => 0x5d80 case 3 => 0x9d41
    case 4 => 0x5f00 case 5 => 0x9fc1 case 6 => 0x9e81 case 7 => 0x5e40
    case 8 => 0x5a00 case 9 => 0x9ac1 case 10 => 0x9b81 case 11 => 0x5b40
    case 12 => 0x9901 case 13 => 0x59c0 case 14 => 0x5880 case _ => 0x9841
  }

  function RowE(n: bv4): bv16 {
    match n
    case 0 => 0x8801 case 1 => 0x48c0 case 2 => 0x4980 case 3 => 0x8941
    case 4 => 0x4b00 case 5 => 0x8bc1 case 6 => 0x8a81 case 7 => 0x4a40
    case 8 => 0x4e00 case 9 => 0x8ec1 case 10 => 0x8f81 case 11 => 0x4f40
    case 12 => 0x8d01 case 13 => 0x4dc0 case 14 => 0x4c80 case _ => 0x8c41
  }

  function RowF(n: bv4): bv16 {
    match n
    case 0 => 0x4400 case 1 => 0x84c1 case 2 => 0x8581 case 3 => 0x4540
    case 4 => 0x8701 case 5 => 0x47c0 case 6 => 0x4680 case 7 => 0x8641
    case 8 => 0x8201 case 9 => 0x42c0 case 10 => 0x4380 case 11 => 0x8341
    case 12 => 0x4100 case 13 => 0x81c1 case 14 => 0x8081 case _ => 0x4040
  }

  /** `CRC_TABLE[i]` */
  function CrcTable(i: bv8): bv16 {
    var n := (i & 0xf) as bv4;
    match (i >> 4) as bv4
    case 0 => Row0(n)
    case 1 => Row1(n)
    case 2 => Row2(n)
    case 3 => Row3(n)
    case 4 => Row4(n)
    case 5 => Row5(n)
    case 6 => Row6(n)
    case 7 => Row7(n)
    case 8 => Row8(n)
    case 9 => Row9(n)
    case 10 => RowA(n)
    case 11 => RowB(n)
    case 12 => RowC(n)
    case 13 => RowD(n)
    case 14 => RowE(n)
    case _ => RowF(n)
  }

  // ---------- The polynomial the table tabulates ----------

  /** One bit of the reflected division by 0x8005 (reversed: 0xA001). */
  function ShiftBit(x: bv16): bv16 {
    if x & 1 == 1 then (x >> 1) ^ 0xA001 else x >> 1
  }

  function ShiftByte(x: bv16): bv16 {
    ShiftBit(ShiftBit(ShiftBit(ShiftBit(ShiftBit(ShiftBit(ShiftBit(ShiftBit(x))))))))
  }

  lemma Row0IsShift(n: bv4)
    ensures Row0(n) == ShiftByte(n as bv16)
  {
  }

  lemma Row1IsShift(n: bv4)
    ensures Row1(n) == ShiftByte(0x10 | n as bv16)
  {
  }

  lemma Row2IsShift(n: bv4)
    ensures Row2(n) == ShiftByte(0x20 | n as bv16)
  {
  }

  lemma Row3IsShift(n: bv4)
    ensures Row3(n) == ShiftByte(0x30 | n as bv16)
  {
  }

  lemma Row4IsShift(n: bv4)
    ensures Row4(n) == ShiftByte(0x40 | n as bv16)
  {
  }

  lemma Row5IsShift(n: bv4)
    ensures Row5(n) == ShiftByte(0x50 | n as bv16)
  {
  }

  lemma Row6IsShift(n: bv4)
    ensures Row6(n) == ShiftByte(0x60 | n as bv16)
  {
  }

  lemma Row7IsShift(n: bv4)
    ensures Row7(n) == ShiftByte(0x70 | n as bv16)
  {
  }

  lemma Row8IsShift(n: bv4)
    ensures Row8(n) == ShiftByte(0x80 | n as bv16)
  {
  }

  lemma Row9IsShift(n: bv4)
    ensures Row9(n) == ShiftByte(0x90 | n as bv16)
  {
  }

  lemma RowAIsShift(n: bv4)
    ensures RowA(n) == ShiftByte(0xa0 | n as bv16)
  {
  }

  lemma RowBIsShift(n: bv4)
    ensures RowB(n) == ShiftByte(0xb0 | n as bv16)
  {
  }

  lemma RowCIsShift(n: bv4)
    ensures RowC(n) == ShiftByte(0xc0 | n as bv16)
  {
  }

  lemma RowDIsShift(n: bv4)
    ensures RowD(n) == ShiftByte(0xd0 | n as bv16)
  {
  }

  lemma RowEIsShift(n: bv4)
    ensures RowE(n) == ShiftByte(0xe0 | n as bv16)
  {
  }

  lemma RowFIsShift(n: bv4)
    ensures RowF(n) == ShiftByte(0xf0 | n as bv16)
  {
  }

  lemma TableIsShift(i: bv8)
    ensures CrcTable(i) == ShiftByte(i as bv16)
  {
    var n := (i & 0xf) as bv4;
    match (i >> 4) as bv4
    case 0 => Row0IsShift(n);
    case 1 => Row1IsShift(n);
    case 2 => Row2IsShift(n);
    case 3 => Row3IsShift(n);
    case 4 => Row4IsShift(n);
    case 5 => Row5IsShift(n);
    case 6 => Row6IsShift(n);
    case 7 => Row7IsShift(n);
    case 8 => Row8IsShift(n);
    case 9 => Row9IsShift(n);
    case 10 => RowAIsShift(n);
    case 11 => RowBIsShift(n);
    case 12 => RowCIsShift(n);
    case 13 => RowDIsShift(n);
    case 14 => RowEIsShift(n);
    case _ => RowFIsShift(n);
  }

  // ---------- One step, by polynomial and by table ----------

  function LowHalf(crc: bv16): bv8 {
    (crc & 0xff) as bv8
  }

  function HighHalf(crc: bv16): bv8 {
    (crc >> 8) as bv8
  }

  /** `crc >>> 8` */
  function ShiftRight8(crc: bv16): bv16 {
    crc >> 8
  }

  function Xor(x: bv16, y: bv16): bv16 {
    x ^ y
  }

  function XorByte(crc: bv16, b: bv8): bv16 {
    crc ^ b as bv16
  }

  /** Feed one byte to the register by polynomial division. */
  function Feed(crc: bv16, b: bv8): bv16 {
    ShiftByte(XorByte(crc, b))
  }

  /** Feed one byte as the code does: `CRC_TABLE[(crc ^ byte) & 0xff] ^ (crc >>> 8)`. */
  function FeedByTable(crc: bv16, b: bv8): bv16 {
    Xor(CrcTable(LowHalf(XorByte(crc, b))), ShiftRight8(crc))
  }

  predicate Odd(x: bv16) {
    x & 1 == 1
  }

  function Half(x: bv16): bv16 {
    x >> 1
  }

  function Reduced(x: bv16): bv16 {
    x ^ 0xA001
  }

  lemma ShiftBitParts(x: bv16)
    ensures ShiftBit(x) == if Odd(x) then Reduced(Half(x)) else Half(x)
  {
  }

  lemma HalfIsLinear(x: bv16, y: bv16)
    ensures Half(Xor(x, y)) == Xor(Half(x), Half(y))
  {
  }

  lemma OddIsLinear(x: bv16, y: bv16)
    ensures Odd(Xor(x, y)) <==> Odd(x) != Odd(y)
  {
  }

  lemma XorIs(x: bv16, y: bv16)
    ensures Xor(x, y) == x ^ y
  {
  }

  lemma ReducedIs(x: bv16)
    ensures Reduced(x) == x ^ 0xA001
  {
  }

  lemma XorCommutes(x: bv16, y: bv16)
    ensures Xor(x, y) == Xor(y, x)
  {
  }

  lemma ReducedLast(x: bv16, y: bv16, r: bv16, q: bv16)
    requires r == x ^ 0xA001 && q == x ^ y
    ensures r ^ y == q ^ 0xA001
  {
  }

  lemma ReducedLeft(x: bv16, y: bv16)
    ensures Xor(Reduced(x), y) == Reduced(Xor(x, y))
  {
    hide Xor, Reduced;
    var r, q := Reduced(x), Xor(x, y);
    ReducedIs(x);
    XorIs(x, y);
    XorIs(r, y);
    ReducedIs(q);
    ReducedLast(x, y, r, q);
  }

  lemma ReducedRight(x: bv16, y: bv16)
    ensures Xor(x, Reduced(y)) == Reduced(Xor(x, y))
  {
    hide Xor, Reduced;
    XorCommutes(x, Reduced(y));
    ReducedLeft(y, x);
    XorCommutes(x, y);
  }

  lemma ReducedTwice(x: bv16)
    ensures Reduced(Reduced(x)) == x
  {
    calc {
      Reduced(Reduced(x));
      (x ^ 0xA001) ^ 0xA001;
      x;
    }
  }

  /** Reduction is linear over exclusive or. */
  lemma ShiftBitIsLinear(x: bv16, y: bv16)
    ensures ShiftBit(Xor(x, y)) == Xor(ShiftBit(x), ShiftBit(y))
  {
    hide ShiftBit, Odd, Half, Reduced, Xor;
    ShiftBitParts(x);
    ShiftBitParts(y);
    ShiftBitParts(Xor(x, y));
    HalfIsLinear(x, y);
    OddIsLinear(x, y);
    var a, b := Half(x), Half(y);
    ReducedLeft(a, b);
    ReducedRight(a, b);
    ReducedLeft(a, Reduced(b));
    ReducedTwice(Xor(a, b));
  }

  lemma ShiftByteIsLinear(x: bv16, y: bv16)
    ensures ShiftByte(Xor(x, y)) == Xor(ShiftByte(x), ShiftByte(y))
  {
    hide ShiftBit, Xor;
    var x1, y1 := ShiftBit(x), ShiftBit(y);
    var x2, y2 := ShiftBit(x1), ShiftBit(y1);
    var x3, y3 := ShiftBit(x2), ShiftBit(y2);
    var x4, y4 := ShiftBit(x3), ShiftBit(y3);
    var x5, y5 := ShiftBit(x4), ShiftBit(y4);
    var x6, y6 := ShiftBit(x5), ShiftBit(y5);
    var x7, y7 := ShiftBit(x6), ShiftBit(y6);
    ShiftBitIsLinear(x, y);
    ShiftBitIsLinear(x1, y1);
    ShiftBitIsLinear(x2, y2);
    ShiftBitIsLinear(x3, y3);
    ShiftBitIsLinear(x4, y4);
    ShiftBitIsLinear(x5, y5);
    ShiftBitIsLinear(x6, y6);
    ShiftBitIsLinear(x7, y7);
  }

  lemma ZeroBit0ShiftsOut(h: bv8)
    ensures ShiftBit(h as bv16 << 8) == h as bv16 << 7
  {
  }

  lemma ZeroBit1ShiftsOut(h: bv8)
    ensures ShiftBit(h as bv16 << 7) == h as bv16 << 6
  {
  }

  lemma ZeroBit2ShiftsOut(h: bv8)
    ensures ShiftBit(h as bv16 << 6) == h as bv16 << 5
  {
  }

  lemma ZeroBit3ShiftsOut(h: bv8)
    ensures ShiftBit(h as bv16 << 5) == h as bv16 << 4
  {
  }

  lemma ZeroBit4ShiftsOut(h: bv8)
    ensures ShiftBit(h as bv16 << 4) == h as bv16 << 3
  {
  }

  lemma ZeroBit5ShiftsOut(h: bv8)
    ensures ShiftBit(h as bv16 << 3) == h as bv16 << 2
  {
  }

  lemma ZeroBit6ShiftsOut(h: bv8)
    ensures ShiftBit(h as bv16 << 2) == h as bv16 << 1
  {
  }

  lemma ZeroBit7ShiftsOut(h: bv8)
    ensures ShiftBit(h as bv16 << 1) == h as bv16
  {
  }

  lemma TopByteMovesDown(h: bv8)
    ensures ShiftByte(h as bv16 << 8) == h as bv16
  {
    hide ShiftBit;
    ZeroBit0ShiftsOut(h);
    ZeroBit1ShiftsOut(h);
    ZeroBit2ShiftsOut(h);
    ZeroBit3ShiftsOut(h);
    ZeroBit4ShiftsOut(h);
    ZeroBit5ShiftsOut(h);
    ZeroBit6ShiftsOut(h);
    ZeroBit7ShiftsOut(h);
  }

  lemma HalvesJoin(x: bv16)
    ensures x == Xor(LowHalf(x) as bv16, HighHalf(x) as bv16 << 8)
    ensures ShiftRight8(x) == HighHalf(x) as bv16
  {
  }

  lemma HighByteShiftsOut(x: bv16)
    ensures ShiftByte(x) == Xor(ShiftByte(LowHalf(x) as bv16), ShiftRight8(x))
  {
    hide ShiftByte, Xor, LowHalf, HighHalf, ShiftRight8;
    HalvesJoin(x);
    ShiftByteIsLinear(LowHalf(x) as bv16, HighHalf(x) as bv16 << 8);
    TopByteMovesDown(HighHalf(x));
  }

  lemma XorKeepsTop(crc: bv16, b: bv8)
    ensures ShiftRight8(XorByte(crc, b)) == ShiftRight8(crc)
  {
  }

  /** The table tabulates the polynomial. */
  lemma TableIsDivision(crc: bv16, b: bv8)
    ensures FeedByTable(crc, b) == Feed(crc, b)
  {
    hide CrcTable, ShiftByte, Xor, XorByte, LowHalf, ShiftRight8;
    XorKeepsTop(crc, b);
    TableIsShift(LowHalf(XorByte(crc, b)));
    HighByteShiftsOut(XorByte(crc, b));
  }

  // ---------- Checksum of a byte sequence ----------

  /** CRC register after `s`, starting from 0xFFFF. */
  function Crc(s: seq<byte>): bv16 {
    if s == [] then 0xFFFF else Feed(Crc(s[..|s| - 1]), Bits(s[|s| - 1]))
  }

  lemma CrcAppend(s: seq<byte>, b: byte)
    ensures Crc(s + [b]) == Feed(Crc(s), Bits(b))
  {
    hide Feed, Bits;
    assert (s + [b])[..|s|] == s;
  }

  method CrcFixed(data: seq<byte>, start: nat, end: nat) returns (crc: bv16)
    requires start <= end <= |data|
    ensures crc == Crc(data[start..end])
  {
    crc := CrcOver(0xFFFF, data, start, end, []);
    assert [] + data[start..end] == data[start..end];
  }

  /** The loop of both functions: continue from the register left by `before`. */
  method CrcOver(register: bv16, data: seq<byte>, start: nat, end: nat, ghost before: seq<byte>) returns (crc: bv16)
    requires start <= end <= |data| && register == Crc(before)
    ensures crc == Crc(before + data[start..end])
  {
    hide FeedByTable, Feed, Bits, Crc;
    crc := register;
    assert before + data[start..start] == before;
    for index := start to end
      invariant crc == Crc(before + data[start..index])
    {
      CrcAppend(before + data[start..index], data[index]);
      assert before + data[start..index + 1] == before + data[start..index] + [data[index]];
      TableIsDivision(crc, Bits(data[index]));
      crc := FeedByTable(crc, Bits(data[index]));
    }
  }

  method CrcDual(head: seq<byte>, headOff: nat, headLen: nat, tail: seq<byte>, tailOff: nat, tailLen: nat)
    returns (crc: bv16)
    requires headOff + headLen <= |head| && tailOff + tailLen <= |tail|
    ensures crc == Crc(head[headOff..headOff + headLen] + tail[tailOff..tailOff + tailLen])
  {
    hide Crc, Feed, Bits;
    crc := CrcFixed(head, headOff, headOff + headLen);
    crc := CrcOver(crc, tail, tailOff, tailOff + tailLen, head[headOff..headOff + headLen]);
  }

  // ---------- The trailer of a frame ----------

  /** `lo | (hi << 8)` */
  function Trailer(lo: bv8, hi: bv8): bv16 {
    lo as bv16 | (hi as bv16 << 8)
  }

  predicate CrcValid(frame: seq<byte>)
    requires 2 <= |frame|
  {
    var n := |frame| - 2;
    Trailer(Bits(frame[n]), Bits(frame[n + 1])) == Crc(frame[..n])
  }

  function WithCrc(body: seq<byte>): seq<byte> {
    body + [ByteOf(LowHalf(Crc(body))), ByteOf(HighHalf(Crc(body)))]
  }

  lemma TrailerTellsCrc(crc: bv16, lo: bv8, hi: bv8)
    ensures Trailer(lo, hi) == crc <==> lo == LowHalf(crc) && hi == HighHalf(crc)
  {
    assert LowHalf(Trailer(lo, hi)) == lo;
    assert HighHalf(Trailer(lo, hi)) == hi;
    assert Trailer(LowHalf(crc), HighHalf(crc)) == crc;
  }

  lemma WithCrcIsValid(body: seq<byte>)
    ensures CrcValid(WithCrc(body))
  {
    hide Bits, ByteOf, Trailer, Crc, LowHalf, HighHalf;
    var crc := Crc(body);
    assert WithCrc(body)[..|body|] == body;
    BitsOfByte(LowHalf(crc));
    BitsOfByte(HighHalf(crc));
    TrailerTellsCrc(crc, LowHalf(crc), HighHalf(crc));
  }

  // ---------- What the checksum detects ----------

  /** The inverse of `ShiftBit`: its top bit tells whether the polynomial was subtracted. */
  function UnshiftBit(y: bv16): bv16 {
    if y & 0x8000 == 0 then y << 1 else ((y ^ 0xA001) << 1) | 1
  }

  function UnshiftByte(y: bv16): bv16 {
    UnshiftBit(UnshiftBit(UnshiftBit(UnshiftBit(UnshiftBit(UnshiftBit(UnshiftBit(UnshiftBit(y))))))))
  }

  lemma UnshiftBitInverts(x: bv16)
    ensures UnshiftBit(ShiftBit(x)) == x
  {
  }

  lemma UnshiftByteInverts(x: bv16)
    ensures UnshiftByte(ShiftByte(x)) == x
  {
    hide ShiftBit, UnshiftBit;
    var x1 := ShiftBit(x);
    var x2 := ShiftBit(x1);
    var x3 := ShiftBit(x2);
    var x4 := ShiftBit(x3);
    var x5 := ShiftBit(x4);
    var x6 := ShiftBit(x5);
    var x7 := ShiftBit(x6);
    UnshiftBitInverts(x);
    UnshiftBitInverts(x1);
    UnshiftBitInverts(x2);
    UnshiftBitInverts(x3);
    UnshiftBitInverts(x4);
    UnshiftBitInverts(x5);
    UnshiftBitInverts(x6);
    UnshiftBitInverts(x7);
  }

  lemma ShiftByteInjective(x: bv16, y: bv16)
    requires ShiftByte(x) == ShiftByte(y)
    ensures x == y
  {
    hide ShiftByte, UnshiftByte;
    UnshiftByteInverts(x);
    UnshiftByteInverts(y);
  }

  lemma XorInjective(c: bv16, d: bv16, b: bv8)
    requires XorByte(c, b) == XorByte(d, b)
    ensures c == d
  {
  }

  lemma FeedTellsState(c: bv16, d: bv16, b: bv8)
    requires Feed(c, b) == Feed(d, b)
    ensures c == d
  {
    hide ShiftByte, XorByte;
    ShiftByteInjective(XorByte(c, b), XorByte(d, b));
    XorInjective(c, d, b);
  }

  /** A byte that leaves nothing in the top half was 0: run backwards, the low half would rise out of it. */
  lemma TopByteTellsZero(d: bv8)
    requires HighHalf(ShiftByte(d as bv16)) == 0
    ensures d == 0
  {
    hide ShiftByte, HighHalf, LowHalf, Xor;
    var t := ShiftByte(d as bv16);
    NoTop(t);
    TopByteMovesDown(LowHalf(t));
    ShiftByteInjective(d as bv16, LowHalf(t) as bv16 << 8);
    OnlyZeroIsBoth(d, LowHalf(t));
  }

  lemma NoTop(t: bv16)
    requires HighHalf(t) == 0
    ensures t == LowHalf(t) as bv16
  {
  }

  lemma OnlyZeroIsBoth(d: bv8, h: bv8)
    requires d as bv16 == h as bv16 << 8
    ensures d == 0
  {
  }

  lemma TopByteTellsByte(c: bv16, a: bv8, b: bv8)
    requires HighHalf(ShiftByte(XorByte(c, a))) == HighHalf(ShiftByte(XorByte(c, b)))
    ensures a == b
  {
    hide ShiftByte, HighHalf, Xor, XorByte;
    var x, y := XorByte(c, a), XorByte(c, b);
    ShiftByteIsLinear(x, y);
    EqualTopsCancel(ShiftByte(x), ShiftByte(y));
    BytesCancel(c, a, b);
    TopByteTellsZero(a ^ b);
  }

  lemma EqualTopsCancel(x: bv16, y: bv16)
    requires HighHalf(x) == HighHalf(y)
    ensures HighHalf(Xor(x, y)) == 0
  {
  }

  lemma BytesCancel(c: bv16, a: bv8, b: bv8)
    ensures Xor(XorByte(c, a), XorByte(c, b)) == (a ^ b) as bv16
    ensures a ^ b == 0 ==> a == b
  {
  }

  lemma HighHalfTellsByte(c: bv16, a: bv8, b: bv8)
    requires HighHalf(Feed(c, a)) == HighHalf(Feed(c, b))
    ensures a == b
  {
    hide ShiftByte, HighHalf, XorByte;
    TopByteTellsByte(c, a, b);
  }

  lemma XorAlmostTellsState(x: bv16, y: bv16, b: bv8, b': bv8)
    requires XorByte(x, b) == XorByte(y, b')
    ensures HighHalf(x) == HighHalf(y)
    ensures x == y ==> b == b'
  {
  }

  /** From one state, two different pairs of bytes never lead to the same state. */
  lemma FeedTwiceTellsBytes(c: bv16, a: bv8, b: bv8, a': bv8, b': bv8)
    requires Feed(Feed(c, a), b) == Feed(Feed(c, a'), b')
    ensures a == a' && b == b'
  {
    hide ShiftByte, XorByte, HighHalf;
    var x, y := Feed(c, a), Feed(c, a');
    ShiftByteInjective(XorByte(x, b), XorByte(y, b'));
    XorAlmostTellsState(x, y, b, b');
    HighHalfTellsByte(c, a, a');
  }

  /** Damage confined to two adjacent bytes always changes the checksum, whatever the length. */
  lemma {:induction false} AdjacentDamageChangesCrc(s: seq<byte>, t: seq<byte>, k: nat)
    requires |s| == |t| && k + 1 < |s| && s != t
    requires forall i :: 0 <= i < |s| && i != k && i != k + 1 ==> s[i] == t[i]
    ensures Crc(s) != Crc(t)
  {
    hide Feed, Bits, ByteOf;
    var n := |s| - 1;
    if Crc(s) == Crc(t) {
      if k + 1 < n {
        FeedTellsState(Crc(s[..n]), Crc(t[..n]), Bits(s[n]));
        assert s == s[..n] + [s[n]] && t == t[..n] + [t[n]];
        AdjacentDamageChangesCrc(s[..n], t[..n], k);
      } else {
        var p := s[..k];
        assert s == p + [s[k]] + [s[n]] && t == p + [t[k]] + [t[n]];
        CrcAppend(p, s[k]);
        CrcAppend(p, t[k]);
        CrcAppend(p + [s[k]], s[n]);
        CrcAppend(p + [t[k]], t[n]);
        FeedTwiceTellsBytes(Crc(p), Bits(s[k]), Bits(s[n]), Bits(t[k]), Bits(t[n]));
        ByteOfBits(s[k]);
        ByteOfBits(t[k]);
        ByteOfBits(s[n]);
        ByteOfBits(t[n]);
      }
    }
  }

  lemma FeedOwnLowHalf(c: bv16)
    ensures Feed(c, LowHalf(c)) == HighHalf(c) as bv16
  {
  }

  lemma XorToZero(x: bv16, b: bv8)
    ensures XorByte(x, b) == 0 <==> x == b as bv16
  {
  }

  lemma ShiftByteOfZero()
    ensures ShiftByte(0) == 0
  {
  }

  lemma FeedToZero(x: bv16, b: bv8)
    ensures Feed(x, b) == 0 <==> x == b as bv16
  {
    hide ShiftByte, XorByte;
    ShiftByteOfZero();
    XorToZero(x, b);
    if Feed(x, b) == 0 {
      ShiftByteInjective(XorByte(x, b), 0);
    }
  }

  lemma ByteHasNoHighHalf(a: bv8, b: bv8)
    ensures HighHalf(a as bv16) == 0
    ensures a as bv16 == b as bv16 ==> a == b
  {
  }

  lemma ResidueOfTrailer(c: bv16, lo: bv8, hi: bv8)
    ensures Feed(Feed(c, lo), hi) == 0 <==> Trailer(lo, hi) == c
  {
    hide Feed, Trailer, LowHalf, HighHalf;
    TrailerTellsCrc(c, lo, hi);
    FeedToZero(Feed(c, lo), hi);
    FeedOwnLowHalf(c);
    ByteHasNoHighHalf(hi, HighHalf(c));
    ByteHasNoHighHalf(HighHalf(c), hi);
    if Feed(c, lo) == hi as bv16 {
      HighHalfTellsByte(c, lo, LowHalf(c));
    }
  }

  /** A frame carries the right trailer exactly when the checksum over all its bytes is 0. */
  lemma ValidIffResidueZero(frame: seq<byte>)
    requires 2 <= |frame|
    ensures CrcValid(frame) <==> Crc(frame) == 0
  {
    hide Feed, Bits, Trailer;
    var n := |frame| - 2;
    assert frame[..n + 1][..n] == frame[..n];
    ResidueOfTrailer(Crc(frame[..n]), Bits(frame[n]), Bits(frame[n + 1]));
  }

  /** No damage confined to two adjacent bytes of a valid frame, trailer included, goes unnoticed. */
  lemma AdjacentDamageIsDetected(frame: seq<byte>, damaged: seq<byte>, k: nat)
    requires 2 <= |frame| == |damaged| && k + 1 < |frame| && frame != damaged
    requires forall i :: 0 <= i < |frame| && i != k && i != k + 1 ==> frame[i] == damaged[i]
    requires CrcValid(frame)
    ensures !CrcValid(damaged)
  {
    hide CrcValid, Crc;
    ValidIffResidueZero(frame);
    ValidIffResidueZero(damaged);
    AdjacentDamageChangesCrc(frame, damaged, k);
  }
}
