/**
  The file system's checksum, four bits at a time by a table of sixteen words, and the property
  that the metadata pairs rest on: a running checksum followed by its own little-endian bytes
  leaves zero, and no other four bytes do.
*/
module LfsCrc {
  import opened Gf2Poly
  import opened Crc

  const RTABLE: seq<Word32> := [
    0x00000000, 0x1db71064, 0x3b6e20c8, 0x26d930ac,
    0x76dc4190, 0x6b6b51f4, 0x4db26158, 0x5005713c,
    0xedb88320, 0xf00f9344, 0xd6d6a3e8, 0xcb61b38c,
    0x9b64c2b0, 0x86d3d2d4, 0xa00ae278, 0xbdbdf21c
  ]

  /** One nibble: the low four bits of d select the table entry. */
  function NibbleStep(c: Word32, d: nat): Word32 {
    Xor32(c / 16, RTABLE[Xor(c, d) % 16])
  }

  function CrcByte(c: Word32, b: Byte): Word32 {
    NibbleStep(NibbleStep(c, b), b / 16)
  }

  function CrcOf(c: Word32, data: seq<Byte>): Word32
    decreases |data|
  {
    if data == [] then c else CrcOf(CrcByte(c, data[0]), data[1..])
  }

  /** lfs_crc: updates the running checksum over a buffer. */
  method Update(crc: Word32, buffer: seq<Byte>) returns (r: Word32)
    ensures r == CrcOf(crc, buffer) == Register(crc, buffer)
  {
    CrcIsRegister(crc, buffer);
    r := crc;
    for i := 0 to |buffer|
      invariant CrcOf(r, buffer[i..]) == CrcOf(crc, buffer)
    {
      var b := buffer[i];
      assert buffer[i..][1..] == buffer[i + 1..];
      r := Xor32(r / 16, RTABLE[Xor(r, b) % 16]);
      r := Xor32(r / 16, RTABLE[Xor(r, b / 16) % 16]);
    }
  }

  lemma {:induction false} CrcAppend(c: Word32, a: seq<Byte>, b: seq<Byte>)
    ensures CrcOf(c, a + b) == CrcOf(CrcOf(c, a), b)
    decreases |a|
  {
    if a == [] { assert a + b == b; } else {
      assert (a + b)[1..] == a[1..] + b;
      CrcAppend(CrcByte(c, a[0]), a[1..], b);
    }
  }

  // ---------- which nibble leaves the table out ----------

  lemma XorNibbles(a: nat, x: nat, b: nat, y: nat)
    requires x < 16 && y < 16
    ensures Xor(16 * a + x, 16 * b + y) == 16 * Xor(a, b) + Xor(x, y) && Xor(x, y) < 16
  {
    assert Pow2(4) == 16;
    XorSplit(4, a, x, b, y);
    ShlNibble(a); ShlNibble(b); ShlNibble(Xor(a, b));
  }

  lemma XorParts(a: nat, b: nat)
    ensures Xor(a, b) / 16 == Xor(a / 16, b / 16) && Xor(a, b) % 16 == Xor(a % 16, b % 16)
  {
    var a', x, b', y := a / 16, a % 16, b / 16, b % 16;
    assert a == 16 * a' + x && b == 16 * b' + y;
    XorNibbles(a', x, b', y);
    NibbleParts(Xor(a', b'), Xor(x, y));
  }

  lemma NibbleParts(h: nat, low: nat)
    requires low < 16
    ensures (16 * h + low) % 16 == low && (16 * h + low) / 16 == h
  {}

  /** A nibble equal to the register's own shifts it, any other leaves a set bit in the top nibble. */
  lemma NibbleCase(c: Word32, d: nat)
    ensures if c % 16 == d % 16 then NibbleStep(c, d) == c / 16 else NibbleStep(c, d) >= 0x1000_0000
  {
    XorParts(c, d);
    var k := Xor(c, d) % 16;
    XorZeroIff(c % 16, d % 16);
    if k == 0 {
      XorZero(c / 16);
    } else {
      assert RTABLE[k] >= 0x1000_0000;
      XorAbove(c / 16, RTABLE[k]);
    }
  }

  lemma XorAbove(a: nat, b: nat)
    requires a < 0x1000_0000 <= b
    ensures Xor(a, b) >= 0x1000_0000
  {
    Powers32();
    LenBelow(a, 28); LenBelow(b, 28);
    if Xor(a, b) < 0x1000_0000 {
      XorBound(a, Xor(a, b), 28);
      XorCancel(b, a);
      XorComm(a, b);
      XorCancel(b, a);
      assert false;
    }
  }

  /** A register below 2^24 after a byte means that the byte was the register's own low byte. */
  lemma ByteBack(c: Word32, b: Byte)
    requires CrcByte(c, b) < 0x100_0000
    ensures c == 256 * CrcByte(c, b) + b
  {
    var m, r := NibbleStep(c, b), CrcByte(c, b);
    var high, low := b / 16, b % 16;
    NibbleParts(0, high);
    NibbleCase(m, high);
    assert m == 16 * r + high;
    NibbleCase(c, b);
    assert c == 16 * m + low;
  }

  lemma ByteForth(r: nat, b: Byte)
    requires r < 0x100_0000
    ensures CrcByte(256 * r + b, b) == r
  {
    var c, high, low := 256 * r + b, b / 16, b % 16;
    assert c == 16 * (16 * r + high) + low;
    NibbleParts(16 * r + high, low);
    NibbleParts(r, high);
    NibbleParts(0, high);
    NibbleCase(c, b);
    NibbleCase(16 * r + high, high);
  }

  // ---------- the zero residue ----------

  /** The word with the given bytes, low byte first. */
  function FromBytes(b0: nat, b1: nat, b2: nat, b3: nat): nat {
    b0 + 256 * (b1 + 256 * (b2 + 256 * b3))
  }

  function FromLe32(bs: seq<Byte>): Word32
    requires |bs| == 4
  {
    FromBytes(bs[0], bs[1], bs[2], bs[3])
  }

  /** Little-endian bytes of a word. */
  function Le32(w: Word32): (bs: seq<Byte>)
    ensures |bs| == 4
  {
    [w % 256, w / 256 % 256, w / 256 / 256 % 256, w / 256 / 256 / 256]
  }

  lemma LeRoundTrip(w: Word32)
    ensures FromLe32(Le32(w)) == w
  {}

  lemma LeUnique(bs: seq<Byte>)
    requires |bs| == 4
    ensures Le32(FromLe32(bs)) == bs
  {
    var b0: nat, b1: nat, b2: nat, b3: nat := bs[0], bs[1], bs[2], bs[3];
    var h2 := b2 + 256 * b3;
    var h1 := b1 + 256 * h2;
    LowByte(b0, h1); LowByte(b1, h2); LowByte(b2, b3);
  }

  lemma LowByte(b: nat, h: nat)
    requires b < 256
    ensures (b + 256 * h) % 256 == b && (b + 256 * h) / 256 == h
  {}

  lemma CrcCons(c: Word32, b: Byte, rest: seq<Byte>)
    ensures CrcOf(c, [b] + rest) == CrcOf(CrcByte(c, b), rest)
  {
    assert ([b] + rest)[1..] == rest;
  }

  function FourBytes(c: Word32, b0: Byte, b1: Byte, b2: Byte, b3: Byte): Word32 {
    CrcByte(CrcByte(CrcByte(CrcByte(c, b0), b1), b2), b3)
  }

  lemma CrcOfFour(c: Word32, bs: seq<Byte>)
    requires |bs| == 4
    ensures CrcOf(c, bs) == FourBytes(c, bs[0], bs[1], bs[2], bs[3])
  {
    var c1 := CrcByte(c, bs[0]);
    var c2 := CrcByte(c1, bs[1]);
    var c3 := CrcByte(c2, bs[2]);
    assert bs == [bs[0]] + ([bs[1]] + ([bs[2]] + ([bs[3]] + [])));
    CrcCons(c, bs[0], [bs[1]] + ([bs[2]] + ([bs[3]] + [])));
    CrcCons(c1, bs[1], [bs[2]] + ([bs[3]] + []));
    CrcCons(c2, bs[2], [bs[3]] + []);
    CrcCons(c3, bs[3], []);
  }

  lemma FourBytesZero(c: Word32, b0: Byte, b1: Byte, b2: Byte, b3: Byte)
    ensures FourBytes(c, b0, b1, b2, b3) == 0 ==> c == FromBytes(b0, b1, b2, b3)
  {
    var c1 := CrcByte(c, b0);
    var c2 := CrcByte(c1, b1);
    var c3 := CrcByte(c2, b2);
    if CrcByte(c3, b3) == 0 {
      ByteBack(c3, b3); ByteBack(c2, b2); ByteBack(c1, b1); ByteBack(c, b0);
    }
  }

  lemma OwnBytesZero(b0: Byte, b1: Byte, b2: Byte, b3: Byte)
    ensures FourBytes(FromBytes(b0, b1, b2, b3), b0, b1, b2, b3) == 0
  {
    hide CrcByte, CrcOf;
    var n0: nat, n1: nat, n2: nat, n3: nat := b0, b1, b2, b3;
    ByteForth(n1 + 256 * (n2 + 256 * n3), b0);
    ByteForth(n2 + 256 * n3, b1);
    ByteForth(n3, b2);
    ByteForth(0, b3);
  }

  /**
    The residue: four bytes bring the checksum to zero exactly when they are its own
    little-endian bytes.
  */
  lemma ResidueZero(c: Word32, bs: seq<Byte>)
    requires |bs| == 4
    ensures CrcOf(c, bs) == 0 <==> bs == Le32(c)
  {
    CrcOfFour(c, bs);
    LeUnique(bs); LeRoundTrip(c);
    FourBytesZero(c, bs[0], bs[1], bs[2], bs[3]);
    OwnBytesZero(bs[0], bs[1], bs[2], bs[3]);
  }

  // ---------- the table ----------

  /** Eight hexadecimal digits. */
  function Hex(d7: nat, d6: nat, d5: nat, d4: nat, d3: nat, d2: nat, d1: nat, d0: nat): nat {
    16 * (16 * (16 * (16 * (16 * (16 * (16 * d7 + d6) + d5) + d4) + d3) + d2) + d1) + d0
  }

  ghost predicate Digit(a: nat, b: nat, c: nat) {
    a < 16 && b < 16 && Xor(a, b) == c
  }

  /** Exclusive-or of words, digit by digit. */
  lemma XorHex(a7: nat, a6: nat, a5: nat, a4: nat, a3: nat, a2: nat, a1: nat, a0: nat,
               b7: nat, b6: nat, b5: nat, b4: nat, b3: nat, b2: nat, b1: nat, b0: nat,
               c7: nat, c6: nat, c5: nat, c4: nat, c3: nat, c2: nat, c1: nat, c0: nat)
    requires Digit(a7, b7, c7) && Digit(a6, b6, c6) && Digit(a5, b5, c5) && Digit(a4, b4, c4)
    requires Digit(a3, b3, c3) && Digit(a2, b2, c2) && Digit(a1, b1, c1) && Digit(a0, b0, c0)
    ensures Xor(Hex(a7, a6, a5, a4, a3, a2, a1, a0), Hex(b7, b6, b5, b4, b3, b2, b1, b0))
         == Hex(c7, c6, c5, c4, c3, c2, c1, c0)
  {
    hide Xor;
    var x6, y6 := 16 * a7 + a6, 16 * b7 + b6;
    XorNibbles(a7, a6, b7, b6);
    var x5, y5 := 16 * x6 + a5, 16 * y6 + b5;
    XorNibbles(x6, a5, y6, b5);
    var x4, y4 := 16 * x5 + a4, 16 * y5 + b4;
    XorNibbles(x5, a4, y5, b4);
    var x3, y3 := 16 * x4 + a3, 16 * y4 + b3;
    XorNibbles(x4, a3, y4, b3);
    var x2, y2 := 16 * x3 + a2, 16 * y3 + b2;
    XorNibbles(x3, a2, y3, b2);
    var x1, y1 := 16 * x2 + a1, 16 * y2 + b1;
    XorNibbles(x2, a1, y2, b1);
    XorNibbles(x1, a0, y1, b0);
  }

  /** Entries for a single bit: the bit runs down and brings the polynomial in, which runs on. */
  lemma SingleBits(n: nat)
    requires n == 4
    ensures Steps(1, n) == 0x1db71064 && Steps(2, n) == 0x3b6e20c8 && Steps(4, n) == 0x76dc4190 && Steps(8, n) == POLY
  {
    FirstBit();
    hide Xor, Steps, BitStep;
    var p: Word32, q: Word32, r: Word32 := POLY, 0x76dc4190, 0x3b6e20c8;
    StepDown(r, 0x1db71064, 1);
    StepDown(q, r, 1); StepDown(q, r, 2);
    StepDown(p, q, 1); StepDown(p, q, 2); StepDown(p, q, 3);
    StepFirst(1, p, 1); StepFirst(1, p, 2); StepFirst(1, p, 3); StepFirst(1, p, n);
    StepDown(2, 1, 2); StepDown(2, 1, 3); StepDown(2, 1, n);
    StepDown(4, 2, 3); StepDown(4, 2, n);
    StepDown(8, 4, n);
  }

  lemma FirstBit()
    ensures BitStep(1) == POLY
  {
    hide Xor;
    XorZero(POLY);
  }

  lemma StepFirst(c: Word32, next: Word32, n: nat)
    requires n > 0 && BitStep(c) == next
    ensures Steps(c, n) == Steps(next, n - 1) && Steps(next, 0) == next
  {}

  lemma StepDown(c: Word32, next: Word32, n: nat)
    requires n > 0 && c == 2 * next
    ensures Steps(c, n) == Steps(next, n - 1) && Steps(next, 0) == next
  {}


  lemma Word3()
    ensures Xor(0x3b6e20c8, 0x1db71064) == 0x26d930ac
  {
    XorHex(3, 11, 6, 14, 2, 0, 12, 8,
           1, 13, 11, 7, 1, 0, 6, 4,
           2, 6, 13, 9, 3, 0, 10, 12);
    hide Xor;
  }

  lemma Word5()
    ensures Xor(0x76dc4190, 0x1db71064) == 0x6b6b51f4
  {
    XorHex(7, 6, 13, 12, 4, 1, 9, 0,
           1, 13, 11, 7, 1, 0, 6, 4,
           6, 11, 6, 11, 5, 1, 15, 4);
    hide Xor;
  }

  lemma Word6()
    ensures Xor(0x76dc4190, 0x3b6e20c8) == 0x4db26158
  {
    XorHex(7, 6, 13, 12, 4, 1, 9, 0,
           3, 11, 6, 14, 2, 0, 12, 8,
           4, 13, 11, 2, 6, 1, 5, 8);
    hide Xor;
  }

  lemma Word7()
    ensures Xor(0x76dc4190, 0x26d930ac) == 0x5005713c
  {
    XorHex(7, 6, 13, 12, 4, 1, 9, 0,
           2, 6, 13, 9, 3, 0, 10, 12,
           5, 0, 0, 5, 7, 1, 3, 12);
    hide Xor;
  }

  lemma Word9()
    ensures Xor(0xedb88320, 0x1db71064) == 0xf00f9344
  {
    XorHex(14, 13, 11, 8, 8, 3, 2, 0,
           1, 13, 11, 7, 1, 0, 6, 4,
           15, 0, 0, 15, 9, 3, 4, 4);
    hide Xor;
  }

  lemma Word10()
    ensures Xor(0xedb88320, 0x3b6e20c8) == 0xd6d6a3e8
  {
    XorHex(14, 13, 11, 8, 8, 3, 2, 0,
           3, 11, 6, 14, 2, 0, 12, 8,
           13, 6, 13, 6, 10, 3, 14, 8);
    hide Xor;
  }

  lemma Word11()
    ensures Xor(0xedb88320, 0x26d930ac) == 0xcb61b38c
  {
    XorHex(14, 13, 11, 8, 8, 3, 2, 0,
           2, 6, 13, 9, 3, 0, 10, 12,
           12, 11, 6, 1, 11, 3, 8, 12);
    hide Xor;
  }

  lemma Word12()
    ensures Xor(0xedb88320, 0x76dc4190) == 0x9b64c2b0
  {
    XorHex(14, 13, 11, 8, 8, 3, 2, 0,
           7, 6, 13, 12, 4, 1, 9, 0,
           9, 11, 6, 4, 12, 2, 11, 0);
    hide Xor;
  }

  lemma Word13()
    ensures Xor(0xedb88320, 0x6b6b51f4) == 0x86d3d2d4
  {
    XorHex(14, 13, 11, 8, 8, 3, 2, 0,
           6, 11, 6, 11, 5, 1, 15, 4,
           8, 6, 13, 3, 13, 2, 13, 4);
    hide Xor;
  }

  lemma Word14()
    ensures Xor(0xedb88320, 0x4db26158) == 0xa00ae278
  {
    XorHex(14, 13, 11, 8, 8, 3, 2, 0,
           4, 13, 11, 2, 6, 1, 5, 8,
           10, 0, 0, 10, 14, 2, 7, 8);
    hide Xor;
  }

  lemma Word15()
    ensures Xor(0xedb88320, 0x5005713c) == 0xbdbdf21c
  {
    XorHex(14, 13, 11, 8, 8, 3, 2, 0,
           5, 0, 0, 5, 7, 1, 3, 12,
           11, 13, 11, 13, 15, 2, 1, 12);
    hide Xor;
  }

  /** What four steps make of two nibbles together. */
  lemma Together(j: Word32, k: Word32, m: Word32, a: Word32, b: Word32, c: Word32, n: nat)
    requires Steps(j, n) == a && Steps(k, n) == b && Xor(j, k) == m && Xor(a, b) == c
    ensures Steps(m, n) == c
  {
    hide Steps, Xor;
    StepsXor(j, k, n);
  }

  lemma SmallXors()
    ensures Xor(2, 1) == 3 && Xor(4, 1) == 5 && Xor(4, 2) == 6 && Xor(4, 3) == 7
    ensures Xor(8, 1) == 9 && Xor(8, 2) == 10 && Xor(8, 3) == 11 && Xor(8, 4) == 12
    ensures Xor(8, 5) == 13 && Xor(8, 6) == 14 && Xor(8, 7) == 15
  {}

  lemma LowEntries(n: nat)
    requires n == 4
    ensures Steps(0, n) == 0x00000000 && Steps(1, n) == 0x1db71064 && Steps(2, n) == 0x3b6e20c8
      && Steps(3, n) == 0x26d930ac
    ensures Steps(4, n) == 0x76dc4190 && Steps(5, n) == 0x6b6b51f4 && Steps(6, n) == 0x4db26158
      && Steps(7, n) == 0x5005713c
  {
    hide Steps, Xor;
    StepsZero(n);
    SingleBits(n);
    SmallXors();
    Word3(); Together(2, 1, 3, 0x3b6e20c8, 0x1db71064, 0x26d930ac, n);
    Word5(); Together(4, 1, 5, 0x76dc4190, 0x1db71064, 0x6b6b51f4, n);
    Word6(); Together(4, 2, 6, 0x76dc4190, 0x3b6e20c8, 0x4db26158, n);
    Word7(); Together(4, 3, 7, 0x76dc4190, 0x26d930ac, 0x5005713c, n);
  }

  lemma HighEntries(n: nat)
    requires n == 4
    ensures Steps(8, n) == 0xedb88320 && Steps(9, n) == 0xf00f9344 && Steps(10, n) == 0xd6d6a3e8
      && Steps(11, n) == 0xcb61b38c
    ensures Steps(12, n) == 0x9b64c2b0 && Steps(13, n) == 0x86d3d2d4 && Steps(14, n) == 0xa00ae278
      && Steps(15, n) == 0xbdbdf21c
  {
    hide Steps, Xor;
    LowEntries(n);
    SingleBits(n);
    SmallXors();
    Word9(); Together(8, 1, 9, 0xedb88320, 0x1db71064, 0xf00f9344, n);
    Word10(); Together(8, 2, 10, 0xedb88320, 0x3b6e20c8, 0xd6d6a3e8, n);
    Word11(); Together(8, 3, 11, 0xedb88320, 0x26d930ac, 0xcb61b38c, n);
    Word12(); Together(8, 4, 12, 0xedb88320, 0x76dc4190, 0x9b64c2b0, n);
    Word13(); Together(8, 5, 13, 0xedb88320, 0x6b6b51f4, 0x86d3d2d4, n);
    Word14(); Together(8, 6, 14, 0xedb88320, 0x4db26158, 0xa00ae278, n);
    Word15(); Together(8, 7, 15, 0xedb88320, 0x5005713c, 0xbdbdf21c, n);
  }

  /** The table holds what four bit steps make of a nibble. */
  lemma TableIs(k: nat, n: nat)
    requires k < 16 && n == 4
    ensures RTABLE[k] == Steps(k, n)
  {
    if k < 8 { TableLow(k, n); } else { TableHigh(k, n); }
  }

  lemma TableLow(k: nat, n: nat)
    requires k < 8 && n == 4
    ensures RTABLE[k] == Steps(k, n)
  {
    LowEntries(n);
    hide Steps;
  }

  lemma TableHigh(k: nat, n: nat)
    requires 8 <= k < 16 && n == 4
    ensures RTABLE[k] == Steps(k, n)
  {
    HighEntries(n);
    hide Steps;
  }

  /** A nibble by table is four bits through the register; bits of d above the nibble stay to be taken in. */
  lemma NibbleIs(c: Word32, d: Word32, n: nat)
    requires n == 4
    ensures Xor32(NibbleStep(c, d), d / 16) == Steps(Xor32(c, d), n)
  {
    var x: nat := Xor32(c, d);
    var high, low := x / 16, x % 16;
    XorParts(c, d);
    FourBits();
    ShlNibble(high);
    hide Xor, Steps, Shl, Pow2;
    TableIs(low, n);
    StepsSplit(high, low, n);
    XorAssoc(c / 16, RTABLE[low], d / 16); XorComm(RTABLE[low], d / 16); XorAssoc(c / 16, d / 16, RTABLE[low]);
  }

  lemma FourBits()
    ensures Pow2(4) == 16
  {}

  lemma NibbleIsLast(c: Word32, d: nat, n: nat)
    requires n == 4 && d < 16
    ensures NibbleStep(c, d) == Steps(Xor32(c, d), n)
  {
    NibbleIs(c, d, n);
    XorZero(NibbleStep(c, d));
  }

  /** A byte by table is a byte through the bit-serial register. */
  lemma ByteIs(c: Word32, b: Byte)
    ensures CrcByte(c, b) == ByteStep(c, b)
  {
    hide Xor, Steps, NibbleStep;
    var n: nat :| n == 4;
    var m := NibbleStep(c, b);
    NibbleIs(c, b, n);
    NibbleIsLast(m, b / 16, n);
    StepsAdd(Xor32(c, b), n, n);
  }

  /** lfs_crc is the bit-serial register. */
  lemma {:induction false} CrcIsRegister(c: Word32, data: seq<Byte>)
    ensures CrcOf(c, data) == Register(c, data)
    decreases |data|
  {
    if data != [] {
      ByteIs(c, data[0]);
      CrcIsRegister(CrcByte(c, data[0]), data[1..]);
    }
  }
}
