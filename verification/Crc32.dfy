/**
  zlib's CRC-32: tables for one to four bytes, the loop that takes four bytes at a time, and the
  combination of two checksums by powers of the zero-bit operator. Each agrees with the bit-serial
  register of module Crc.
*/
module Crc32 {
  import opened Gf2Poly
  import opened Crc
  import opened LfsCrc

  /** ~c */
  function Not32(c: Word32): Word32 {
    0xffff_ffff - c
  }

  /** crc32(crc, data), bit by bit: complement, run the register, complement. */
  function Checksum(crc: Word32, data: seq<Byte>): Word32 {
    Not32(Register(Not32(crc), data))
  }

  lemma {:induction false} XorOnes(c: nat, k: nat)
    requires c < Pow2(k)
    ensures Xor(c, Pow2(k) - 1) == Pow2(k) - 1 - c
    decreases k
  {
    if k == 0 { XorZero(0); } else {
      XorOnes(c / 2, k - 1);
      XorStep(c, Pow2(k) - 1);
    }
  }

  lemma NotIsXor(c: Word32)
    ensures Xor32(c, 0xffff_ffff) == Not32(c) && Not32(Not32(c)) == c
  {
    Powers32();
    XorOnes(c, 32);
  }

  // ---------- tables ----------

  lemma ByteParts(high: nat, low: nat)
    requires low < 256
    ensures (256 * high + low) % 256 == low && (256 * high + low) / 256 == high
  {}

  lemma ShlByte(a: nat)
    ensures Shl(a, 8) == 256 * a
  {
    ShlFour(a, 0); ShlFour(a, 4);
  }

  /** Eight bits at once: the low byte goes through the register, the rest shifts. */
  lemma EightSteps(c: Word32)
    ensures Steps(c, 8) == Xor32(Steps(c % 256, 8), c / 256)
  {
    var high, low := c / 256, c % 256;
    Powers32(); ShlByte(high);
    StepsSplit(high, low, 8);
    XorComm(high, Steps(low, 8));
  }

  /** Zero bytes at the bottom of the register only shift. */
  lemma EightStepsShifted(a: nat)
    requires a < 0x100_0000
    ensures Steps(256 * a, 8) == a
  {
    ShlByte(a);
    StepsShl(a, 0, 8);
  }

  /** The four tables: table k holds the register after the byte and k zero bytes. */
  ghost predicate IsTable(t: array2<Word32>)
    reads t
  {
    t.Length0 == 4 && t.Length1 == 256 && forall k: nat, n: nat :: k < 4 && n < 256 ==> t[k, n] == Steps(n, 8 * (k + 1))
  }

  /** Terms of the polynomial, but for x^32. */
  const TERMS: seq<nat> := [0, 1, 2, 4, 5, 7, 8, 10, 11, 12, 16, 22, 23, 26]

  predicate TermsGrow(terms: seq<nat>) {
    (forall n :: 0 <= n < |terms| ==> terms[n] <= 31) && forall m, n :: 0 <= m < n < |terms| ==> terms[m] < terms[n]
  }

  /** The first n terms, the bit of x^i at place 31 - i. */
  function Reflected(terms: seq<nat>, n: nat): nat
    requires n <= |terms| && TermsGrow(terms)
  {
    if n == 0 then 0 else Reflected(terms, n - 1) + Pow2(31 - terms[n - 1])
  }

  lemma {:induction false} ShlTwice(a: nat, j: nat, k: nat)
    ensures Shl(Shl(a, j), k) == Shl(a, j + k)
    decreases k
  {
    if k > 0 { ShlTwice(a, j, k - 1); }
  }

  /** A bit below all others is set. */
  lemma LowerBit(high: nat, e: nat, k: nat)
    requires k < e
    ensures Or(Shl(high, e), Shl(1, k)) == Shl(high, e) + Pow2(k) == Shl(2 * Shl(high, e - k - 1) + 1, k)
  {
    ShlOne(k);
    assert Pow2(k + 1) == 2 * Pow2(k);
    Pow2Monotone(k + 1, e);
    OrHighLow(e, high, Pow2(k));
    ShlTwice(high, e - k - 1, k + 1);
    ShlStepOdd(Shl(high, e - k - 1), k);
  }

  lemma PowersOfTerms()
    ensures Pow2(5) == 0x20 && Pow2(8) == 0x100 && Pow2(9) == 0x200 && Pow2(15) == 0x8000
    ensures Pow2(19) == 0x8_0000 && Pow2(20) == 0x10_0000 && Pow2(21) == 0x20_0000
    ensures Pow2(23) == 0x80_0000 && Pow2(24) == 0x100_0000 && Pow2(26) == 0x400_0000 && Pow2(27) == 0x800_0000
    ensures Pow2(29) == 0x2000_0000 && Pow2(30) == 0x4000_0000 && Pow2(31) == 0x8000_0000
  {
    assert Pow2(5) == 0x20;
    assert Pow2(10) == 0x400;
    assert Pow2(15) == 0x8000;
    assert Pow2(19) == 0x8_0000;
    assert Pow2(23) == 0x80_0000;
    assert Pow2(27) == 0x800_0000;
  }

  lemma SevenTerms(terms: seq<nat>, n: nat)
    requires TermsGrow(terms) && n + 7 <= |terms|
    ensures Reflected(terms, n + 7) == Reflected(terms, n) + Pow2(31 - terms[n]) + Pow2(31 - terms[n + 1])
      + Pow2(31 - terms[n + 2]) + Pow2(31 - terms[n + 3]) + Pow2(31 - terms[n + 4]) + Pow2(31 - terms[n + 5])
      + Pow2(31 - terms[n + 6])
  {
    hide Pow2;
    assert Reflected(terms, n + 2) == Reflected(terms, n) + Pow2(31 - terms[n]) + Pow2(31 - terms[n + 1]);
    assert Reflected(terms, n + 4) == Reflected(terms, n + 2) + Pow2(31 - terms[n + 2]) + Pow2(31 - terms[n + 3]);
    assert Reflected(terms, n + 6) == Reflected(terms, n + 4) + Pow2(31 - terms[n + 4]) + Pow2(31 - terms[n + 5]);
  }

  /** 0xedb88320 */
  lemma PolyIs(terms: seq<nat>, n: nat)
    requires terms == TERMS && n == 7
    ensures TermsGrow(terms) && Reflected(terms, n + 7) == POLY
  {
    PowersOfTerms();
    hide Pow2, Reflected;
    SevenTerms(terms, n - 7); SevenTerms(terms, n);
    assert Reflected(terms, n - 7) == 0 by { NoTerms(terms); }
  }

  lemma NoTerms(terms: seq<nat>)
    requires TermsGrow(terms)
    ensures Reflected(terms, 0) == 0
  {}

  function Lowest(terms: seq<nat>, n: nat): (e: nat)
    requires n <= |terms| && TermsGrow(terms)
  {
    if n == 0 then 32 else 31 - terms[n - 1]
  }

  /** The bit of the next term is set. */
  lemma NextTerm(terms: seq<nat>, n: nat, high: nat, poly: nat) returns (high': nat)
    requires TermsGrow(terms) && n < |terms| && poly == Shl(high, Lowest(terms, n)) == Reflected(terms, n)
    ensures Or(poly, Shl(1, 31 - terms[n])) == Shl(high', Lowest(terms, n + 1)) == Reflected(terms, n + 1)
  {
    hide Shl, Pow2, Or;
    var e, k: nat := Lowest(terms, n), 31 - terms[n];
    LowerBit(high, e, k);
    high' := 2 * Shl(high, e - k - 1) + 1;
  }

  /** The polynomial as a pattern of bits. */
  method MakePoly() returns (poly: nat)
    ensures poly == POLY
  {
    var terms := TERMS;
    PolyIs(terms, 7);
    hide *;
    poly := 0;
    ghost var high: nat := 0;
    ShlZero(Lowest(terms, 0));
    NoTerms(terms);
    for n := 0 to |terms|
      invariant 0 <= poly == Shl(high, Lowest(terms, n)) == Reflected(terms, n)
    {
      high := NextTerm(terms, n, high, poly);
      poly := Or(poly, Shl(1, 31 - terms[n]));
    }
  }

  method TableByte(n: Byte, poly: Word32) returns (c: Word32)
    requires poly == POLY
    ensures c == Steps(n, 8)
  {
    c := n;
    for k := 0 to 8
      invariant Steps(c, 8 - k) == Steps(n, 8)
    {
      var half := c / 2;
      XorComm(poly, half);
      c := if c % 2 == 1 then Xor32(poly, half) else half;
    }
  }

  /** One more zero byte, by table 0. */
  lemma NextTable(n: Byte, c: Word32, k: nat)
    requires c == Steps(n, 8 * k)
    ensures Xor32(Steps(c % 256, 8), c / 256) == Steps(n, 8 * (k + 1))
  {
    EightSteps(c);
    StepsAdd(n, 8 * k, 8);
  }

  ghost predicate TableFilled(t: array2<Word32>, k: nat, n: nat)
    requires t.Length0 == 4 && t.Length1 == 256 && k <= 4 && n <= 256
    reads t
  {
    forall j: nat, m: nat :: j < k && m < n ==> t[j, m] == Steps(m, 8 * (j + 1))
  }

  /** make_crc_table, the tables for a little-endian machine. */
  method MakeTable() returns (t: array2<Word32>)
    ensures fresh(t) && IsTable(t)
  {
    t := new Word32[4, 256];
    var poly := MakePoly();
    for n := 0 to 256
      invariant TableFilled(t, 1, n)
    {
      var c := TableByte(n, poly);
      t[0, n] := c;
    }
    for n := 0 to 256
      invariant TableFilled(t, 1, 256) && TableFilled(t, 4, n)
    {
      FillColumn(t, n);
    }
  }

  /** The values for byte n followed by one, two and three zero bytes. */
  method FillColumn(t: array2<Word32>, n: nat)
    requires t.Length0 == 4 && t.Length1 == 256 && n < 256
    requires TableFilled(t, 1, 256) && TableFilled(t, 4, n)
    modifies t
    ensures TableFilled(t, 1, 256) && TableFilled(t, 4, n + 1)
  {
    var c := t[0, n];
    assert c == Steps(n, 8 * (0 + 1));
    for k := 1 to 4
      invariant c == Steps(n, 8 * k)
      invariant TableFilled(t, 1, 256) && TableFilled(t, 4, n)
      invariant forall j: nat :: j < k ==> t[j, n] == Steps(n, 8 * (j + 1))
    {
      NextTable(n, c, k);
      assert t[0, c % 256] == Steps(c % 256, 8 * (0 + 1));
      c := Xor32(t[0, c % 256], c / 256);
      t[k, n] := c;
    }
  }

  // ---------- one byte and four bytes at a time ----------

  lemma XorIntoLowByte(high: nat, low: nat, b: nat)
    requires low < 256 && b < 256
    ensures Xor(256 * high + low, b) == 256 * high + Xor(low, b) && Xor(low, b) < 256
  {
    assert Pow2(8) == 256;
    XorSplit(8, high, low, 0, b);
    ShlByte(high); ShlByte(0); XorZero(high);
  }

  /** crc_table[0][(c ^ b) & 0xff] ^ (c >> 8) is one byte through the register. */
  lemma TableStep(c: Word32, b: Byte)
    ensures Xor32(Steps(Xor(c, b) % 256, 8), c / 256) == ByteStep(c, b)
  {
    var high, low := c / 256, c % 256;
    assert c == 256 * high + low;
    XorIntoLowByte(high, low, b);
    ByteParts(high, Xor(low, b));
    EightSteps(Xor32(c, b));
  }

  /** A little-endian word of up to four bytes. */
  function Little(bs: seq<Byte>): nat
    decreases |bs|
  {
    if bs == [] then 0 else bs[0] + 256 * Little(bs[1..])
  }

  lemma {:induction false} LittleBound(bs: seq<Byte>)
    ensures Little(bs) < Pow2(8 * |bs|)
    decreases |bs|
  {
    if bs != [] {
      LittleBound(bs[1..]);
      var k := 8 * |bs[1..]|;
      Pow2Byte(k);
    }
  }

  lemma Pow2Byte(k: nat)
    ensures Pow2(k + 8) == 256 * Pow2(k)
  {
    assert Pow2(k + 4) == 4 * Pow2(k + 2) == 16 * Pow2(k);
    assert Pow2(k + 8) == 4 * Pow2(k + 6) == 16 * Pow2(k + 4);
  }

  lemma LittleWord(bs: seq<Byte>)
    requires |bs| <= 4
    ensures Little(bs) < 0x1_0000_0000
  {
    LittleBound(bs); Powers32(); Pow2Monotone(8 * |bs|, 32);
  }

  /** Bytes taken into the register together or one after the other. */
  lemma {:induction false} WordSteps(c: Word32, bs: seq<Byte>)
    requires |bs| <= 4
    ensures Little(bs) < 0x1_0000_0000
    ensures Steps(Xor32(c, Little(bs)), 8 * |bs|) == Register(c, bs)
    decreases |bs|
  {
    LittleWord(bs);
    if bs == [] { XorZero(c); } else {
      var rest, n := bs[1..], 8 * |bs[1..]|;
      WordSteps(ByteStep(c, bs[0]), rest);
      FirstByte(c, bs[0], Little(rest));
      StepsAdd(Xor32(c, Little(bs)), 8, n);
    }
  }

  lemma FirstByte(c: Word32, b: Byte, rest: nat)
    requires b + 256 * rest < 0x1_0000_0000
    ensures Steps(Xor32(c, b + 256 * rest), 8) == Xor32(ByteStep(c, b), rest)
  {
    Powers32(); ShlByte(rest);
    XorHighLow(8, rest, b);
    XorComm(256 * rest, b);
    XorAssoc(c, b, 256 * rest);
    StepsXor(Xor32(c, b), 256 * rest, 8);
    EightStepsShifted(rest);
  }

  /** Four table look-ups, one for each byte of the register, are 32 steps. */
  lemma FourTables(x: Word32)
    ensures Xor32(Xor32(Xor32(Steps(x % 256, 32), Steps(x / 256 % 256, 24)), Steps(x / 256 / 256 % 256, 16)),
                  Steps(x / 256 / 256 / 256, 8))
         == Steps(x, 32)
  {
    var x1 := x / 256;
    var x2 := x1 / 256;
    var x3 := x2 / 256;
    SplitSteps(x, 24); SplitSteps(x1, 16); SplitSteps(x2, 8);
    var a, b, c, d := Steps(x % 256, 32), Steps(x1 % 256, 24), Steps(x2 % 256, 16), Steps(x3, 8);
    XorAssoc(a, b, Xor(c, d)); XorAssoc(Xor(a, b), c, d);
  }

  lemma SplitSteps(x: Word32, n: nat)
    ensures Steps(x, n + 8) == Xor32(Steps(x % 256, n + 8), Steps(x / 256, n))
  {
    var high, low := x / 256, x % 256;
    Powers32(); ShlByte(high);
    XorHighLow(8, high, low);
    XorComm(256 * high, low);
    StepsXor(low, 256 * high, n + 8);
    StepsAdd(256 * high, 8, n);
    EightStepsShifted(high);
  }

  method DoLittle4(t: array2<Word32>, c0: Word32, buf: seq<Byte>, pos: nat) returns (c: Word32)
    requires IsTable(t) && pos + 4 <= |buf|
    ensures c == Register(c0, buf[pos..pos + 4])
  {
    ghost var bs := buf[pos..pos + 4];
    WordSteps(c0, bs);
    LittleFour(bs);
    var word := LoadLittle(buf, pos);
    c := Xor32(c0, word);
    FourTables(c);
    c := Xor32(Xor32(Xor32(t[3, c % 256], t[2, c / 256 % 256]), t[1, c / 256 / 256 % 256]), t[0, c / 256 / 256 / 256]);
  }

  /** The word that a little-endian machine loads from four bytes. */
  function LoadLittle(buf: seq<Byte>, pos: nat): nat
    requires pos + 4 <= |buf|
  {
    var b0: nat, b1: nat, b2: nat, b3: nat := buf[pos], buf[pos + 1], buf[pos + 2], buf[pos + 3];
    b0 + 256 * (b1 + 256 * (b2 + 256 * b3))
  }

  lemma LittleFour(bs: seq<Byte>)
    requires |bs| == 4
    ensures Little(bs) == LoadLittle(bs, 0)
  {
    assert bs[1..][1..] == bs[2..] && bs[2..][1..] == bs[3..] && bs[3..][1..] == [];
    assert Little(bs) == bs[0] as nat + 256 * Little(bs[1..]);
    assert Little(bs[1..]) == bs[1] as nat + 256 * Little(bs[2..]);
    assert Little(bs[2..]) == bs[2] as nat + 256 * Little(bs[3..]);
    assert Little(bs[3..]) == bs[3];
  }

  lemma RegisterSlices(c: Word32, buf: seq<Byte>, pos: nat, n: nat)
    requires pos + n <= |buf|
    ensures Register(c, buf[..pos + n]) == Register(Register(c, buf[..pos]), buf[pos..pos + n])
  {
    assert buf[..pos + n] == buf[..pos] + buf[pos..pos + n];
    RegisterAppend(c, buf[..pos], buf[pos..pos + n]);
  }

  method DoByte(t: array2<Word32>, c0: Word32, b: Byte) returns (c: Word32)
    requires IsTable(t)
    ensures c == ByteStep(c0, b)
  {
    TableStep(c0, b);
    assert t[0, Xor(c0, b) % 256] == Steps(Xor(c0, b) % 256, 8 * (0 + 1));
    c := Xor32(t[0, Xor(c0, b) % 256], c0 / 256);
  }

  /**
    crc32_little: single bytes up to an aligned address, then words of four bytes, eight at a time
    and one at a time, then the bytes that are left. address is where buf starts in memory.
  */
  method Crc32Little(t: array2<Word32>, crc: Word32, buf: seq<Byte>, address: nat) returns (r: Word32)
    requires IsTable(t)
    ensures r == Checksum(crc, buf)
  {
    var c := Not32(crc);
    ghost var start := c;
    var pos: nat := 0;
    while pos < |buf| && (address + pos) % 4 != 0
      invariant pos <= |buf| && c == Register(start, buf[..pos])
    {
      c := NextByte(t, c, buf, pos, start);
      pos := pos + 1;
    }
    while |buf| - pos >= 32
      invariant pos <= |buf| && c == Register(start, buf[..pos])
    {
      ghost var first := pos;
      for i := 0 to 8
        invariant pos == first + 4 * i && c == Register(start, buf[..pos])
      {
        RegisterSlices(start, buf, pos, 4);
        c := DoLittle4(t, c, buf, pos);
        pos := pos + 4;
      }
    }
    while |buf| - pos >= 4
      invariant pos <= |buf| && c == Register(start, buf[..pos])
    {
      RegisterSlices(start, buf, pos, 4);
      c := DoLittle4(t, c, buf, pos);
      pos := pos + 4;
    }
    while pos < |buf|
      invariant pos <= |buf| && c == Register(start, buf[..pos])
    {
      c := NextByte(t, c, buf, pos, start);
      pos := pos + 1;
    }
    assert buf[..pos] == buf;
    r := Not32(c);
  }

  method NextByte(t: array2<Word32>, c0: Word32, buf: seq<Byte>, pos: nat, ghost start: Word32) returns (c: Word32)
    requires IsTable(t) && pos < |buf| && c0 == Register(start, buf[..pos])
    ensures c == Register(start, buf[..pos + 1])
  {
    RegisterSlices(start, buf, pos, 1);
    c := DoByte(t, c0, buf[pos]);
    assert buf[pos..pos + 1][1..] == [];
  }

  // ---------- the residue ----------

  /** Four zero bits through a word given by its digits; t is the table entry of the last one. */
  lemma NibbleHex(a7: nat, a6: nat, a5: nat, a4: nat, a3: nat, a2: nat, a1: nat, a0: nat,
                  t7: nat, t6: nat, t5: nat, t4: nat, t3: nat, t2: nat, t1: nat, t0: nat,
                  c7: nat, c6: nat, c5: nat, c4: nat, c3: nat, c2: nat, c1: nat, c0: nat, n: nat)
    requires n == 4 && a7 < 16 && a6 < 16 && a5 < 16 && a4 < 16 && a3 < 16 && a2 < 16 && a1 < 16 && a0 < 16
    requires RTABLE[a0] == Hex(t7, t6, t5, t4, t3, t2, t1, t0)
    requires Digit(0, t7, c7) && Digit(a7, t6, c6) && Digit(a6, t5, c5) && Digit(a5, t4, c4)
    requires Digit(a4, t3, c3) && Digit(a3, t2, c2) && Digit(a2, t1, c1) && Digit(a1, t0, c0)
    ensures Hex(a7, a6, a5, a4, a3, a2, a1, a0) < 0x1_0000_0000
    ensures Steps(Hex(a7, a6, a5, a4, a3, a2, a1, a0), n) == Hex(c7, c6, c5, c4, c3, c2, c1, c0)
  {
    hide Xor, Steps;
    var c := Hex(a7, a6, a5, a4, a3, a2, a1, a0);
    NibbleIs(c, 0, n);
    XorZero(c); XorZero(NibbleStep(c, 0));
    XorHex(0, a7, a6, a5, a4, a3, a2, a1, t7, t6, t5, t4, t3, t2, t1, t0, c7, c6, c5, c4, c3, c2, c1, c0);
  }

  lemma DigitsFirst()
    ensures Digit(0, 11, 11) && Digit(15, 1, 14) && Digit(15, 2, 13) && Digit(15, 11, 4)
    ensures Digit(15, 12, 3) && Digit(15, 13, 2) && Digit(15, 15, 0)
  {
    assert Xor(0, 11) == 11;
    assert Xor(15, 1) == 14;
    assert Xor(15, 2) == 13;
    assert Xor(15, 11) == 4;
    assert Xor(15, 12) == 3;
    assert Xor(15, 13) == 2;
    assert Xor(15, 15) == 0;
  }

  lemma DigitsSecond()
    ensures Digit(0, 0, 0) && Digit(0, 2, 2) && Digit(2, 3, 1) && Digit(2, 13, 15)
    ensures Digit(4, 9, 13) && Digit(11, 6, 13) && Digit(13, 10, 7) && Digit(14, 12, 2)
  {
    assert Xor(0, 0) == 0;
    assert Xor(0, 2) == 2;
    assert Xor(2, 3) == 1;
    assert Xor(2, 13) == 15;
    assert Xor(4, 9) == 13;
    assert Xor(11, 6) == 13;
    assert Xor(13, 10) == 7;
    assert Xor(14, 12) == 2;
  }

  lemma OnesOnce(n: nat)
    requires n == 4
    ensures Steps(0xffffffff, n) == 0xb2420de3
  {
    hide Steps, Digit;
    DigitsFirst();
    NibbleHex(15, 15, 15, 15, 15, 15, 15, 15,
              11, 13, 11, 13, 15, 2, 1, 12,
              11, 2, 4, 2, 0, 13, 14, 3, n);
  }

  lemma OnesTwice(n: nat)
    requires n == 4
    ensures Steps(0xb2420de3, n) == 0x2dfd1072
  {
    hide Steps, Digit;
    DigitsSecond();
    NibbleHex(11, 2, 4, 2, 0, 13, 14, 3,
              2, 6, 13, 9, 3, 0, 10, 12,
              2, 13, 15, 13, 1, 0, 7, 2, n);
  }

  lemma OnesFirst(n: nat)
    requires n == 4
    ensures Steps(0xffffffff, 2 * n) == 0x2dfd1072
  {
    hide Steps;
    OnesOnce(n); OnesTwice(n);
    StepsAdd(0xffffffff, n, n);
  }

  lemma OnesSecond(n: nat)
    requires n == 4
    ensures Steps(0x2dfd1072, 2 * n) == 0xbe26ed00
  {
    hide Steps;
    var c: Word32 := 0x2dfd1072;
    NibbleHex(2, 13, 15, 13, 1, 0, 7, 2,
              3, 11, 6, 14, 2, 0, 12, 8,
              3, 9, 11, 1, 15, 1, 12, 15, n);
    NibbleHex(3, 9, 11, 1, 15, 1, 12, 15,
              11, 13, 11, 13, 15, 2, 1, 12,
              11, 14, 2, 6, 14, 13, 0, 0, n);
    StepsAdd(c, n, n);
  }

  lemma OnesHalfway(n: nat)
    requires n == 4
    ensures Steps(0xffff_ffff, 4 * n) == 0xbe26ed00
  {
    hide Steps;
    OnesFirst(n); OnesSecond(n);
    StepsAdd(0xffff_ffff, 2 * n, 2 * n);
  }

  lemma OnesThrough(n: nat)
    requires n == 4
    ensures Steps(0xffff_ffff, 8 * n) == 0xdebb20e3
  {
    hide Steps;
    OnesHalfway(n);
    var c: Word32 := 0xbe26ed00;
    NibbleHex(11, 14, 2, 6, 14, 13, 0, 0,
              0, 0, 0, 0, 0, 0, 0, 0,
              0, 11, 14, 2, 6, 14, 13, 0, n);
    NibbleHex(0, 11, 14, 2, 6, 14, 13, 0,
              0, 0, 0, 0, 0, 0, 0, 0,
              0, 0, 11, 14, 2, 6, 14, 13, n);
    NibbleHex(0, 0, 11, 14, 2, 6, 14, 13,
              8, 6, 13, 3, 13, 2, 13, 4,
              8, 6, 13, 8, 3, 0, 11, 10, n);
    NibbleHex(8, 6, 13, 8, 3, 0, 11, 10,
              13, 6, 13, 6, 10, 3, 14, 8,
              13, 14, 11, 11, 2, 0, 14, 3, n);
    StepsAdd(c, n, n); StepsAdd(c, 2 * n, n); StepsAdd(c, 3 * n, n);
    StepsAdd(0xffff_ffff, 4 * n, 4 * n);
  }

  /** The checksum of nothing is zero, and that of any string followed by its own checksum is the same word. */
  lemma Residue(data: seq<Byte>)
    ensures Checksum(0, []) == 0 && Checksum(0, data + Le32(Checksum(0, data))) == 0x2144df1c
  {
    var r, c := Register(0xffff_ffff, data), Checksum(0, data);
    var bs := Le32(c);
    RegisterAppend(0xffff_ffff, data, bs);
    LittleOf(c, bs);
    hide Steps, Register, Xor;
    WordSteps(r, bs);
    NotIsXor(r);
    XorSelfOnes(r);
    var n: nat :| n == 4;
    OnesThrough(n);
  }

  lemma LittleOf(c: Word32, bs: seq<Byte>)
    requires bs == Le32(c)
    ensures Little(bs) == c
  {
    LeRoundTrip(c);
    assert bs[1..][1..][1..][1..] == [];
    assert Little(bs[1..][1..][1..]) == bs[3];
    assert Little(bs[1..][1..]) == bs[2] + 256 * Little(bs[1..][1..][1..]);
    assert Little(bs[1..]) == bs[1] + 256 * Little(bs[1..][1..]);
  }

  /** c ^ ~c */
  lemma XorSelfOnes(c: Word32)
    ensures Xor32(c, Not32(c)) == 0xffff_ffff
  {
    NotIsXor(c);
    XorAssoc(c, c, 0xffff_ffff); XorSelf(c); XorComm(0, 0xffff_ffff); XorZero(0xffff_ffff);
  }

  // ---------- operators as matrices over GF(2) ----------

  /** mat holds, for every bit, the register after n zero bits. */
  ghost predicate IsOperator(mat: seq<Word32>, n: nat) {
    |mat| == 32 && forall i: nat :: i < 32 ==> Pow2(i) < 0x1_0000_0000 && mat[i] == Steps(Pow2(i), n)
  }

  lemma BitSplit(vec: nat, i: nat)
    ensures Shl(vec, i) == Xor(When(vec % 2, Pow2(i)), Shl(vec / 2, i + 1))
  {
    ShlStep(vec / 2, i); ShlStepOdd(vec / 2, i);
    if vec % 2 == 1 {
      assert vec == 2 * (vec / 2) + 1;
      XorHighLow(i + 1, vec / 2, Pow2(i));
      XorComm(Shl(vec / 2, i + 1), Pow2(i));
    } else {
      assert vec == 2 * (vec / 2);
      XorZero(Shl(vec, i));
    }
  }

  /** One round of the product: the low bit of the rest of the vector selects row i. */
  lemma TimesStep(mat: seq<Word32>, n: nat, sum: Word32, vec: nat, i: nat)
    requires IsOperator(mat, n) && i < 32 && vec < Pow2(32 - i)
    ensures Shl(vec, i) < 0x1_0000_0000 && Shl(vec / 2, i + 1) < 0x1_0000_0000 && vec / 2 < Pow2(31 - i)
    ensures Xor32(if vec % 2 == 1 then Xor32(sum, mat[i]) else sum, Steps(Shl(vec / 2, i + 1), n))
         == Xor32(sum, Steps(Shl(vec, i), n))
  {
    ShlBelow(vec, 32 - i, i); ShlBelow(vec / 2, 31 - i, i + 1); Powers32();
    BitSplit(vec, i);
    var bit, rest := When(vec % 2, Pow2(i)), Shl(vec / 2, i + 1);
    StepsXor(bit, rest, n);
    StepsZero(n);
    XorAssoc(sum, Steps(bit, n), Steps(rest, n));
    XorZero(Steps(rest, n));
  }

  lemma {:induction false} ShlBelow(a: nat, k: nat, i: nat)
    requires a < Pow2(k)
    ensures Shl(a, i) < Pow2(k + i)
    decreases i
  {
    if i > 0 { ShlBelow(a, k, i - 1); }
  }

  method MatrixTimes(mat: array<Word32>, vec0: Word32, ghost n: nat) returns (sum: Word32)
    requires IsOperator(mat[..], n)
    ensures sum == Steps(vec0, n)
  {
    sum := 0;
    var vec: nat, i: nat := vec0, 0;
    Powers32();
    XorZero(Steps(vec0, n));
    while vec != 0
      invariant i <= 32 && vec < Pow2(32 - i) && Shl(vec, i) < 0x1_0000_0000
      invariant Xor32(sum, Steps(Shl(vec, i), n)) == Steps(vec0, n)
      decreases vec
    {
      TimesStep(mat[..], n, sum, vec, i);
      if vec % 2 == 1 {
        sum := Xor32(sum, mat[i]);
      }
      vec := vec / 2;
      i := i + 1;
    }
    ShlZero(i); StepsZero(n); XorZero(sum);
  }

  method MatrixSquare(square: array<Word32>, mat: array<Word32>, ghost n: nat)
    requires square != mat && square.Length == 32 && IsOperator(mat[..], n)
    modifies square
    ensures IsOperator(square[..], 2 * n)
  {
    ghost var m := mat[..];
    for k := 0 to 32
      invariant mat[..] == m
      invariant forall i: nat :: i < k ==> square[i] == Steps(m[i], n)
    {
      var v := MatrixTimes(mat, mat[k], n);
      square[k] := v;
    }
    forall i: nat | i < 32 ensures square[..][i] == Steps(Pow2(i), 2 * n) {
      StepsAdd(Pow2(i), n, n);
    }
  }

  // ---------- combining two checksums ----------

  lemma OneBit(i: nat)
    requires i < 32
    ensures Pow2(i) < 0x1_0000_0000
    ensures Steps(Pow2(i), 1) == if i == 0 then POLY else Pow2(i - 1)
  {
    Powers32(); Pow2Monotone(i + 1, 32);
    assert Pow2(i + 1) == 2 * Pow2(i);
    if i > 0 { assert Pow2(i) == 2 * Pow2(i - 1); } else { assert Pow2(i) == 1; }
    hide Pow2, Xor, Steps;
    var bit: nat := Pow2(i);
    OneStep(bit);
    if i > 0 {
      var below: nat := Pow2(i - 1);
      assert bit % 2 == 0 && bit / 2 == below;
    } else {
      XorZero(POLY);
    }
  }

  lemma OneStep(c: Word32)
    ensures Steps(c, 1) == BitStep(c)
  {}

  /** The operator for one zero bit: row 0 is the polynomial, row n the bit below. */
  method OneBitOperator(odd: array<Word32>)
    requires odd.Length == 32
    modifies odd
    ensures IsOperator(odd[..], 1)
  {
    odd[0] := POLY;
    var row: nat := 1;
    for n := 1 to 32
      invariant row == Pow2(n - 1)
      invariant odd[0] == POLY
      invariant forall i: nat :: 1 <= i < n ==> odd[i] == Pow2(i - 1)
    {
      OneBit(n);
      assert row < Pow2(n);
      odd[n] := row;
      row := 2 * row;
    }
    OneBitRows(odd[..]);
  }

  lemma OneBitRows(mat: seq<Word32>)
    requires |mat| == 32 && mat[0] == POLY && forall i: nat :: 1 <= i < 32 ==> mat[i] == Pow2(i - 1)
    ensures IsOperator(mat, 1)
  {
    forall i: nat | i < 32 ensures Pow2(i) < 0x1_0000_0000 && mat[i] == Steps(Pow2(i), 1) {
      OneBit(i);
    }
  }

  /** len times `bits` zero bits are still to go through c to arrive at goal. */
  ghost predicate Pending(c: Word32, bits: nat, len: nat, goal: Word32) {
    bits * len >= 0 && Steps(c, bits * len) == goal
  }

  lemma HalveLength(bits: nat, half: nat)
    ensures bits * (2 * half) == (2 * bits) * half >= 0
    ensures bits * (2 * half + 1) == bits + (2 * bits) * half
  {}

  /** One bit of the length: apply the operator if it is set, and halve. */
  lemma LengthBit(c: Word32, bits: nat, len: nat, goal: Word32)
    requires Pending(c, bits, len, goal)
    ensures Pending(if len % 2 == 1 then Steps(c, bits) else c, 2 * bits, len / 2, goal)
  {
    var half := len / 2;
    HalveLength(bits, half);
    if len % 2 == 1 {
      assert len == 2 * half + 1;
      StepsAdd(c, bits, (2 * bits) * half);
    } else {
      assert len == 2 * half;
    }
  }

  lemma PendingDone(c: Word32, bits: nat, goal: Word32)
    requires Pending(c, bits, 0, goal)
    ensures c == goal
  {}

  /** Squares the operator and applies it for this bit of the length. */
  method ApplyBit(square: array<Word32>, mat: array<Word32>, crc: Word32, len: nat, ghost bits: nat, ghost goal: Word32)
    returns (r: Word32)
    requires square != mat && square.Length == 32 && IsOperator(mat[..], bits)
    requires Pending(crc, 2 * bits, len, goal)
    modifies square
    ensures IsOperator(square[..], 2 * bits) && Pending(r, 4 * bits, len / 2, goal)
  {
    MatrixSquare(square, mat, bits);
    r := crc;
    if len % 2 == 1 {
      r := MatrixTimes(square, crc, 2 * bits);
    }
    LengthBit(crc, 2 * bits, len, goal);
  }

  /** Whatever strings have these checksums, r is that of the strings one after the other. */
  ghost predicate Appends(crc1: Word32, crc2: Word32, len2: int, r: Word32) {
    forall a: seq<Byte>, b: seq<Byte> ::
      crc1 == Checksum(0, a) && crc2 == Checksum(0, b) && len2 == |b| ==> r == Checksum(0, a + b)
  }

  /** crc32_combine_: squares the zero-bit operator along the bits of the length. */
  method Combine(crc1: Word32, crc2: Word32, len2: int) returns (r: Word32)
    ensures r == if len2 <= 0 then crc1 else Xor32(Steps(crc1, 8 * len2), crc2)
    ensures Appends(crc1, crc2, len2, r)
  {
    CombinedAppends(crc1, crc2, len2);
    if len2 <= 0 {
      return crc1;
    }
    var even, odd := new Word32[32], new Word32[32];
    OneBitOperator(odd);
    MatrixSquare(even, odd, 1);
    MatrixSquare(odd, even, 2);
    var c: Word32, len: nat := crc1, len2;
    ghost var bits: nat, goal := 4, Steps(crc1, 8 * len2);
    // odd holds half of the operator that comes next, which is at first one zero byte
    while true
      invariant IsOperator(odd[..], bits) && Pending(c, 2 * bits, len, goal) && len > 0
      decreases len
    {
      c := ApplyBit(even, odd, c, len, bits, goal);
      len := len / 2;
      bits := 2 * bits;
      if len == 0 {
        break;
      }
      c := ApplyBit(odd, even, c, len, bits, goal);
      len := len / 2;
      bits := 2 * bits;
      if len == 0 {
        break;
      }
    }
    PendingDone(c, 2 * bits, goal);
    r := Xor32(c, crc2);
  }

  /** Combining the checksums of two strings gives the checksum of the strings one after the other. */
  lemma CombineIsAppend(a: seq<Byte>, b: seq<Byte>)
    ensures Xor32(Steps(Checksum(0, a), 8 * |b|), Checksum(0, b)) == Checksum(0, a + b)
    ensures b == [] ==> Checksum(0, a) == Checksum(0, a + b)
  {
    var ones: Word32 := 0xffff_ffff;
    var crcA, rb := Checksum(0, a), Register(ones, b);
    RegisterAppend(ones, a, b);
    NotIsXor(Register(ones, a)); NotIsXor(crcA); NotIsXor(rb); NotIsXor(Xor32(rb, Steps(crcA, 8 * |b|)));
    // the register after a is ones ^ crcA
    XorComm(crcA, ones);
    RegisterXor(ones, crcA, b);
    var s := Steps(crcA, 8 * |b|);
    XorAssoc(rb, s, ones); XorComm(s, ones); XorAssoc(rb, ones, s); XorComm(Xor32(rb, ones), s);
    if b == [] { assert a + b == a; }
  }

  lemma CombinedAppends(crc1: Word32, crc2: Word32, len2: int)
    ensures Appends(crc1, crc2, len2, if len2 <= 0 then crc1 else Xor32(Steps(crc1, 8 * len2), crc2))
  {
    forall a: seq<Byte>, b: seq<Byte> | crc1 == Checksum(0, a) && crc2 == Checksum(0, b) && len2 == |b|
      ensures (if len2 <= 0 then crc1 else Xor32(Steps(crc1, 8 * len2), crc2)) == Checksum(0, a + b)
    {
      CombineIsAppend(a, b);
    }
  }
}
