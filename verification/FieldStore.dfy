/** Digits of 26 and 25 bits in turn, and the 32 bytes of the same number. */
module FieldStore {
  import opened Arith
  import opened Gf2Poly
  import opened Crc
  import opened ByteNumber
  import opened FieldLimbs
  import ScalarStore

  /** Limbs that are digits. */
  ghost predicate Digits(x: seq<int>) {
    |x| == 10 && forall i :: 0 <= i < 10 ==> 0 <= x[i] < Radix(i)
  }

  function Width(i: nat): nat {
    if i % 2 == 0 then 26 else 25
  }

  lemma RadixPower(i: nat)
    ensures Radix(i) == Pow2(Width(i)) && Pow2(1) == 2
  {
    assert Pow2(5) == 32;
    hide Pow2;
    PowAdd(5, 5); PowAdd(10, 10); PowAdd(20, 5); PowAdd(25, 1);
    assert Pow2(1) == 2 by { PowFirst(); }
  }

  lemma PowFirst()
    ensures Pow2(1) == 2
  {}

  lemma DigitsLength(x: seq<int>)
    requires Digits(x)
    ensures |x| == 10 && forall i :: 0 <= i < 10 ==> x[i] >= 0
  {}

  lemma {:induction false} DigitsFrom(x: seq<int>, i: nat)
    requires Digits(x) && i <= 10
    ensures From(x, i) >= 0 && (i < 10 ==> From(x, i) == x[i] + Radix(i) * From(x, i + 1) && From(x, i + 1) >= 0)
    decreases 10 - i
  {
    if i < 10 {
      DigitsFrom(x, i + 1);
      MulMonotone(Radix(i), 0, From(x, i + 1));
    }
  }

  /** The number from bit b of limb i on. */
  function Rest(x: seq<int>, i: nat, b: nat): int
    requires i <= |x|
  {
    From(x, i) / Pow2(b)
  }

  function ByteOf(x: seq<int>, i: nat, b: nat): int
    requires i <= |x|
  {
    Rest(x, i, b) % 256
  }

  function One(v: nat, d: nat): Byte
    requires d > 0
  {
    ScalarStore.One(v, d)
  }

  function Two(v: nat, d: nat, w: nat, j: nat): Byte
    requires d > 0
  {
    ScalarStore.Two(v, d, w, j)
  }

  /** A byte within one limb. */
  lemma OneAt(x: seq<int>, i: nat, b: nat, d: nat)
    requires Digits(x) && i < 10 && d == Pow2(b) && (b + 8 <= Width(i) || i == 9)
    ensures |x| == 10 && x[i] >= 0 && One(x[i], d) == ByteOf(x, i, b)
  {
    DigitsFrom(x, i);
    Powers();
    if i == 9 {
      assert From(x, 10) == 0;
    } else {
      RadixPower(i);
      PowAdd(8, Width(i) - b - 8); PowAdd(b, Width(i) - b);
      hide From, Pow2;
      BitsBelow(x[i], d, 256, Pow2(Width(i) - b - 8), From(x, i + 1));
    }
  }

  /** A byte over two limbs. */
  lemma TwoAt(x: seq<int>, i: nat, b: nat, d: nat, j: nat)
    requires Digits(x) && i < 9 && d == Pow2(b) && b + j == Width(i)
    ensures |x| == 10 && x[i] >= 0 && x[i + 1] >= 0 && Two(x[i], d, x[i + 1], j) == ByteOf(x, i, b)
  {
    DigitsFrom(x, i); DigitsFrom(x, i + 1);
    RadixPower(i);
    PowAdd(b, j);
    hide From, Pow2;
    TwoSum(x[i], d, x[i + 1], j, From(x, i + 2), Radix(i), Radix(i + 1));
  }

  lemma TwoSum(v: nat, d: nat, w: nat, j: nat, high: nat, r: nat, s: nat)
    requires d > 0 && d * Pow2(j) == r && v < r && (s == 0x400_0000 || s == 0x200_0000)
    ensures Two(v, d, w, j) == (v + r * (w + s * high)) / d % 256
  {
    ScalarStore.QuotBelow(v, d, Pow2(j));
    OrSum(w, v / d, j);
    hide Pow2, Or, Shl;
    DivSum(v, d, Pow2(j), w + s * high);
    HighDrops(v / d, Pow2(j), w, high, s);
  }

  lemma HighDrops(low: int, p: int, w: int, high: int, s: int)
    requires s == 0x400_0000 || s == 0x200_0000
    ensures (low + p * (w + s * high)) % 256 == (p * w + low) % 256
  {
    MulMinus(p, w, s * high);
    ByteNumber.MulAssoc(p, s, high);
    var t := p * high;
    ModDrop(p * w + low, 256, s / 256 * t);
    assert 256 * (s / 256 * t) == s * t;
  }

  // ---------- from byte to byte ----------

  lemma StepIn(x: seq<int>, i: nat, b: nat)
    requires Digits(x) && i < 10
    ensures |x| == 10 && Rest(x, i, b) / 256 == Rest(x, i, b + 8)
  {
    DigitsFrom(x, i);
    Powers();
    PowAdd(b, 8);
    hide From, Pow2;
    DivDiv(From(x, i), Pow2(b), 256);
  }

  lemma StepOver(x: seq<int>, i: nat, b: nat, w: nat)
    requires Digits(x) && i < 9 && w == Width(i) && b + 8 >= w
    ensures |x| == 10 && Rest(x, i, b) / 256 == Rest(x, i + 1, b + 8 - w)
  {
    DigitsFrom(x, i);
    Powers();
    RadixPower(i);
    PowAdd(b, 8); PowAdd(w, b + 8 - w);
    hide From, Pow2;
    var r, v, above := Radix(i), x[i], From(x, i + 1);
    DivDiv(v + r * above, Pow2(b), 256);
    DivDrop(r, above, v);
    DivDiv(v + r * above, r, Pow2(b + 8 - w));
  }

  lemma Join(s: seq<Byte>, x: seq<int>, k: nat, i: nat, b: nat, i': nat, b': nat)
    requires |s| == 32 && k < 31 && i <= |x| && i' <= |x|
    requires s[k] == ByteOf(x, i, b) && Rest(x, i, b) / 256 == Rest(x, i', b') && Le(s[k + 1..]) == Rest(x, i', b')
    ensures Le(s[k..]) == Rest(x, i, b)
  {
    hide Rest;
    assert s[k..][0] == s[k] && s[k..][1..] == s[k + 1..];
    DivParts(Rest(x, i, b), 256);
  }

  lemma LastByte(s: seq<Byte>, x: seq<int>)
    requires |s| == 32 && Digits(x) && s[31] == ByteOf(x, 9, 18)
    ensures Le(s[31..]) == Rest(x, 9, 18)
  {
    DigitsFrom(x, 9);
    assert From(x, 10) == 0;
    SmallPowers25();
    hide From, Pow2;
    assert s[31..][1..] == [] && s[31..][0] == s[31];
    TopBits(x[9]);
  }

  lemma TopBits(v: int)
    requires 0 <= v < 0x200_0000
    ensures 0 <= v / 0x4_0000 < 256
  {}

  lemma SmallPowers25()
    ensures Pow2(0) == 1 && Pow2(1) == 2 && Pow2(2) == 4 && Pow2(3) == 8 && Pow2(4) == 16 && Pow2(5) == 32
    ensures Pow2(6) == 0x40 && Pow2(7) == 0x80 && Pow2(8) == 0x100 && Pow2(9) == 0x200 && Pow2(10) == 0x400
    ensures Pow2(11) == 0x800 && Pow2(12) == 0x1000 && Pow2(13) == 0x2000 && Pow2(14) == 0x4000 && Pow2(15) == 0x8000
    ensures Pow2(16) == 0x1_0000 && Pow2(18) == 0x4_0000 && Pow2(19) == 0x8_0000 && Pow2(20) == 0x10_0000
    ensures Pow2(21) == 0x20_0000 && Pow2(22) == 0x40_0000 && Pow2(23) == 0x80_0000 && Pow2(24) == 0x100_0000
  {}

  // ---------- storing ----------

  /** Bytes 0 to 7. */
  method StoreBytes0(s: array<Byte>, x: seq<Int32>)
    requires s.Length >= 32 && Digits(x)
    modifies s
    ensures s[0] == ByteOf(x, 0, 0)
    ensures s[1] == ByteOf(x, 0, 8)
    ensures s[2] == ByteOf(x, 0, 16)
    ensures s[3] == ByteOf(x, 0, 24)
    ensures s[4] == ByteOf(x, 1, 6)
    ensures s[5] == ByteOf(x, 1, 14)
    ensures s[6] == ByteOf(x, 1, 22)
    ensures s[7] == ByteOf(x, 2, 5)
    ensures forall j :: 0 <= j < s.Length && !(0 <= j < 8) ==> s[j] == old(s[j])
  {
    SmallPowers25();
    hide Pow2, Digits, ByteOf, One, Two;
    OneAt(x, 0, 0, 0x1); OneAt(x, 0, 8, 0x100); OneAt(x, 0, 16, 0x1_0000); TwoAt(x, 0, 24, 0x100_0000, 2);
    OneAt(x, 1, 6, 0x40); OneAt(x, 1, 14, 0x4000); TwoAt(x, 1, 22, 0x40_0000, 3); OneAt(x, 2, 5, 0x20);
    DigitsLength(x);
    s[0] := One(x[0], 0x1);
    s[1] := One(x[0], 0x100);
    s[2] := One(x[0], 0x1_0000);
    s[3] := Two(x[0], 0x100_0000, x[1], 2);
    s[4] := One(x[1], 0x40);
    s[5] := One(x[1], 0x4000);
    s[6] := Two(x[1], 0x40_0000, x[2], 3);
    s[7] := One(x[2], 0x20);
  }

  /** Bytes 8 to 15. */
  method StoreBytes8(s: array<Byte>, x: seq<Int32>)
    requires s.Length >= 32 && Digits(x)
    modifies s
    ensures s[8] == ByteOf(x, 2, 13)
    ensures s[9] == ByteOf(x, 2, 21)
    ensures s[10] == ByteOf(x, 3, 3)
    ensures s[11] == ByteOf(x, 3, 11)
    ensures s[12] == ByteOf(x, 3, 19)
    ensures s[13] == ByteOf(x, 4, 2)
    ensures s[14] == ByteOf(x, 4, 10)
    ensures s[15] == ByteOf(x, 4, 18)
    ensures forall j :: 0 <= j < s.Length && !(8 <= j < 16) ==> s[j] == old(s[j])
  {
    SmallPowers25();
    hide Pow2, Digits, ByteOf, One, Two;
    OneAt(x, 2, 13, 0x2000); TwoAt(x, 2, 21, 0x20_0000, 5); OneAt(x, 3, 3, 0x8); OneAt(x, 3, 11, 0x800);
    TwoAt(x, 3, 19, 0x8_0000, 6); OneAt(x, 4, 2, 0x4); OneAt(x, 4, 10, 0x400); OneAt(x, 4, 18, 0x4_0000);
    DigitsLength(x);
    s[8] := One(x[2], 0x2000);
    s[9] := Two(x[2], 0x20_0000, x[3], 5);
    s[10] := One(x[3], 0x8);
    s[11] := One(x[3], 0x800);
    s[12] := Two(x[3], 0x8_0000, x[4], 6);
    s[13] := One(x[4], 0x4);
    s[14] := One(x[4], 0x400);
    s[15] := One(x[4], 0x4_0000);
  }

  /** Bytes 16 to 23. */
  method StoreBytes16(s: array<Byte>, x: seq<Int32>)
    requires s.Length >= 32 && Digits(x)
    modifies s
    ensures s[16] == ByteOf(x, 5, 0)
    ensures s[17] == ByteOf(x, 5, 8)
    ensures s[18] == ByteOf(x, 5, 16)
    ensures s[19] == ByteOf(x, 5, 24)
    ensures s[20] == ByteOf(x, 6, 7)
    ensures s[21] == ByteOf(x, 6, 15)
    ensures s[22] == ByteOf(x, 6, 23)
    ensures s[23] == ByteOf(x, 7, 5)
    ensures forall j :: 0 <= j < s.Length && !(16 <= j < 24) ==> s[j] == old(s[j])
  {
    SmallPowers25();
    hide Pow2, Digits, ByteOf, One, Two;
    OneAt(x, 5, 0, 0x1); OneAt(x, 5, 8, 0x100); OneAt(x, 5, 16, 0x1_0000); TwoAt(x, 5, 24, 0x100_0000, 1);
    OneAt(x, 6, 7, 0x80); OneAt(x, 6, 15, 0x8000); TwoAt(x, 6, 23, 0x80_0000, 3); OneAt(x, 7, 5, 0x20);
    DigitsLength(x);
    s[16] := One(x[5], 0x1);
    s[17] := One(x[5], 0x100);
    s[18] := One(x[5], 0x1_0000);
    s[19] := Two(x[5], 0x100_0000, x[6], 1);
    s[20] := One(x[6], 0x80);
    s[21] := One(x[6], 0x8000);
    s[22] := Two(x[6], 0x80_0000, x[7], 3);
    s[23] := One(x[7], 0x20);
  }

  /** Bytes 24 to 31. */
  method StoreBytes24(s: array<Byte>, x: seq<Int32>)
    requires s.Length >= 32 && Digits(x)
    modifies s
    ensures s[24] == ByteOf(x, 7, 13)
    ensures s[25] == ByteOf(x, 7, 21)
    ensures s[26] == ByteOf(x, 8, 4)
    ensures s[27] == ByteOf(x, 8, 12)
    ensures s[28] == ByteOf(x, 8, 20)
    ensures s[29] == ByteOf(x, 9, 2)
    ensures s[30] == ByteOf(x, 9, 10)
    ensures s[31] == ByteOf(x, 9, 18)
    ensures forall j :: 0 <= j < s.Length && !(24 <= j < 32) ==> s[j] == old(s[j])
  {
    SmallPowers25();
    hide Pow2, Digits, ByteOf, One, Two;
    OneAt(x, 7, 13, 0x2000); TwoAt(x, 7, 21, 0x20_0000, 4); OneAt(x, 8, 4, 0x10); OneAt(x, 8, 12, 0x1000);
    TwoAt(x, 8, 20, 0x10_0000, 6); OneAt(x, 9, 2, 0x4); OneAt(x, 9, 10, 0x400); OneAt(x, 9, 18, 0x4_0000);
    DigitsLength(x);
    s[24] := One(x[7], 0x2000);
    s[25] := Two(x[7], 0x20_0000, x[8], 4);
    s[26] := One(x[8], 0x10);
    s[27] := One(x[8], 0x1000);
    s[28] := Two(x[8], 0x10_0000, x[9], 6);
    s[29] := One(x[9], 0x4);
    s[30] := One(x[9], 0x400);
    s[31] := One(x[9], 0x4_0000);
  }

  // ---------- the number of the bytes ----------

  /** The number that the last eight bytes make. */
  lemma Chain24(s: seq<Byte>, x: seq<int>)
    requires |s| == 32 && Digits(x)
    requires s[24] == ByteOf(x, 7, 13)
    requires s[25] == ByteOf(x, 7, 21)
    requires s[26] == ByteOf(x, 8, 4)
    requires s[27] == ByteOf(x, 8, 12)
    requires s[28] == ByteOf(x, 8, 20)
    requires s[29] == ByteOf(x, 9, 2)
    requires s[30] == ByteOf(x, 9, 10)
    requires s[31] == ByteOf(x, 9, 18)
    ensures Le(s[24..]) == Rest(x, 7, 13)
  {
    hide Rest, Digits, Le, ByteOf;
    LastByte(s, x);
    StepIn(x, 9, 10);
    Join(s, x, 30, 9, 10, 9, 18);
    StepIn(x, 9, 2);
    Join(s, x, 29, 9, 2, 9, 10);
    StepOver(x, 8, 20, 26);
    Join(s, x, 28, 8, 20, 9, 2);
    StepIn(x, 8, 12);
    Join(s, x, 27, 8, 12, 8, 20);
    StepIn(x, 8, 4);
    Join(s, x, 26, 8, 4, 8, 12);
    StepOver(x, 7, 21, 25);
    Join(s, x, 25, 7, 21, 8, 4);
    StepIn(x, 7, 13);
    Join(s, x, 24, 7, 13, 7, 21);
  }

  /** And the eight before them. */
  lemma Chain16(s: seq<Byte>, x: seq<int>)
    requires |s| == 32 && Digits(x)
    requires s[16] == ByteOf(x, 5, 0)
    requires s[17] == ByteOf(x, 5, 8)
    requires s[18] == ByteOf(x, 5, 16)
    requires s[19] == ByteOf(x, 5, 24)
    requires s[20] == ByteOf(x, 6, 7)
    requires s[21] == ByteOf(x, 6, 15)
    requires s[22] == ByteOf(x, 6, 23)
    requires s[23] == ByteOf(x, 7, 5)
    requires Le(s[24..]) == Rest(x, 7, 13)
    ensures Le(s[16..]) == Rest(x, 5, 0)
  {
    hide Rest, Digits, Le, ByteOf;
    StepIn(x, 7, 5);
    Join(s, x, 23, 7, 5, 7, 13);
    StepOver(x, 6, 23, 26);
    Join(s, x, 22, 6, 23, 7, 5);
    StepIn(x, 6, 15);
    Join(s, x, 21, 6, 15, 6, 23);
    StepIn(x, 6, 7);
    Join(s, x, 20, 6, 7, 6, 15);
    StepOver(x, 5, 24, 25);
    Join(s, x, 19, 5, 24, 6, 7);
    StepIn(x, 5, 16);
    Join(s, x, 18, 5, 16, 5, 24);
    StepIn(x, 5, 8);
    Join(s, x, 17, 5, 8, 5, 16);
    StepIn(x, 5, 0);
    Join(s, x, 16, 5, 0, 5, 8);
  }

  /** And the eight before those. */
  lemma Chain8(s: seq<Byte>, x: seq<int>)
    requires |s| == 32 && Digits(x)
    requires s[8] == ByteOf(x, 2, 13)
    requires s[9] == ByteOf(x, 2, 21)
    requires s[10] == ByteOf(x, 3, 3)
    requires s[11] == ByteOf(x, 3, 11)
    requires s[12] == ByteOf(x, 3, 19)
    requires s[13] == ByteOf(x, 4, 2)
    requires s[14] == ByteOf(x, 4, 10)
    requires s[15] == ByteOf(x, 4, 18)
    requires Le(s[16..]) == Rest(x, 5, 0)
    ensures Le(s[8..]) == Rest(x, 2, 13)
  {
    hide Rest, Digits, Le, ByteOf;
    StepOver(x, 4, 18, 26);
    Join(s, x, 15, 4, 18, 5, 0);
    StepIn(x, 4, 10);
    Join(s, x, 14, 4, 10, 4, 18);
    StepIn(x, 4, 2);
    Join(s, x, 13, 4, 2, 4, 10);
    StepOver(x, 3, 19, 25);
    Join(s, x, 12, 3, 19, 4, 2);
    StepIn(x, 3, 11);
    Join(s, x, 11, 3, 11, 3, 19);
    StepIn(x, 3, 3);
    Join(s, x, 10, 3, 3, 3, 11);
    StepOver(x, 2, 21, 26);
    Join(s, x, 9, 2, 21, 3, 3);
    StepIn(x, 2, 13);
    Join(s, x, 8, 2, 13, 2, 21);
  }

  /** And all of them. */
  lemma Chain0(s: seq<Byte>, x: seq<int>)
    requires |s| == 32 && Digits(x)
    requires s[0] == ByteOf(x, 0, 0)
    requires s[1] == ByteOf(x, 0, 8)
    requires s[2] == ByteOf(x, 0, 16)
    requires s[3] == ByteOf(x, 0, 24)
    requires s[4] == ByteOf(x, 1, 6)
    requires s[5] == ByteOf(x, 1, 14)
    requires s[6] == ByteOf(x, 1, 22)
    requires s[7] == ByteOf(x, 2, 5)
    requires Le(s[8..]) == Rest(x, 2, 13)
    ensures Le(s[0..]) == Rest(x, 0, 0)
  {
    hide Rest, Digits, Le, ByteOf;
    StepIn(x, 2, 5);
    Join(s, x, 7, 2, 5, 2, 13);
    StepOver(x, 1, 22, 25);
    Join(s, x, 6, 1, 22, 2, 5);
    StepIn(x, 1, 14);
    Join(s, x, 5, 1, 14, 1, 22);
    StepIn(x, 1, 6);
    Join(s, x, 4, 1, 6, 1, 14);
    StepOver(x, 0, 24, 26);
    Join(s, x, 3, 0, 24, 1, 6);
    StepIn(x, 0, 16);
    Join(s, x, 2, 0, 16, 0, 24);
    StepIn(x, 0, 8);
    Join(s, x, 1, 0, 8, 0, 16);
    StepIn(x, 0, 0);
    Join(s, x, 0, 0, 0, 0, 8);
  }

  /** The digits become bytes. */
  method StoreDigits(s: array<Byte>, x: seq<Int32>)
    requires s.Length == 32 && Digits(x)
    modifies s
    ensures Le(s[..]) == Val(x)
  {
    hide Digits, Le, Rest, ByteOf, Val;
    DigitsLength(x);
    StoreBytes0(s, x);
    StoreBytes8(s, x);
    StoreBytes16(s, x);
    StoreBytes24(s, x);
    Chain24(s[..], x);
    Chain16(s[..], x);
    Chain8(s[..], x);
    Chain0(s[..], x);
    AllBytes(s[..], x);
  }

  lemma AllBytes(s: seq<Byte>, x: seq<int>)
    requires |x| == 10 && Le(s[0..]) == Rest(x, 0, 0)
    ensures Le(s) == Val(x)
  {
    assert s[0..] == s;
    assert Pow2(0) == 1;
  }
}
