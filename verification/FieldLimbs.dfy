/** Elements of the field modulo 2^255 - 19 in ten signed limbs of 26 and 25 bits in turn. */
module FieldLimbs {
  import opened Arith

  /** 2^255 - 19 */
  const PRIME := 0x7fff_ffff_ffff_ffff_ffff_ffff_ffff_ffff_ffff_ffff_ffff_ffff_ffff_ffff_ffff_ffed

  /** 2^255 */
  const TOP := 0x8000_0000_0000_0000_0000_0000_0000_0000_0000_0000_0000_0000_0000_0000_0000_0000

  /** Signed words of 32 and 64 bits. */
  type Int32 = x: int | -0x8000_0000 <= x < 0x8000_0000
  type Int64 = x: int | -0x8000_0000_0000_0000 <= x < 0x8000_0000_0000_0000

  /** The number of values of limb i. */
  function Radix(i: nat): nat {
    if i % 2 == 0 then 0x400_0000 else 0x200_0000
  }

  /** The number that the limbs from i on make, in units of limb i. */
  function From(x: seq<int>, i: nat): int
    requires i <= |x|
    decreases |x| - i
  {
    if i == |x| then 0 else x[i] + Radix(i) * From(x, i + 1)
  }

  function Val(x: seq<int>): int {
    From(x, 0)
  }

  lemma {:induction false} SameFrom(x: seq<int>, y: seq<int>, i: nat)
    requires |x| == |y| && i <= |x| && forall j :: i <= j < |x| ==> x[j] == y[j]
    ensures From(x, i) == From(y, i)
    decreases |x| - i
  {
    if i < |x| { SameFrom(x, y, i + 1); }
  }

  /** Ten limbs at once. */
  lemma ValTen(x: seq<int>)
    requires |x| == 10
    ensures Val(x) == x[0] + 0x400_0000 * x[1] + 0x8_0000_0000_0000 * x[2] + 0x2000_0000_0000_0000_0000 * x[3]
      + 0x40_0000_0000_0000_0000_0000_0000 * x[4] + 0x1_0000_0000_0000_0000_0000_0000_0000_0000 * x[5]
      + 0x200_0000_0000_0000_0000_0000_0000_0000_0000_0000 * x[6]
      + 0x8_0000_0000_0000_0000_0000_0000_0000_0000_0000_0000_0000 * x[7]
      + 0x1000_0000_0000_0000_0000_0000_0000_0000_0000_0000_0000_0000_0000 * x[8]
      + 0x40_0000_0000_0000_0000_0000_0000_0000_0000_0000_0000_0000_0000_0000_0000 * x[9]
  {
    HighFive(x);
    assert From(x, 4) == x[4] + 0x400_0000 * From(x, 5);
    assert From(x, 3) == x[3] + 0x200_0000 * From(x, 4);
    assert From(x, 2) == x[2] + 0x400_0000 * From(x, 3);
    assert From(x, 1) == x[1] + 0x200_0000 * From(x, 2);
    assert From(x, 0) == x[0] + 0x400_0000 * From(x, 1);
  }

  lemma HighFive(x: seq<int>)
    requires |x| == 10
    ensures From(x, 5) == x[5] + 0x200_0000 * x[6] + 0x8_0000_0000_0000 * x[7] + 0x1000_0000_0000_0000_0000 * x[8]
      + 0x40_0000_0000_0000_0000_0000_0000 * x[9]
  {
    assert From(x, 9) == x[9] + 0x200_0000 * From(x, 10);
    assert From(x, 8) == x[8] + 0x400_0000 * From(x, 9);
    assert From(x, 7) == x[7] + 0x200_0000 * From(x, 8);
    assert From(x, 6) == x[6] + 0x400_0000 * From(x, 7);
    assert From(x, 5) == x[5] + 0x200_0000 * From(x, 6);
  }

  // ---------- congruence ----------

  ghost predicate DiffBy(a: int, b: int, m: int, q: int) {
    a == b + m * q
  }

  /** a and b differ by a multiple of m. */
  ghost predicate Congruent(a: int, b: int, m: int) {
    exists q :: DiffBy(a, b, m, q)
  }

  lemma CongruentSelf(a: int, m: int)
    ensures Congruent(a, a, m)
  {
    assert DiffBy(a, a, m, 0);
  }

  lemma CongruentThen(a: int, b: int, c: int, m: int)
    requires Congruent(a, b, m) && Congruent(b, c, m)
    ensures Congruent(a, c, m)
  {
    var p :| DiffBy(a, b, m, p);
    var q :| DiffBy(b, c, m, q);
    MulMinus(m, p, -q);
    assert DiffBy(a, c, m, p + q);
  }

  lemma CongruentMul(a: int, b: int, c: int, d: int, m: int)
    requires Congruent(a, b, m) && Congruent(c, d, m)
    ensures Congruent(a * c, b * d, m)
  {
    var p :| DiffBy(a, b, m, p);
    var q :| DiffBy(c, d, m, q);
    var t := p * d + b * q + m * (p * q);
    calc {
      (b + m * p) * (d + m * q);
      b * d + b * (m * q) + m * p * d + m * p * (m * q);
      { MulSwap(b, m, q); MulSwap2(m, p, d); MulSwap3(m, p, q); }
      b * d + m * (b * q) + m * (p * d) + m * (m * (p * q));
      { MulMinus(m, p * d, -(b * q)); MulMinus(m, p * d + b * q, -(m * (p * q))); }
      b * d + m * t;
    }
    assert DiffBy(a * c, b * d, m, t);
  }

  lemma MulSwap(b: int, m: int, q: int)
    ensures b * (m * q) == m * (b * q)
  {}

  lemma MulSwap2(m: int, p: int, d: int)
    ensures m * p * d == m * (p * d)
  {}

  lemma MulSwap3(m: int, p: int, q: int)
    ensures m * p * (m * q) == m * (m * (p * q))
  {}

  /** The remainder, for numbers that are already in range. */
  lemma CongruentMod(a: int, b: int, m: int)
    requires m > 0 && Congruent(a, b, m) && 0 <= a < m
    ensures a == b % m
  {
    var q :| DiffBy(a, b, m, q);
    MulMinus(m, 0, q);
    QuotientIs(b, m, -q, a);
  }

  lemma ModCongruent(b: int, m: int)
    requires m > 0
    ensures Congruent(b % m, b, m)
  {
    DivParts(b, m);
    MulMinus(m, 0, b / m);
    assert DiffBy(b % m, b, m, -(b / m));
  }

  // ---------- carrying ----------

  /** c units of limb i + 1 are moved there from limb i. */
  function Carry(x: seq<int>, i: nat, c: int): (y: seq<int>)
    requires i + 1 < |x|
    ensures |y| == |x| && y[i] == x[i] - c * Radix(i) && y[i + 1] == x[i + 1] + c
    ensures forall j :: 0 <= j < |x| && j != i && j != i + 1 ==> y[j] == x[j]
  {
    x[i + 1 := x[i + 1] + c][i := x[i] - c * Radix(i)]
  }

  lemma {:induction false} CarryFrom(x: seq<int>, i: nat, c: int, j: nat)
    requires i + 1 < |x| && j <= i
    ensures From(Carry(x, i, c), j) == From(x, j)
    decreases i - j
  {
    var y := Carry(x, i, c);
    if j < i {
      CarryFrom(x, i, c, j + 1);
    } else {
      SameFrom(x, y, i + 2);
      MulMinus(Radix(i), From(x, i + 1), -c);
      assert From(y, i + 1) == From(x, i + 1) + c;
    }
  }

  /** The carry out of the last limb counts nineteen times. */
  function CarryAround(x: seq<int>, c: int): (y: seq<int>)
    requires |x| == 10
    ensures |y| == 10 && y[0] == x[0] + c * 19 && y[9] == x[9] - c * 0x200_0000
    ensures forall j :: 1 <= j < 9 ==> y[j] == x[j]
  {
    x[0 := x[0] + c * 19][9 := x[9] - c * 0x200_0000]
  }

  lemma CarryAroundVal(x: seq<int>, c: int)
    requires |x| == 10
    ensures Val(CarryAround(x, c)) == Val(x) - PRIME * c
  {
    ValTen(x);
    ValTen(CarryAround(x, c));
    hide Val;
  }
}
