/** Arithmetic modulo the order of the base point, on limbs of 21 bits in signed words of 64 bits. */
module Scalar {
  import opened Arith
  import opened Limbs
  import opened ScalarSteps

  /** s[k-12] .. s[k-7] take what s[k] is worth. */
  method FoldWords(s: array<Int64>, k: nat)
    requires 12 <= k < s.Length && -0x100_0000_0000 <= s[k] <= 0x100_0000_0000
    requires forall j :: k - 12 <= j <= k - 7 ==> -0x1000_0000_0000_0000 <= s[j] <= 0x1000_0000_0000_0000
    modifies s
    ensures s[..] == Fold(old(s[..]), k)
  {
    hide Fold;
    ghost var was: seq<int> := s[..];
    FoldEntries(was, k);
    var v := s[k];
    var p0: Int64, p1: Int64, p2: Int64 := v * 666643, v * 470296, v * 654183;
    var p3: Int64, p4: Int64, p5: Int64 := v * 997805, v * 136657, v * 683901;
    s[k - 12] := s[k - 12] + p0;
    s[k - 11] := s[k - 11] + p1;
    s[k - 10] := s[k - 10] + p2;
    s[k - 9] := s[k - 9] - p3;
    s[k - 8] := s[k - 8] + p4;
    s[k - 7] := s[k - 7] - p5;
    s[k] := 0;
    assert forall j :: 0 <= j < |was| ==> s[j] == Fold(was, k)[j];
  }

  /** The same on the way through six of them. */
  method FoldLimb(s: array<Int64>, k: nat, ghost top: nat, ghost b: int, ghost c: int, ghost v: int)
    returns (ghost q: int)
    requires s.Length == 24 && Folding(s[..], top, k, b, c, v) && top - 5 <= k
    requires b <= 0x100_0000_0000 && c <= 0x1000_0000_0000_0000
    modifies s
    ensures forall j :: top < j < 24 ==> s[j] == old(s[j])
    ensures Folding(s[..], top, k - 1, b, c + 0x10_0000 * b, v) && Val(s[..]) == Val(old(s[..])) - ORDER * q
    ensures q == old(s[k]) * Weight(k - 12)
  {
    hide Fold;
    ghost var was: seq<int> := s[..];
    FoldStep(was, top, k, b, c, v);
    FoldVal(was, k);
    FoldLimbSize(was, top, k, b, c, v);
    FoldWords(s, k);
    q := was[k] * Weight(k - 12);
  }

  lemma FoldLimbSize(x: seq<int>, top: nat, k: nat, b: int, c: int, v: int)
    requires Folding(x, top, k, b, c, v) && top - 5 <= k
    ensures -b <= x[k] <= b && forall j :: k - 12 <= j <= k - 7 ==> -c <= x[j] <= c
  {}

  /** One carry, rounded to nearest. */
  method CarryNearest(s: array<Int64>, i: nat, ghost was: seq<int>, ghost lo: nat, ghost m: int)
    requires s.Length == 24 && i + 1 < 24 && lo <= i && (i - lo) % 2 == 0 && Carrying(was, s[..], lo, i, m)
    requires 0 <= m <= 0x100_0000_0000 && Within(was, 0, 24, m * RADIX)
    modifies s
    ensures Carrying(was, s[..], lo, i + 2, m) && Val(s[..]) == Val(old(s[..]))
  {
    ghost var x: seq<int> := s[..];
    CarryStep(was, x, lo, i, m);
    CarryVal(x, i, Nearest(x[i]));
    CarrySize(x[i], m);
    var sum: Int64 := s[i] + 0x10_0000;
    var carry := sum / 0x20_0000;
    s[i + 1] := s[i + 1] + carry;
    var back: Int64 := carry * 0x20_0000;
    s[i] := s[i] - back;
    assert s[..] == Carry(x, i, Nearest(x[i]));
  }

  /** One carry, rounded down. */
  method CarryDown(s: array<Int64>, i: nat, ghost was: seq<int>, ghost m: int, ghost b: int)
    requires s.Length == 24 && i + 1 < 24 && Rippling(was, s[..], i, m, b)
    requires m <= 0x100_0000_0000
    modifies s
    ensures Rippling(was, s[..], i + 1, m, b) && Val(s[..]) == Val(old(s[..]))
  {
    ghost var x: seq<int> := s[..];
    RippleStep(was, x, i, m, b);
    CarryVal(x, i, Down(x[i]));
    CarrySize(x[i], m);
    var carry := s[i] / 0x20_0000;
    s[i + 1] := s[i + 1] + carry;
    var back: Int64 := carry * 0x20_0000;
    s[i] := s[i] - back;
    assert s[..] == Carry(x, i, Down(x[i]));
  }

  /** Six limbs from `top` down are folded. */
  method FoldSix(s: array<Int64>, top: nat, ghost b: int, ghost c: int, ghost v: int) returns (ghost q: int)
    requires s.Length == 24 && Folding(s[..], top, top, b, c, v)
    requires b <= 0x100_0000_0000 && c + 6 * 0x10_0000 * b <= 0x1000_0000_0000_0000
    modifies s
    ensures forall j :: top < j < 24 ==> s[j] == old(s[j])
    ensures Folding(s[..], top, top - 6, b, c + 6 * 0x10_0000 * b, v) && Val(s[..]) == Val(old(s[..])) - ORDER * q
  {
    hide Folding, Val;
    ghost var d := 0x10_0000 * b;
    FoldingPositive(s[..], top, top, b, c, v);
    q := FoldLimb(s, top, top, b, c, v);
    ghost var p := FoldLimb(s, top - 1, top, b, c + d, v);
    q := q + p;
    p := FoldLimb(s, top - 2, top, b, c + 2 * d, v);
    q := q + p;
    p := FoldLimb(s, top - 3, top, b, c + 3 * d, v);
    q := q + p;
    p := FoldLimb(s, top - 4, top, b, c + 4 * d, v);
    q := q + p;
    p := FoldLimb(s, top - 5, top, b, c + 5 * d, v);
    q := q + p;
  }

  lemma FoldingPositive(x: seq<int>, top: nat, k: nat, b: int, c: int, v: int)
    requires Folding(x, top, k, b, c, v)
    ensures b >= 0 && c >= 0 && (top == 17 || top == 23)
  {}

  /** Every other limb from i on is carried, six of them. */
  method CarrySix(s: array<Int64>, i: nat, ghost was: seq<int>, ghost lo: nat, ghost m: int)
    requires s.Length == 24 && lo <= i && i + 12 <= 24 && (i - lo) % 2 == 0 && i + 11 < 24
      && Carrying(was, s[..], lo, i, m)
    requires 0 <= m <= 0x100_0000_0000 && Within(was, 0, 24, m * RADIX)
    modifies s
    ensures Carrying(was, s[..], lo, i + 12, m) && Val(s[..]) == Val(old(s[..]))
  {
    hide Carrying, Val, Within;
    CarryNearest(s, i, was, lo, m);
    CarryNearest(s, i + 2, was, lo, m);
    CarryNearest(s, i + 4, was, lo, m);
    CarryNearest(s, i + 6, was, lo, m);
    CarryNearest(s, i + 8, was, lo, m);
    CarryNearest(s, i + 10, was, lo, m);
  }

  /** The same for five. */
  method CarryFive(s: array<Int64>, i: nat, ghost was: seq<int>, ghost lo: nat, ghost m: int)
    requires s.Length == 24 && lo <= i && i + 10 <= 24 && (i - lo) % 2 == 0 && Carrying(was, s[..], lo, i, m)
    requires 0 <= m <= 0x100_0000_0000 && Within(was, 0, 24, m * RADIX)
    modifies s
    ensures Carrying(was, s[..], lo, i + 10, m) && Val(s[..]) == Val(old(s[..]))
  {
    hide Carrying, Val, Within;
    CarryNearest(s, i, was, lo, m);
    CarryNearest(s, i + 2, was, lo, m);
    CarryNearest(s, i + 4, was, lo, m);
    CarryNearest(s, i + 6, was, lo, m);
    CarryNearest(s, i + 8, was, lo, m);
  }

  /** Limbs 0 to 10 become digits. */
  method RippleEleven(s: array<Int64>, ghost was: seq<int>, ghost m: int, ghost b: int)
    requires s.Length == 24 && Rippling(was, s[..], 0, m, b) && m <= 0x100_0000_0000
    modifies s
    ensures Rippling(was, s[..], 11, m, b) && Val(s[..]) == Val(old(s[..]))
  {
    hide Rippling, Val;
    CarryDown(s, 0, was, m, b);
    CarryDown(s, 1, was, m, b);
    CarryDown(s, 2, was, m, b);
    CarryDown(s, 3, was, m, b);
    CarryDown(s, 4, was, m, b);
    CarryDown(s, 5, was, m, b);
    CarryDown(s, 6, was, m, b);
    CarryDown(s, 7, was, m, b);
    CarryDown(s, 8, was, m, b);
    CarryDown(s, 9, was, m, b);
    CarryDown(s, 10, was, m, b);
  }

  // ---------- the sizes between the phases ----------

  /** Before the first six folds. */
  lemma FirstFolds(x: seq<int>, b: int)
    requires |x| == 24 && Within(x, 0, 24, b) && b >= 0
    ensures Folding(x, 23, 23, b, b, x[17]) && -b <= x[17] <= b
  {}

  /** After six folds. */
  lemma Folded(x: seq<int>, top: nat, b: int, c: int, v: int, d: int)
    requires top >= 6 && Folding(x, top, top - 6, b, c, v) && forall j :: top < j < 24 ==> x[j] == 0
    requires -d <= v <= d && d <= c
    ensures Within(x, 0, 24, c) && x[top - 6] == v && forall j :: top - 5 <= j < 24 ==> x[j] == 0
  {}

  lemma CarryStart(x: seq<int>, lo: nat, m: int)
    requires |x| == 24
    ensures Carrying(x, x, lo, lo, m)
  {}

  /** After a round of carries. */
  lemma CarryDone(was: seq<int>, x: seq<int>, lo: nat, hi: nat, m: int, b: int)
    requires |was| == 24 && Carrying(was, x, lo, hi, m) && Within(was, 0, 24, b) && m >= 0 && b >= 0x10_0000
    ensures Within(x, 0, 24, b + m)
    ensures forall j :: 0 <= j < 24 && !(lo <= j < hi) ==> x[j] == was[j]
  {}

  /** After a round over every other limb and one over those between. */
  lemma BothCarried(was: seq<int>, x: seq<int>, y: seq<int>, lo: nat, hi: nat, hi': nat, m: int, m': int)
    requires |was| == 24 && Carrying(was, x, lo, hi, m) && Carrying(x, y, lo + 1, hi', m') && m' >= 0 && hi <= 24
      && hi' <= 24
    ensures forall j :: lo <= j < hi && lo < j < hi' ==> -(0x10_0000 + m') <= y[j] <= 0x10_0000 + m'
    ensures lo < hi ==> -0x10_0000 <= y[lo] < 0x10_0000
  {
    forall j | lo <= j < hi && lo < j < hi' ensures -(0x10_0000 + m') <= y[j] <= 0x10_0000 + m' {
      assert (j - lo) % 2 == 0 || (j - (lo + 1)) % 2 == 0;
    }
  }

  // ---------- the reduction ----------

  /** From limb 23 down to limb 18, and the carries behind it. */
  method ReduceTop(s: array<Int64>) returns (ghost q: int)
    requires s.Length == 24 && Within(s[..], 0, 24, 0x1_0000_0000)
    modifies s
    ensures Val(s[..]) == Val(old(s[..])) - ORDER * q
    ensures Within(s[..], 6, 18, 0x10_0000_0000) && Within(s[..], 0, 6, 0x80_0000_0000_0000)
    ensures forall j :: 18 <= j < 24 ==> s[j] == 0
  {
    hide Folding, Carrying, Val;
    ghost var v, b := s[17], 0x1_0000_0000;
    FirstFolds(s[..], b);
    q := FoldSix(s, 23, b, b, v);
    Folded(s[..], 23, b, b + 6 * 0x10_0000 * b, v, b);
    ghost var was: seq<int> := s[..];
    CarryStart(was, 6, 0x4_0000_0000);
    CarrySix(s, 6, was, 6, 0x4_0000_0000);
    ghost var mid: seq<int> := s[..];
    CarryDone(was, mid, 6, 18, 0x4_0000_0000, 0x80_0000_0000_0000);
    CarryStart(mid, 7, 0x8_0000_0000);
    CarryFive(s, 7, mid, 7, 0x8_0000_0000);
    CarryDone(mid, s[..], 7, 17, 0x8_0000_0000, 0x100_0000_0000_0000);
    BothCarried(was, mid, s[..], 6, 18, 17, 0x4_0000_0000, 0x8_0000_0000);
    LastCarried(was, mid, 6, 17, 18, 0x4_0000_0000);
  }

  /** A limb that a round has only carried into. */
  lemma LastCarried(was: seq<int>, x: seq<int>, lo: nat, j: nat, hi: nat, m: int)
    requires Carrying(was, x, lo, hi, m) && lo <= j < hi <= |was| && (j - lo) % 2 == 1
    ensures -m <= x[j] - was[j] <= m
  {}

  /** From limb 17 down to limb 12, and the carries behind it. */
  method ReduceMiddle(s: array<Int64>) returns (ghost q: int)
    requires s.Length == 24 && Within(s[..], 6, 18, 0x10_0000_0000) && Within(s[..], 0, 6, 0x80_0000_0000_0000)
    requires forall j :: 18 <= j < 24 ==> s[j] == 0
    modifies s
    ensures Val(s[..]) == Val(old(s[..])) - ORDER * q
    ensures Within(s[..], 0, 13, 0x100_0000_0000) && -0x10_0000 <= s[11] < 0x10_0000
    ensures forall j :: 13 <= j < 24 ==> s[j] == 0
  {
    hide Folding, Carrying, Val;
    ghost var v, b, c := s[11], 0x10_0000_0000, 0x80_0000_0000_0000;
    MiddleFolds(s[..], b, c);
    q := FoldSix(s, 17, b, c, v);
    Folded(s[..], 17, b, c + 6 * 0x10_0000 * b, v, b);
    ghost var was: seq<int>, m := s[..], 0x40_0000_0000;
    CarryStart(was, 0, m);
    CarrySix(s, 0, was, 0, m);
    ghost var mid: seq<int> := s[..];
    CarryDone(was, mid, 0, 12, m, m * RADIX);
    CarryStart(mid, 1, 2 * m);
    CarrySix(s, 1, mid, 1, 2 * m);
    CarryDone(mid, s[..], 1, 13, 2 * m, m * RADIX + m);
    BothCarried(was, mid, s[..], 0, 12, 13, m, 2 * m);
    LastCarried(mid, s[..], 1, 12, 13, 2 * m);
    Balanced(mid, s[..], 1, 11, 13, 2 * m);
  }

  lemma MiddleFolds(x: seq<int>, b: int, c: int)
    requires |x| == 24 && Within(x, 6, 18, b) && Within(x, 0, 6, c) && 0 <= b <= c
    ensures Folding(x, 17, 17, b, c, x[11]) && -b <= x[11] <= b
  {}

  /** A limb that a round has carried. */
  lemma Balanced(was: seq<int>, x: seq<int>, lo: nat, j: nat, hi: nat, m: int)
    requires Carrying(was, x, lo, hi, m) && lo <= j < hi <= |was| && (j - lo) % 2 == 0
    ensures -0x10_0000 <= x[j] < 0x10_0000
  {}

  // ---------- the last two folds ----------

  const TOP := 0x1000_0000_0000_0000_0000_0000_0000_0000_0000_0000_0000_0000_0000_0000_0000_0000

  lemma WeightsTop()
    ensures Weight(12) == TOP && 0x20_0000 * Weight(11) == TOP
  {
    Weights12(1, 0);
  }

  /** The value of thirteen limbs, by the lower eleven and the two above. */
  lemma ThreeParts(x: seq<int>)
    requires |x| == 24 && forall j :: 13 <= j < 24 ==> x[j] == 0
    ensures Val(x) == Val(x[..11]) + Weight(11) * x[11] + Weight(12) * x[12]
  {
    FromSplit(x, 0, 11);
    ZerosFrom(x, 13);
    assert From(x, 12) == x[12] + RADIX * From(x, 13);
    assert From(x, 11) == x[11] + RADIX * x[12];
    MulAssoc(RADIX, Weight(11), x[12]);
    MulMinus(Weight(11), x[11], -(RADIX * x[12]));
  }

  /** The eleven lower limbs are small against limb eleven. */
  lemma LowPart(x: seq<int>)
    requires |x| >= 11 && Within(x, 0, 11, 0x100_0000_0000)
    ensures -TOP <= 3 * Val(x[..11]) <= TOP
  {
    var low := x[..11];
    assert Within(low, 0, 11, 0x100_0000_0000);
    FromBound(low, 0, 0x100_0000_0000);
    WeightsTop();
  }

  /** After the first of them the number is within the order, roughly. */
  lemma NearZero(x: seq<int>)
    requires |x| == 24 && Within(x, 0, 13, 0x100_0000_0000) && -0x10_0000 <= x[11] < 0x10_0000
    requires forall j :: 13 <= j < 24 ==> x[j] == 0
    ensures -TOP <= Val(x) - ORDER * x[12] < TOP
  {
    ThreeParts(x);
    LowPart(x);
    WeightsTop();
    hide Val, Weight, Within;
    TopPart(Weight(11), x[11], x[12]);
  }

  lemma TopPart(w: int, a: int, b: int)
    requires 0x20_0000 * w == TOP && -0x10_0000 <= a < 0x10_0000 && -0x100_0000_0000 <= b <= 0x100_0000_0000
    ensures -TOP <= 2 * (w * a) <= TOP
    ensures -TOP <= 16 * (TOP * b - ORDER * b) <= TOP
  {
    MulMonotone(w, a, 0x10_0000); MulMonotone(w, -0x10_0000, a);
  }

  /** What digits leave above themselves. */
  lemma Overflow(x: seq<int>)
    requires |x| == 24 && (forall j :: 0 <= j < 12 ==> 0 <= x[j] < RADIX) && forall j :: 13 <= j < 24 ==> x[j] == 0
    requires -TOP <= Val(x) < TOP
    ensures x[12] == 0 || x[12] == -1
    ensures 0 <= Val(x) - ORDER * x[12] < ORDER
  {
    FromSplit(x, 0, 12);
    DigitsRange(x[..12], 0);
    ZerosFrom(x, 13);
    WeightsTop();
    assert From(x, 12) == x[12] + RADIX * From(x, 13) == x[12];
    assert Val(x) == Val(x[..12]) + TOP * x[12];
  }

  /** One more fold of limb 12. */
  method FoldLast(s: array<Int64>, ghost b: int, ghost c: int)
    requires s.Length == 24 && 0 <= b <= c && b <= 0x100_0000_0000 && c <= 0x1000_0000_0000_0000
    requires Within(s[..], 0, 12, c) && -b <= s[12] <= b && forall j :: 13 <= j < 24 ==> s[j] == 0
    modifies s
    ensures Within(s[..], 0, 12, c + 0x10_0000 * b) && forall j :: 12 <= j < 24 ==> s[j] == 0
    ensures Val(s[..]) == Val(old(s[..])) - ORDER * old(s[12])
  {
    ghost var q := FoldLimb(s, 12, 17, b, c, s[11]);
  }

  /** The last two folds: what is left is the remainder, in digits but for limb 11. */
  method ReduceLow(s: array<Int64>) returns (ghost q: int)
    requires s.Length == 24 && Within(s[..], 0, 13, 0x100_0000_0000) && -0x10_0000 <= s[11] < 0x10_0000
    requires forall j :: 13 <= j < 24 ==> s[j] == 0
    modifies s
    ensures Val(s[..]) == Val(old(s[..])) - ORDER * q && 0 <= Val(s[..]) < ORDER
    ensures (forall j :: 0 <= j < 11 ==> 0 <= s[j] < RADIX) && forall j :: 12 <= j < 24 ==> s[j] == 0
  {
    hide Val, Weight;
    ghost var b := 0x100_0000_0000;
    q := s[12];
    NearZero(s[..]);
    FoldLast(s, b, b);
    ghost var was: seq<int> := s[..];
    RippleEleven(s, was, b, b + 0x10_0000 * b);
    CarryDown(s, 11, was, b, b + 0x10_0000 * b);
    Overflow(s[..]);
    q := q + s[12];
    FoldLast(s, 1, RADIX);
    was := s[..];
    RippleEleven(s, was, 3, RADIX + 0x10_0000);
  }
}
