/** Numbers in limbs of 21 bits, which may be negative or too large, and what steps on limbs do to the number. */
module Limbs {
  import opened Arith

  const RADIX := 0x20_0000

  /** The weight of limb i. */
  function Weight(i: nat): (w: nat)
    ensures w > 0
  {
    if i == 0 then 1 else RADIX * Weight(i - 1)
  }

  /** The number from limb i on, in units of that limb. */
  function From(x: seq<int>, i: nat): int
    requires i <= |x|
    decreases |x| - i
  {
    if i == |x| then 0 else x[i] + RADIX * From(x, i + 1)
  }

  function Val(x: seq<int>): int {
    From(x, 0)
  }

  function AddAt(x: seq<int>, i: nat, d: int): (y: seq<int>)
    requires i < |x|
    ensures |y| == |x| && y[i] == x[i] + d && forall j :: 0 <= j < |x| && j != i ==> y[j] == x[j]
  {
    x[i := x[i] + d]
  }

  lemma MulAssoc(a: int, b: int, c: int)
    ensures a * (b * c) == (a * b) * c == b * (a * c)
  {}

  /** Adding to a limb adds at its weight. */
  lemma {:induction false} AddAtFrom(x: seq<int>, i: nat, d: int, j: nat)
    requires j <= i < |x|
    ensures From(AddAt(x, i, d), j) == From(x, j) + d * Weight(i - j)
    decreases i - j
  {
    var y := AddAt(x, i, d);
    if j < i {
      AddAtFrom(x, i, d, j + 1);
      MulAssoc(d, RADIX, Weight(i - j - 1));
    } else {
      SameFrom(x, y, i + 1);
    }
  }

  lemma {:induction false} SameFrom(x: seq<int>, y: seq<int>, i: nat)
    requires |x| == |y| && i <= |x| && forall j :: i <= j < |x| ==> x[j] == y[j]
    ensures From(x, i) == From(y, i)
    decreases |x| - i
  {
    if i < |x| { SameFrom(x, y, i + 1); }
  }

  lemma AddAtVal(x: seq<int>, i: nat, d: int)
    requires i < |x|
    ensures Val(AddAt(x, i, d)) == Val(x) + d * Weight(i)
  {
    AddAtFrom(x, i, d, 0);
  }

  // ---------- bounds ----------

  /** Limbs lo to hi - 1 are at most b in size. */
  ghost predicate Within(x: seq<int>, lo: nat, hi: nat, b: int) {
    hi <= |x| && forall i :: lo <= i < hi ==> -b <= x[i] <= b
  }

  /** The numbers that limbs of size b can make. */
  lemma {:induction false} FromBound(x: seq<int>, i: nat, b: int)
    requires i <= |x| && Within(x, i, |x|, b) && b >= 0
    ensures -(b * (Weight(|x| - i) - 1)) <= (RADIX - 1) * From(x, i) <= b * (Weight(|x| - i) - 1)
    decreases |x| - i
  {
    if i < |x| {
      FromBound(x, i + 1, b);
      BoundStep(b, Weight(|x| - i - 1), x[i], From(x, i + 1));
    }
  }

  lemma BoundStep(b: int, w: int, x: int, f: int)
    requires -b <= x <= b && -(b * (w - 1)) <= (RADIX - 1) * f <= b * (w - 1)
    ensures -(b * (RADIX * w - 1)) <= (RADIX - 1) * (x + RADIX * f) <= b * (RADIX * w - 1)
  {
    MulAssoc(b, RADIX, w);
    MulMinus(b, w, 1); MulMinus(b, RADIX * w, 1);
  }

  /** The limbs below n and those from n on. */
  lemma {:induction false} FromSplit(x: seq<int>, i: nat, n: nat)
    requires i <= n <= |x|
    ensures From(x, i) == From(x[..n], i) + Weight(n - i) * From(x, n)
    decreases n - i
  {
    if i < n {
      FromSplit(x, i + 1, n);
      MulAssoc(RADIX, Weight(n - i - 1), From(x, n));
    }
  }

  /** Digits make a number below the next weight. */
  lemma {:induction false} DigitsRange(x: seq<int>, i: nat)
    requires i <= |x| && forall j :: i <= j < |x| ==> 0 <= x[j] < RADIX
    ensures 0 <= From(x, i) < Weight(|x| - i)
    decreases |x| - i
  {
    if i < |x| { DigitsRange(x, i + 1); }
  }

  lemma {:induction false} ZerosFrom(x: seq<int>, i: nat)
    requires i <= |x| && forall j :: i <= j < |x| ==> x[j] == 0
    ensures From(x, i) == 0
    decreases |x| - i
  {
    if i < |x| { ZerosFrom(x, i + 1); }
  }
}
