/**
  The steps on scalars modulo the group order: folding a high limb down, and carrying, rounded to
  nearest or down. What each does to the number and to the size of the limbs.
*/
module ScalarSteps {
  import opened Arith
  import opened Limbs

  /** The order of the base point: 2^252 + 27742317777372353535851937790883648493. */
  const ORDER := 7237005577332262213973186563042994240857116359379907606001950938285454250989

  const MIN64 := -0x8000_0000_0000_0000
  const MAX64 := 0x7fff_ffff_ffff_ffff

  /** Signed words of 64 bits: what is stored must fit. */
  type Int64 = x: int | MIN64 <= x <= MAX64

  // ---------- folding ----------

  /** Limb k is replaced by what it is worth twelve limbs below. */
  function Fold(x: seq<int>, k: nat): (y: seq<int>)
    requires 12 <= k < |x|
    ensures |y| == |x| && y[k] == 0
    ensures forall j :: 0 <= j < |x| && j != k && !(k - 12 <= j <= k - 7) ==> y[j] == x[j]
  {
    var v := x[k];
    var low := AddAt(AddAt(AddAt(x, k - 12, v * 666643), k - 11, v * 470296), k - 10, v * 654183);
    var high := AddAt(AddAt(AddAt(low, k - 9, -(v * 997805)), k - 8, v * 136657), k - 7, -(v * 683901));
    AddAt(high, k, -v)
  }

  lemma Weights(w: nat, k: nat)
    requires w == Weight(k)
    ensures Weight(k + 1) == 0x20_0000 * w && Weight(k + 2) == 0x400_0000_0000 * w
    ensures Weight(k + 3) == 0x8000_0000_0000_0000 * w
  {}

  lemma Weights4(w: nat, k: nat)
    requires w == Weight(k)
    ensures Weight(k + 4) == 0x8000_0000_0000_0000 * 0x20_0000 * w
    ensures Weight(k + 5) == 0x8000_0000_0000_0000 * 0x400_0000_0000 * w
  {
    Weights(w, k);
    Weights(Weight(k + 3), k + 3);
  }

  lemma Weights12(w: nat, k: nat)
    requires w == Weight(k)
    ensures Weight(k + 12) == 0x1000_0000_0000_0000_0000_0000_0000_0000_0000_0000_0000_0000_0000_0000_0000_0000 * w
  {
    Weights(w, k);
    Weights(Weight(k + 3), k + 3);
    Weights(Weight(k + 6), k + 6);
    Weights(Weight(k + 9), k + 9);
  }

  /** The digits of the order below 2^252. */
  lemma FoldSum(v: int, w: nat, p: int)
    requires p == v * w
    ensures v * 666643 * w == 666643 * p
    ensures v * 470296 * (0x20_0000 * w) == 470296 * 0x20_0000 * p
    ensures v * 654183 * (0x400_0000_0000 * w) == 654183 * 0x400_0000_0000 * p
    ensures -(v * 997805) * (0x8000_0000_0000_0000 * w) == -997805 * 0x8000_0000_0000_0000 * p
    ensures v * 136657 * (0x8000_0000_0000_0000 * 0x20_0000 * w) == 136657 * 0x8000_0000_0000_0000 * 0x20_0000 * p
    ensures -(v * 683901) * (0x8000_0000_0000_0000 * 0x400_0000_0000 * w)
            == -683901 * 0x8000_0000_0000_0000 * 0x400_0000_0000 * p
  {
    Scaled(v, 666643, 1, w); Scaled(v, 470296, 0x20_0000, w); Scaled(v, 654183, 0x400_0000_0000, w);
    Scaled(v, -997805, 0x8000_0000_0000_0000, w);
    Scaled(v, 136657, 0x8000_0000_0000_0000 * 0x20_0000, w);
    Scaled(v, -683901, 0x8000_0000_0000_0000 * 0x400_0000_0000, w);
  }

  lemma Scaled(v: int, c: int, d: int, w: int)
    ensures v * c * (d * w) == (c * d) * (v * w)
  {
    MulAssoc(v * c, d, w);
    MulAssoc(d, v, c);
    MulAssoc(c * d, v, w);
  }

  lemma FoldTotal(p: int)
    ensures 666643 * p + 470296 * 0x20_0000 * p + 654183 * 0x400_0000_0000 * p + -997805 * 0x8000_0000_0000_0000 * p
      + 136657 * 0x8000_0000_0000_0000 * 0x20_0000 * p + -683901 * 0x8000_0000_0000_0000 * 0x400_0000_0000 * p
      + -0x1000_0000_0000_0000_0000_0000_0000_0000_0000_0000_0000_0000_0000_0000_0000_0000 * p == -(ORDER * p)
  {}

  /** Folding takes a multiple of the order away. */
  lemma FoldVal(x: seq<int>, k: nat)
    requires 12 <= k < |x|
    ensures Val(Fold(x, k)) == Val(x) - ORDER * (x[k] * Weight(k - 12))
  {
    hide Val, Weight, Fold, AddAt;
    var v, w := x[k], Weight(k - 12);
    FoldAdds(x, k);
    FoldSum(v, w, v * w);
    FoldTotal(v * w);
    Weights(w, k - 12); Weights4(w, k - 12); Weights12(w, k - 12);
    Scaled(v, -1, 0x1000_0000_0000_0000_0000_0000_0000_0000_0000_0000_0000_0000_0000_0000_0000_0000, w);
  }

  lemma FoldAdds(x: seq<int>, k: nat)
    requires 12 <= k < |x|
    ensures Val(Fold(x, k)) == Val(x) + x[k] * 666643 * Weight(k - 12) + x[k] * 470296 * Weight(k - 11)
      + x[k] * 654183 * Weight(k - 10) + -(x[k] * 997805) * Weight(k - 9) + x[k] * 136657 * Weight(k - 8)
      + -(x[k] * 683901) * Weight(k - 7) + -x[k] * Weight(k)
  {
    hide Val, Weight;
    var v := x[k];
    var x1 := AddAt(x, k - 12, v * 666643);
    AddAtVal(x, k - 12, v * 666643);
    var x2 := AddAt(x1, k - 11, v * 470296);
    AddAtVal(x1, k - 11, v * 470296);
    var x3 := AddAt(x2, k - 10, v * 654183);
    AddAtVal(x2, k - 10, v * 654183);
    var x4 := AddAt(x3, k - 9, -(v * 997805));
    AddAtVal(x3, k - 9, -(v * 997805));
    var x5 := AddAt(x4, k - 8, v * 136657);
    AddAtVal(x4, k - 8, v * 136657);
    var x6 := AddAt(x5, k - 7, -(v * 683901));
    AddAtVal(x5, k - 7, -(v * 683901));
    AddAtVal(x6, k, -v);
  }

  // ---------- carrying ----------

  /** c units of the next limb are moved there from limb i. */
  function Carry(x: seq<int>, i: nat, c: int): (y: seq<int>)
    requires i + 1 < |x|
    ensures |y| == |x| && y[i] == x[i] - c * RADIX && y[i + 1] == x[i + 1] + c
    ensures forall j :: 0 <= j < |x| && j != i && j != i + 1 ==> y[j] == x[j]
  {
    AddAt(AddAt(x, i + 1, c), i, -(c * RADIX))
  }

  lemma CarryVal(x: seq<int>, i: nat, c: int)
    requires i + 1 < |x|
    ensures Val(Carry(x, i, c)) == Val(x)
  {
    AddAtVal(x, i + 1, c);
    AddAtVal(AddAt(x, i + 1, c), i, -(c * RADIX));
    Scaled(c, -RADIX, 1, Weight(i));
    Scaled(c, 1, RADIX, Weight(i));
  }

  /** The carry of a limb, rounded to nearest. */
  function Nearest(v: int): (c: int)
    ensures -0x10_0000 <= v - c * RADIX < 0x10_0000
  {
    DivParts(v + 0x10_0000, RADIX);
    (v + 0x10_0000) / RADIX
  }

  /** The carry of a limb, rounded down. */
  function Down(v: int): (c: int)
    ensures 0 <= v - c * RADIX < RADIX
  {
    DivParts(v, RADIX);
    v / RADIX
  }

  lemma CarrySize(v: int, m: int)
    requires -(m * RADIX) <= v <= m * RADIX
    ensures -m <= Nearest(v) <= m && -m <= Down(v) <= m
  {}

  // ---------- six folds in a row ----------

  /**
    Limbs top down to k + 1 have been folded; those still to fold are of size b, those below top - 5
    of size c; the limb that no fold reaches is still v.
  */
  ghost predicate Folding(x: seq<int>, top: nat, k: nat, b: int, c: int, v: int) {
    && |x| == 24 && (top == 17 || top == 23) && top - 6 <= k <= top && b >= 0 && c >= 0
    && Within(x, top - 5, k + 1, b)
    && Within(x, 0, top - 5, c)
    && (forall j :: k < j <= top ==> x[j] == 0)
    && x[top - 6] == v
  }

  lemma FoldEntries(x: seq<int>, k: nat)
    requires 12 <= k < |x|
    ensures var y, v := Fold(x, k), x[k];
      && y[k - 12] == x[k - 12] + v * 666643 && y[k - 11] == x[k - 11] + v * 470296
      && y[k - 10] == x[k - 10] + v * 654183 && y[k - 9] == x[k - 9] - v * 997805
      && y[k - 8] == x[k - 8] + v * 136657 && y[k - 7] == x[k - 7] - v * 683901
  {}

  lemma FoldGrowth(x: seq<int>, k: nat, b: int)
    requires 12 <= k < |x| && -b <= x[k] <= b
    ensures forall j :: 0 <= j < |x| && j != k ==> -(0x10_0000 * b) <= Fold(x, k)[j] - x[j] <= 0x10_0000 * b
  {
    FoldEntries(x, k);
    hide Fold;
    var y := Fold(x, k);
    forall j | 0 <= j < |x| && j != k ensures -(0x10_0000 * b) <= y[j] - x[j] <= 0x10_0000 * b {
      if k - 12 <= j <= k - 7 {
        assert j == k - 12 || j == k - 11 || j == k - 10 || j == k - 9 || j == k - 8 || j == k - 7;
      }
    }
  }

  lemma FoldStep(x: seq<int>, top: nat, k: nat, b: int, c: int, v: int)
    requires Folding(x, top, k, b, c, v) && top - 5 <= k
    ensures Folding(Fold(x, k), top, k - 1, b, c + 0x10_0000 * b, v)
    ensures forall j :: top < j < 24 ==> Fold(x, k)[j] == x[j]
  {
    FoldGrowth(x, k, b);
    hide Fold;
    var y := Fold(x, k);
    forall j | 0 <= j < top - 5 ensures -(c + 0x10_0000 * b) <= y[j] <= c + 0x10_0000 * b {
      assert -c <= x[j] <= c;
    }
  }

  // ---------- carries over every other limb ----------

  /** Limbs lo, lo + 2, .. before i have been carried, with carries of at most m. */
  ghost predicate Carrying(was: seq<int>, x: seq<int>, lo: nat, i: nat, m: int) {
    && |x| == |was| && lo <= i
    && forall j :: 0 <= j < |x| ==>
         if j < lo || j >= i then x[j] == was[j]
         else if (j - lo) % 2 == 0 then -0x10_0000 <= x[j] < 0x10_0000
         else -m <= x[j] - was[j] <= m
  }

  lemma CarryStep(was: seq<int>, x: seq<int>, lo: nat, i: nat, m: int)
    requires Carrying(was, x, lo, i, m) && i + 1 < |x| && (i - lo) % 2 == 0
    requires -(m * RADIX) <= was[i] <= m * RADIX && m >= 0
    ensures Carrying(was, Carry(x, i, Nearest(x[i])), lo, i + 2, m)
  {
    CarrySize(x[i], m);
    assert x[i] == was[i] && x[i + 1] == was[i + 1];
    assert (i + 1 - lo) % 2 == 1;
  }

  // ---------- carries from limb to limb ----------

  /** Limbs before i are digits; limb i has received a carry of at most m; limbs were at most b. */
  ghost predicate Rippling(was: seq<int>, x: seq<int>, i: nat, m: int, b: int) {
    && |x| == |was| && i < |x|
    && (forall j :: 0 <= j < i ==> 0 <= x[j] < RADIX)
    && -m <= x[i] - was[i] <= m
    && (forall j :: i < j < |x| ==> x[j] == was[j])
    && Within(was, 0, |x|, b) && b + m <= m * RADIX && m >= 0
  }

  lemma RippleStep(was: seq<int>, x: seq<int>, i: nat, m: int, b: int)
    requires Rippling(was, x, i, m, b) && i + 1 < |x|
    ensures Rippling(was, Carry(x, i, Down(x[i])), i + 1, m, b)
  {
    CarrySize(x[i], m);
  }
}
