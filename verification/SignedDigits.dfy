/** Strings of signed digits, and the two recodings of a scalar: sliding windows and radix 16. */
module SignedDigits {
  import opened Gf2Poly
  import opened ByteNumber

  /** The number that the digits from i on make in base 2^k, in units of digit i. */
  function From(x: seq<int>, i: nat, base: nat): int
    requires i <= |x|
    decreases |x| - i
  {
    if i == |x| then 0 else x[i] + base * From(x, i + 1, base)
  }

  lemma {:induction false} SameFrom(x: seq<int>, y: seq<int>, i: nat, base: nat)
    requires |x| == |y| && i <= |x| && forall j :: i <= j < |x| ==> x[j] == y[j]
    ensures From(x, i, base) == From(y, i, base)
    decreases |x| - i
  {
    if i < |x| { SameFrom(x, y, i + 1, base); }
  }

  // ---------- binary digits ----------

  /** What all digits make. */
  function Value(x: seq<int>): int {
    From(x, 0, 2)
  }

  ghost predicate Bits01(x: seq<int>, lo: nat, hi: nat) {
    hi <= |x| && forall k :: lo <= k < hi ==> x[k] == 0 || x[k] == 1
  }

  ghost predicate AllZero(x: seq<int>, lo: nat, hi: nat) {
    hi <= |x| && forall k :: lo <= k < hi ==> x[k] == 0
  }

  /** Strings that differ from digit i on only. */
  lemma {:induction false} SamePrefix(x: seq<int>, y: seq<int>, j: nat, i: nat)
    requires |x| == |y| && j <= i <= |x| && forall k :: 0 <= k < i ==> x[k] == y[k]
    ensures From(y, j, 2) - From(x, j, 2) == Pow2(i - j) * (From(y, i, 2) - From(x, i, 2))
    decreases i - j
  {
    if j < i {
      SamePrefix(x, y, j + 1, i);
      MulAssoc(2, Pow2(i - j - 1), From(y, i, 2) - From(x, i, 2));
    }
  }

  /** Digits that are zero up to j. */
  lemma {:induction false} ZerosUpTo(x: seq<int>, i: nat, j: nat)
    requires i <= j && AllZero(x, i, j)
    ensures From(x, i, 2) == Pow2(j - i) * From(x, j, 2)
    decreases j - i
  {
    if i < j {
      ZerosUpTo(x, i + 1, j);
      MulAssoc(2, Pow2(j - i - 1), From(x, j, 2));
    }
  }

  /** Binary digits make a number of so many bits, the largest one exactly if all are one. */
  lemma {:induction false} BitsBound(x: seq<int>, i: nat)
    requires i <= |x| && Bits01(x, i, |x|)
    ensures 0 <= From(x, i, 2) < Pow2(|x| - i)
    ensures From(x, i, 2) + 1 == Pow2(|x| - i) <==> forall k :: i <= k < |x| ==> x[k] == 1
    decreases |x| - i
  {
    if i < |x| {
      BitsBound(x, i + 1);
      assert Pow2(|x| - i) == 2 * Pow2(|x| - i - 1);
    }
  }

  /** Adding one at digit m, with the carry going to digit k. */
  lemma {:induction false} CarryUp(x: seq<int>, y: seq<int>, m: nat, k: nat)
    requires m <= k < |x| && |y| == |x| && x[k] == 0 && y[k] == 1
    requires forall j :: m <= j < k ==> x[j] == 1 && y[j] == 0
    requires forall j :: k < j < |x| ==> y[j] == x[j]
    ensures From(y, m, 2) == From(x, m, 2) + 1
    decreases k - m
  {
    if m < k { CarryUp(x, y, m + 1, k); } else { SameFrom(x, y, k + 1, 2); }
  }
}
