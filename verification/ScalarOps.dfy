/** sc_reduce and sc_muladd. */
module ScalarOps {
  import opened Arith
  import opened Crc
  import opened Limbs
  import opened ByteNumber
  import opened ScalarSteps
  import opened Scalar
  import opened ScalarBytes
  import opened ScalarStore

  /** A number below the order leaves at most 2^21 for limb 11. */
  lemma TopLimb(x: seq<int>)
    requires |x| == 24 && (forall j :: 0 <= j < 11 ==> 0 <= x[j] < RADIX) && forall j :: 12 <= j < 24 ==> x[j] == 0
    requires 0 <= Val(x) < ORDER
    ensures Digits(x)
  {
    FromSplit(x, 0, 11);
    DigitsRange(x[..11], 0);
    ZerosFrom(x, 12);
    assert From(x, 11) == x[11] + RADIX * From(x, 12);
    WeightsTop();
    hide From, Weight;
    TopLimbSize(Weight(11), x[11], From(x[..11], 0));
  }

  lemma TopLimbSize(w: int, v: int, low: int)
    requires 0x20_0000 * w == TOP && 0 <= low < w && 0 <= low + w * v < ORDER
    ensures 0 <= v <= RADIX
  {
    if v < 0 { MulMonotone(w, v, -1); }
    if v > RADIX { MulMonotone(w, RADIX + 1, v); }
  }

  /** From the first fold to the last carry, for limbs that fit. */
  method Reduce(x: array<Int64>)
    requires x.Length == 24 && Within(x[..], 0, 24, 0x1_0000_0000)
    modifies x
    ensures Digits(x[..]) && Val(x[..]) == Val(old(x[..])) % ORDER
  {
    hide Val, Digits, Within;
    ghost var v := Val(x[..]);
    ghost var q := ReduceTop(x);
    ghost var p := ReduceMiddle(x);
    q := q + p;
    p := ReduceLow(x);
    q := q + p;
    TopLimb(x[..]);
    QuotientIs(v, ORDER, q, Val(x[..]));
  }

  /** sc_reduce: the first 32 bytes become the remainder by the order of what all 64 were. */
  method ScReduce(s: array<Byte>)
    requires s.Length == 64
    modifies s
    ensures Le(s[..32]) == Le(old(s[..])) % ORDER
    ensures forall i :: 32 <= i < 64 ==> s[i] == old(s[i])
  {
    hide Le, Val, Digits;
    var x := LoadWide(s[..]);
    Reduce(x);
    Store(s, x[..]);
  }

  // ---------- products ----------

  /** The product of limb i of a that goes into limb k. */
  function Term(a: seq<int>, b: seq<int>, k: nat, i: nat): int
    requires i < |a|
  {
    if i <= k < i + |b| then a[i] * b[k - i] else 0
  }

  /** What the products of the first n limbs of a put into limb k. */
  function Conv(a: seq<int>, b: seq<int>, k: nat, n: nat): int
    requires n <= |a|
    decreases n
  {
    if n == 0 then 0 else Conv(a, b, k, n - 1) + Term(a, b, k, n - 1)
  }

  // The sums of products, limb by limb.

  function Limb0(a: seq<int>, b: seq<int>): (v: int)
    requires |a| == |b| == 12
    ensures v == Conv(a, b, 0, 12)
  {
    a[0] * b[0]
  }

  function Limb1(a: seq<int>, b: seq<int>): (v: int)
    requires |a| == |b| == 12
    ensures v == Conv(a, b, 1, 12)
  {
    a[0] * b[1] + a[1] * b[0]
  }

  function Limb2(a: seq<int>, b: seq<int>): (v: int)
    requires |a| == |b| == 12
    ensures v == Conv(a, b, 2, 12)
  {
    a[0] * b[2] + a[1] * b[1] + a[2] * b[0]
  }

  function Limb3(a: seq<int>, b: seq<int>): (v: int)
    requires |a| == |b| == 12
    ensures v == Conv(a, b, 3, 12)
  {
    a[0] * b[3] + a[1] * b[2] + a[2] * b[1] + a[3] * b[0]
  }

  function Limb4(a: seq<int>, b: seq<int>): (v: int)
    requires |a| == |b| == 12
    ensures v == Conv(a, b, 4, 12)
  {
    a[0] * b[4] + a[1] * b[3] + a[2] * b[2] + a[3] * b[1] + a[4] * b[0]
  }

  function Limb5(a: seq<int>, b: seq<int>): (v: int)
    requires |a| == |b| == 12
    ensures v == Conv(a, b, 5, 12)
  {
    a[0] * b[5] + a[1] * b[4] + a[2] * b[3] + a[3] * b[2] + a[4] * b[1] + a[5] * b[0]
  }

  function Limb6(a: seq<int>, b: seq<int>): (v: int)
    requires |a| == |b| == 12
    ensures v == Conv(a, b, 6, 12)
  {
    a[0] * b[6] + a[1] * b[5] + a[2] * b[4] + a[3] * b[3] + a[4] * b[2] + a[5] * b[1] + a[6] * b[0]
  }

  function Limb7(a: seq<int>, b: seq<int>): (v: int)
    requires |a| == |b| == 12
    ensures v == Conv(a, b, 7, 12)
  {
    a[0] * b[7] + a[1] * b[6] + a[2] * b[5] + a[3] * b[4] + a[4] * b[3] + a[5] * b[2] + a[6] * b[1] + a[7] * b[0]
  }

  function Limb8(a: seq<int>, b: seq<int>): (v: int)
    requires |a| == |b| == 12
    ensures v == Conv(a, b, 8, 12)
  {
    a[0] * b[8] + a[1] * b[7] + a[2] * b[6] + a[3] * b[5] + a[4] * b[4] + a[5] * b[3] + a[6] * b[2] + a[7] * b[1]
      + a[8] * b[0]
  }

  function Limb9(a: seq<int>, b: seq<int>): (v: int)
    requires |a| == |b| == 12
    ensures v == Conv(a, b, 9, 12)
  {
    a[0] * b[9] + a[1] * b[8] + a[2] * b[7] + a[3] * b[6] + a[4] * b[5] + a[5] * b[4] + a[6] * b[3] + a[7] * b[2]
      + a[8] * b[1] + a[9] * b[0]
  }

  function Limb10(a: seq<int>, b: seq<int>): (v: int)
    requires |a| == |b| == 12
    ensures v == Conv(a, b, 10, 12)
  {
    a[0] * b[10] + a[1] * b[9] + a[2] * b[8] + a[3] * b[7] + a[4] * b[6] + a[5] * b[5] + a[6] * b[4] + a[7] * b[3]
      + a[8] * b[2] + a[9] * b[1] + a[10] * b[0]
  }

  function Limb11(a: seq<int>, b: seq<int>): (v: int)
    requires |a| == |b| == 12
    ensures v == Conv(a, b, 11, 12)
  {
    a[0] * b[11] + a[1] * b[10] + a[2] * b[9] + a[3] * b[8] + a[4] * b[7] + a[5] * b[6] + a[6] * b[5] + a[7] * b[4]
      + a[8] * b[3] + a[9] * b[2] + a[10] * b[1] + a[11] * b[0]
  }

  function Limb12(a: seq<int>, b: seq<int>): (v: int)
    requires |a| == |b| == 12
    ensures v == Conv(a, b, 12, 12)
  {
    a[1] * b[11] + a[2] * b[10] + a[3] * b[9] + a[4] * b[8] + a[5] * b[7] + a[6] * b[6] + a[7] * b[5] + a[8] * b[4]
      + a[9] * b[3] + a[10] * b[2] + a[11] * b[1]
  }

  function Limb13(a: seq<int>, b: seq<int>): (v: int)
    requires |a| == |b| == 12
    ensures v == Conv(a, b, 13, 12)
  {
    a[2] * b[11] + a[3] * b[10] + a[4] * b[9] + a[5] * b[8] + a[6] * b[7] + a[7] * b[6] + a[8] * b[5] + a[9] * b[4]
      + a[10] * b[3] + a[11] * b[2]
  }

  function Limb14(a: seq<int>, b: seq<int>): (v: int)
    requires |a| == |b| == 12
    ensures v == Conv(a, b, 14, 12)
  {
    a[3] * b[11] + a[4] * b[10] + a[5] * b[9] + a[6] * b[8] + a[7] * b[7] + a[8] * b[6] + a[9] * b[5] + a[10] * b[4]
      + a[11] * b[3]
  }

  function Limb15(a: seq<int>, b: seq<int>): (v: int)
    requires |a| == |b| == 12
    ensures v == Conv(a, b, 15, 12)
  {
    a[4] * b[11] + a[5] * b[10] + a[6] * b[9] + a[7] * b[8] + a[8] * b[7] + a[9] * b[6] + a[10] * b[5] + a[11] * b[4]
  }

  function Limb16(a: seq<int>, b: seq<int>): (v: int)
    requires |a| == |b| == 12
    ensures v == Conv(a, b, 16, 12)
  {
    a[5] * b[11] + a[6] * b[10] + a[7] * b[9] + a[8] * b[8] + a[9] * b[7] + a[10] * b[6] + a[11] * b[5]
  }

  function Limb17(a: seq<int>, b: seq<int>): (v: int)
    requires |a| == |b| == 12
    ensures v == Conv(a, b, 17, 12)
  {
    a[6] * b[11] + a[7] * b[10] + a[8] * b[9] + a[9] * b[8] + a[10] * b[7] + a[11] * b[6]
  }

  function Limb18(a: seq<int>, b: seq<int>): (v: int)
    requires |a| == |b| == 12
    ensures v == Conv(a, b, 18, 12)
  {
    a[7] * b[11] + a[8] * b[10] + a[9] * b[9] + a[10] * b[8] + a[11] * b[7]
  }

  function Limb19(a: seq<int>, b: seq<int>): (v: int)
    requires |a| == |b| == 12
    ensures v == Conv(a, b, 19, 12)
  {
    a[8] * b[11] + a[9] * b[10] + a[10] * b[9] + a[11] * b[8]
  }

  function Limb20(a: seq<int>, b: seq<int>): (v: int)
    requires |a| == |b| == 12
    ensures v == Conv(a, b, 20, 12)
  {
    a[9] * b[11] + a[10] * b[10] + a[11] * b[9]
  }

  function Limb21(a: seq<int>, b: seq<int>): (v: int)
    requires |a| == |b| == 12
    ensures v == Conv(a, b, 21, 12)
  {
    a[10] * b[11] + a[11] * b[10]
  }

  function Limb22(a: seq<int>, b: seq<int>): (v: int)
    requires |a| == |b| == 12
    ensures v == Conv(a, b, 22, 12)
  {
    a[11] * b[11]
  }

  /** Twelve limbs of a number of 32 bytes. */
  ghost predicate Narrow(a: seq<int>) {
    |a| == 12 && (forall i :: 0 <= i < 11 ==> 0 <= a[i] < RADIX) && 0 <= a[11] < 0x200_0000
  }

  lemma TermBound(a: seq<int>, b: seq<int>, k: nat, i: nat)
    requires Narrow(a) && Narrow(b) && i < 12 && k <= 21
    ensures 0 <= Term(a, b, k, i) <= 0x4000_0000_0000
  {
    if i <= k < i + 12 {
      var u, v := a[i], b[k - i];
      if i == 11 {
        ProductBound(u, 0x200_0000, v, RADIX);
      } else {
        ProductBound(u, RADIX, v, 0x200_0000);
      }
    }
  }

  lemma ProductBound(u: int, m: int, v: int, n: int)
    requires 0 <= u < m && 0 <= v < n
    ensures 0 <= u * v <= m * n
  {
    MulMonotone(u, v, n); MulMonotone(n, u, m); MulMonotone(u, 0, v);
  }

  lemma {:induction false} ConvBound(a: seq<int>, b: seq<int>, k: nat, n: nat)
    requires Narrow(a) && Narrow(b) && n <= 12 && k <= 21
    ensures 0 <= Conv(a, b, k, n) <= 0x4000_0000_0000 * n
    decreases n
  {
    if n > 0 {
      TermBound(a, b, k, n - 1);
      ConvBound(a, b, k, n - 1);
    }
  }

  ghost predicate Sized(x: seq<int>, k: nat, v: int) {
    k < |x| && x[k] == v && 0 <= v <= 0x4_0000_0000_0000
  }

  /** What goes into limb k of a * b + c. */
  function Into(a: seq<int>, b: seq<int>, c: seq<int>, k: nat): int
    requires |a| == |c| == 12
  {
    Conv(a, b, k, 12) + if k < 12 then c[k] else 0
  }

  lemma IntoBound(a: seq<int>, b: seq<int>, c: seq<int>, k: nat)
    requires Narrow(a) && Narrow(b) && Narrow(c) && k <= 21
    ensures 0 <= Into(a, b, c, k) <= 0x4_0000_0000_0000
  {
    ConvBound(a, b, k, 12);
  }

  method MulLines0(s: array<Int64>, a: seq<Int64>, b: seq<Int64>, c: seq<Int64>)
    requires s.Length == 24 && Narrow(a) && Narrow(b) && Narrow(c)
    modifies s
    ensures forall k :: 0 <= k < 4 ==> s[k] == Into(a, b, c, k)
    ensures forall k :: 0 <= k < 24 && !(0 <= k < 4) ==> s[k] == old(s[k])
  {
    hide Conv, Limb0, Limb1, Limb2, Limb3;
    IntoBound(a, b, c, 0); IntoBound(a, b, c, 1); IntoBound(a, b, c, 2); IntoBound(a, b, c, 3);
    s[0] := c[0] + Limb0(a, b);
    s[1] := c[1] + Limb1(a, b);
    s[2] := c[2] + Limb2(a, b);
    s[3] := c[3] + Limb3(a, b);
  }

  method MulLines4(s: array<Int64>, a: seq<Int64>, b: seq<Int64>, c: seq<Int64>)
    requires s.Length == 24 && Narrow(a) && Narrow(b) && Narrow(c)
    modifies s
    ensures forall k :: 4 <= k < 8 ==> s[k] == Into(a, b, c, k)
    ensures forall k :: 0 <= k < 24 && !(4 <= k < 8) ==> s[k] == old(s[k])
  {
    hide Conv, Limb4, Limb5, Limb6, Limb7;
    IntoBound(a, b, c, 4); IntoBound(a, b, c, 5); IntoBound(a, b, c, 6); IntoBound(a, b, c, 7);
    s[4] := c[4] + Limb4(a, b);
    s[5] := c[5] + Limb5(a, b);
    s[6] := c[6] + Limb6(a, b);
    s[7] := c[7] + Limb7(a, b);
  }

  method MulLines8(s: array<Int64>, a: seq<Int64>, b: seq<Int64>, c: seq<Int64>)
    requires s.Length == 24 && Narrow(a) && Narrow(b) && Narrow(c)
    modifies s
    ensures forall k :: 8 <= k < 12 ==> s[k] == Into(a, b, c, k)
    ensures forall k :: 0 <= k < 24 && !(8 <= k < 12) ==> s[k] == old(s[k])
  {
    hide Conv, Limb8, Limb9, Limb10, Limb11;
    IntoBound(a, b, c, 8); IntoBound(a, b, c, 9); IntoBound(a, b, c, 10); IntoBound(a, b, c, 11);
    s[8] := c[8] + Limb8(a, b);
    s[9] := c[9] + Limb9(a, b);
    s[10] := c[10] + Limb10(a, b);
    s[11] := c[11] + Limb11(a, b);
  }

  method MulLines12(s: array<Int64>, a: seq<Int64>, b: seq<Int64>, c: seq<Int64>)
    requires s.Length == 24 && Narrow(a) && Narrow(b) && Narrow(c)
    modifies s
    ensures forall k :: 12 <= k < 16 ==> s[k] == Into(a, b, c, k)
    ensures forall k :: 0 <= k < 24 && !(12 <= k < 16) ==> s[k] == old(s[k])
  {
    hide Conv, Limb12, Limb13, Limb14, Limb15;
    IntoBound(a, b, c, 12); IntoBound(a, b, c, 13); IntoBound(a, b, c, 14); IntoBound(a, b, c, 15);
    s[12] := Limb12(a, b);
    s[13] := Limb13(a, b);
    s[14] := Limb14(a, b);
    s[15] := Limb15(a, b);
  }

  method MulLines16(s: array<Int64>, a: seq<Int64>, b: seq<Int64>, c: seq<Int64>)
    requires s.Length == 24 && Narrow(a) && Narrow(b) && Narrow(c)
    modifies s
    ensures forall k :: 16 <= k < 20 ==> s[k] == Into(a, b, c, k)
    ensures forall k :: 0 <= k < 24 && !(16 <= k < 20) ==> s[k] == old(s[k])
  {
    hide Conv, Limb16, Limb17, Limb18, Limb19;
    IntoBound(a, b, c, 16); IntoBound(a, b, c, 17); IntoBound(a, b, c, 18); IntoBound(a, b, c, 19);
    s[16] := Limb16(a, b);
    s[17] := Limb17(a, b);
    s[18] := Limb18(a, b);
    s[19] := Limb19(a, b);
  }

  method MulLines20(s: array<Int64>, a: seq<Int64>, b: seq<Int64>, c: seq<Int64>)
    requires s.Length == 24 && Narrow(a) && Narrow(b) && Narrow(c)
    modifies s
    ensures forall k :: 20 <= k < 24 ==> s[k] == Into(a, b, c, k)
    ensures forall k :: 0 <= k < 24 && !(20 <= k < 24) ==> s[k] == old(s[k])
  {
    IntoTop(a, b, c);
    hide Conv, Limb20, Limb21, Limb22;
    IntoBound(a, b, c, 20); IntoBound(a, b, c, 21);
    s[20] := Limb20(a, b);
    s[21] := Limb21(a, b);
    s[22] := Limb22(a, b);
    s[23] := 0;
  }

  lemma IntoTop(a: seq<int>, b: seq<int>, c: seq<int>)
    requires Narrow(a) && Narrow(b) && Narrow(c)
    ensures Into(a, b, c, 22) == Limb22(a, b) && 0 <= Into(a, b, c, 22) <= 0x4_0000_0000_0000
    ensures Into(a, b, c, 23) == 0
  {
    ProductBound(a[11], 0x200_0000, b[11], 0x200_0000);
  }

  /** The limbs of a * b + c, not yet carried. */
  method Multiply(a: seq<Int64>, b: seq<Int64>, c: seq<Int64>) returns (s: array<Int64>)
    requires Narrow(a) && Narrow(b) && Narrow(c)
    ensures fresh(s) && s.Length == 24 && Within(s[..], 0, 24, 0x4_0000_0000_0000) && s[23] == 0
    ensures Val(s[..]) == Val(a) * Val(b) + Val(c)
  {
    hide Conv, Into, Val;
    s := new Int64[24](_ => 0);
    MulLines0(s, a, b, c);
    MulLines4(s, a, b, c);
    MulLines8(s, a, b, c);
    MulLines12(s, a, b, c);
    MulLines16(s, a, b, c);
    MulLines20(s, a, b, c);
    IntoTop(a, b, c);
    forall k: nat | k < 22 ensures 0 <= Into(a, b, c, k) <= 0x4_0000_0000_0000 { IntoBound(a, b, c, k); }
    IntoVal(s[..], a, b, c);
  }

  // ---------- the value of a product ----------

  ghost function Rows(a: seq<int>, b: seq<int>, n: nat): (r: seq<int>)
    requires n <= |a|
    ensures |r| == 24 && forall k: nat :: k < 24 ==> r[k] == Conv(a, b, k, n)
  {
    seq(24, k requires 0 <= k => Conv(a, b, k, n))
  }

  /** y is x and d times b, moved up by n limbs. */
  ghost predicate RowAdded(x: seq<int>, y: seq<int>, b: seq<int>, n: nat, d: int) {
    |x| == |y| && n + |b| <= |x|
    && forall k: nat :: k < |x| ==> y[k] == x[k] + if n <= k < n + |b| then d * b[k - n] else 0
  }

  ghost function Part(b: seq<int>, n: nat, k: nat): int {
    if k <= n then Weight(n - k) * Val(b) else if k - n <= |b| then From(b, k - n) else 0
  }

  lemma PartStep(b: seq<int>, n: nat, k: nat)
    ensures Part(b, n, k) == (if n <= k < n + |b| then b[k - n] else 0) + RADIX * Part(b, n, k + 1)
  {
    if k < n { Limbs.MulAssoc(RADIX, Weight(n - k - 1), Val(b)); }
  }

  lemma {:induction false} RowFrom(x: seq<int>, y: seq<int>, b: seq<int>, n: nat, d: int, k: nat)
    requires RowAdded(x, y, b, n, d) && k <= |x|
    ensures From(y, k) == From(x, k) + d * Part(b, n, k)
    decreases |x| - k
  {
    hide Part;
    if k < |x| {
      RowFrom(x, y, b, n, d, k + 1);
      PartStep(b, n, k);
      var v := if n <= k < n + |b| then b[k - n] else 0;
      Limbs.MulAssoc(d, RADIX, Part(b, n, k + 1));
      MulMinus(d, v, -(RADIX * Part(b, n, k + 1)));
    } else {
      PartEnd(b, n, k);
    }
  }

  lemma PartEnd(b: seq<int>, n: nat, k: nat)
    requires k >= n + |b|
    ensures Part(b, n, k) == 0
  {}

  lemma RowVal(x: seq<int>, y: seq<int>, b: seq<int>, n: nat, d: int)
    requires RowAdded(x, y, b, n, d)
    ensures Val(y) == Val(x) + d * (Weight(n) * Val(b))
  {
    RowFrom(x, y, b, n, d, 0);
  }

  lemma {:induction false} RowsVal(a: seq<int>, b: seq<int>, n: nat)
    requires |a| == |b| == 12 && n <= 12
    ensures Val(Rows(a, b, n)) == Val(a[..n]) * Val(b)
    decreases n
  {
    if n == 0 {
      ZerosFrom(Rows(a, b, 0), 0);
    } else {
      RowsVal(a, b, n - 1);
      RowsStep(a, b, n - 1);
      RowVal(Rows(a, b, n - 1), Rows(a, b, n), b, n - 1, a[n - 1]);
      FrontVal(a, n - 1);
      ProductStep(Val(a[..n - 1]), a[n - 1], Weight(n - 1), Val(b));
    }
  }

  lemma RowsStep(a: seq<int>, b: seq<int>, n: nat)
    requires |a| == |b| == 12 && n < 12
    ensures RowAdded(Rows(a, b, n), Rows(a, b, n + 1), b, n, a[n])
  {}

  lemma FrontVal(a: seq<int>, n: nat)
    requires n < |a|
    ensures Val(a[..n + 1]) == Val(a[..n]) + a[n] * Weight(n)
  {
    var f := a[..n + 1];
    FromSplit(f, 0, n);
    assert f[..n] == a[..n];
    assert From(f, n) == f[n] + RADIX * From(f, n + 1);
  }

  lemma ProductStep(v: int, d: int, w: int, b: int)
    ensures (v + d * w) * b == v * b + d * (w * b)
  {}

  lemma IntoVal(x: seq<int>, a: seq<int>, b: seq<int>, c: seq<int>)
    requires |a| == |b| == |c| == 12 && |x| == 24 && forall k: nat :: k < 24 ==> x[k] == Into(a, b, c, k)
    ensures Val(x) == Val(a) * Val(b) + Val(c)
  {
    RowsVal(a, b, 12);
    assert a[..12] == a;
    hide Val, Conv;
    RowVal(Rows(a, b, 12), x, c, 0, 1);
    assert Weight(0) == 1;
  }

  /** The carries behind the products. */
  method CarryProducts(s: array<Int64>)
    requires s.Length == 24 && Within(s[..], 0, 24, 0x4_0000_0000_0000) && s[23] == 0
    modifies s
    ensures Within(s[..], 0, 24, 0x1_0000_0000) && Val(s[..]) == Val(old(s[..]))
  {
    hide Carrying, Val;
    ghost var m := 0x2000_0000;
    ghost var was: seq<int> := s[..];
    CarryStart(was, 0, m);
    CarrySix(s, 0, was, 0, m);
    CarrySix(s, 12, was, 0, m);
    ghost var mid: seq<int> := s[..];
    CarryDone(was, mid, 0, 24, m, m * RADIX);
    CarryStart(mid, 1, 2 * m);
    CarrySix(s, 1, mid, 1, 2 * m);
    CarryFive(s, 13, mid, 1, 2 * m);
    BothCarried(was, mid, s[..], 0, 24, 23, m, 2 * m);
    CarryDone(mid, s[..], 1, 23, 2 * m, m * RADIX + m);
    LastCarriedTo(was, mid, m);
  }

  /** Limb 23 has only what was carried into it, when it was empty. */
  lemma LastCarriedTo(was: seq<int>, x: seq<int>, m: int)
    requires |was| == 24 && Carrying(was, x, 0, 24, m)
    ensures was[23] == 0 ==> -m <= x[23] <= m
  {}

  /** sc_muladd: the 32 bytes of (a * b + c) mod the order. */
  method ScMulAdd(s: array<Byte>, a: seq<Byte>, b: seq<Byte>, c: seq<Byte>)
    requires s.Length >= 32 && |a| == |b| == |c| == 32
    modifies s
    ensures Le(s[..32]) == (Le(a) * Le(b) + Le(c)) % ORDER
    ensures forall i :: 32 <= i < s.Length ==> s[i] == old(s[i])
  {
    hide Le, Val, Digits;
    var x := LoadScalar(a);
    var y := LoadScalar(b);
    var z := LoadScalar(c);
    var t := Multiply(x[..], y[..], z[..]);
    CarryProducts(t);
    Reduce(t);
    Store(s, t[..]);
  }
}
