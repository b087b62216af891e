/** Operations on field elements held in arrays of limbs; results may go over their operands. */
module FieldOps {
  import opened Arith
  import opened FieldLimbs
  import opened FieldCarry
  import opened FieldMul
  import opened FieldSquare

  // ---------- the product, as a number ----------

  function Scaled(g: seq<int>, d: int): (p: seq<int>)
    requires |g| == 10
    ensures |p| == 10 && forall j :: 0 <= j < 10 ==> p[j] == d * g[j]
  {
    seq(10, j requires 0 <= j < 10 => d * g[j])
  }

  lemma {:induction false} ScaledFrom(g: seq<int>, d: int, i: nat)
    requires |g| == 10 && i <= 10
    ensures From(Scaled(g, d), i) == d * From(g, i)
    decreases 10 - i
  {
    if i < 10 {
      ScaledFrom(g, d, i + 1);
      Distribute(d, g[i], Radix(i), From(g, i + 1));
    }
  }

  lemma Distribute(d: int, a: int, r: int, b: int)
    ensures d * (a + r * b) == d * a + r * (d * b)
  {}

  /** The limbs after n limbs of f. */
  ghost function Accs(f: seq<int>, g: seq<int>, n: nat): (r: seq<int>)
    requires |f| == |g| == 10 && n <= 10
    ensures |r| == 10 && forall k :: 0 <= k < 10 ==> r[k] == Acc(f, g, k, n)
  {
    seq(10, k requires 0 <= k < 10 => Acc(f, g, k, n))
  }

  /** The number that the first n limbs make. */
  function Low(f: seq<int>, n: nat): int
    requires |f| == 10 && n <= 10
  {
    if n == 0 then 0 else Low(f, n - 1) + f[n - 1] * Weight(n - 1)
  }

  lemma LowAll(f: seq<int>, n: nat)
    requires |f| == 10 && n == 10
    ensures Low(f, n) == Val(f)
  {
    hide Val, Low, Weight;
    ValTen(f);
    LowFive(f, n - 5);
    LowHigh(f, n);
  }

  lemma LowFive(f: seq<int>, n: nat)
    requires |f| == 10 && n == 5
    ensures Low(f, n) == f[0] + 0x400_0000 * f[1] + 0x8_0000_0000_0000 * f[2] + 0x2000_0000_0000_0000_0000 * f[3]
      + 0x40_0000_0000_0000_0000_0000_0000 * f[4]
  {
    assert Low(f, n) == Low(f, n - 1) + f[4] * Weight(4);
    assert Low(f, n - 1) == Low(f, n - 2) + f[3] * Weight(3);
    assert Low(f, n - 2) == Low(f, n - 3) + f[2] * Weight(2);
    assert Low(f, n - 3) == Low(f, n - 4) + f[1] * Weight(1);
    assert Low(f, n - 4) == Low(f, n - 5) + f[0] * Weight(0);
  }

  lemma LowHigh(f: seq<int>, n: nat)
    requires |f| == 10 && n == 10
    ensures Low(f, n) == Low(f, 5) + 0x1_0000_0000_0000_0000_0000_0000_0000_0000 * f[5]
      + 0x200_0000_0000_0000_0000_0000_0000_0000_0000_0000 * f[6]
      + 0x8_0000_0000_0000_0000_0000_0000_0000_0000_0000_0000_0000 * f[7]
      + 0x1000_0000_0000_0000_0000_0000_0000_0000_0000_0000_0000_0000_0000 * f[8]
      + 0x40_0000_0000_0000_0000_0000_0000_0000_0000_0000_0000_0000_0000_0000_0000 * f[9]
  {
    assert Low(f, n) == Low(f, n - 1) + f[9] * Weight(9);
    assert Low(f, n - 1) == Low(f, n - 2) + f[8] * Weight(8);
    assert Low(f, n - 2) == Low(f, n - 3) + f[7] * Weight(7);
    assert Low(f, n - 3) == Low(f, n - 4) + f[6] * Weight(6);
    assert Low(f, n - 4) == Low(f, n - 5) + f[5] * Weight(5);
  }

  lemma {:induction false} AddFrom(x: seq<int>, y: seq<int>, z: seq<int>, i: nat)
    requires |x| == |y| == |z| == 10 && i <= 10 && forall k :: 0 <= k < 10 ==> z[k] == x[k] + y[k]
    ensures From(z, i) == From(x, i) + From(y, i)
    decreases 10 - i
  {
    if i < 10 {
      AddFrom(x, y, z, i + 1);
      SumTimes(Radix(i), From(x, i + 1), From(y, i + 1));
    }
  }

  lemma SumTimes(r: int, a: int, b: int)
    ensures r * (a + b) == r * a + r * b
  {}

  /** Up to multiples of the prime the rows make the product. */
  lemma {:induction false} AccsVal(f: seq<int>, g: seq<int>, n: nat) returns (q: int)
    requires |f| == |g| == 10 && n <= 10
    ensures Val(Accs(f, g, n)) == Low(f, n) * Val(g) - PRIME * q
    decreases n
  {
    if n == 0 {
      ZeroFrom(Accs(f, g, 0), 0);
      q := 0;
    } else {
      hide Acc, Weight, From, Rotated, Scaled, Low;
      var p := AccsVal(f, g, n - 1);
      LowStep(f, n);
      var row := Scaled(g, f[n - 1]);
      var r := Row(row, n - 1);
      RowEntries(f, g, n - 1);
      AddFrom(Accs(f, g, n - 1), Rotated(row, n - 1), Accs(f, g, n), 0);
      ScaledFrom(g, f[n - 1], 0);
      ProductStep(Low(f, n - 1), f[n - 1], Weight(n - 1), Val(g));
      q := p + r;
    }
  }

  lemma LowStep(f: seq<int>, n: nat)
    requires |f| == 10 && 0 < n <= 10
    ensures Low(f, n) == Low(f, n - 1) + f[n - 1] * Weight(n - 1)
  {}

  lemma ProductStep(v: int, d: int, w: int, b: int)
    ensures (v + d * w) * b == v * b + w * (d * b)
  {}

  lemma {:induction false} ZeroFrom(x: seq<int>, i: nat)
    requires i <= |x| && forall k :: 0 <= k < |x| ==> x[k] == 0
    ensures From(x, i) == 0
    decreases |x| - i
  {
    if i < |x| { ZeroFrom(x, i + 1); }
  }

  lemma RowEntries(f: seq<int>, g: seq<int>, n: nat)
    requires |f| == |g| == 10 && n < 10
    ensures forall k :: 0 <= k < 10 ==> Accs(f, g, n + 1)[k] == Accs(f, g, n)[k] + Rotated(Scaled(g, f[n]), n)[k]
  {
    forall k | 0 <= k < 10 ensures Accs(f, g, n + 1)[k] == Accs(f, g, n)[k] + Rotated(Scaled(g, f[n]), n)[k] {
      assert Acc(f, g, k, n + 1) == Acc(f, g, k, n) + Term(f, g, k, n);
    }
  }

  lemma AllRows(f: seq<int>, g: seq<int>, h: seq<int>) returns (q: int)
    requires |f| == |g| == |h| == 10 && forall k :: 0 <= k < 10 ==> h[k] == Acc(f, g, k, 10)
    ensures Val(h) == Val(f) * Val(g) - PRIME * q
  {
    q := AccsVal(f, g, 10);
    LowAll(f, 10);
    hide Val, Acc, Low;
    assert h == Accs(f, g, 10);
  }

  // ---------- sizes ----------

  /** 19 * (1.65 * 2^26)^2, and the same with one factor of half the size. */
  const BIG := 19 * 110729625 * 110729625
  const MEDIUM := 19 * 110729625 * 55364812

  lemma ProductSize(u: int, m: int, v: int, n: int)
    requires -m <= u <= m && -n <= v <= n
    ensures -(m * n) <= u * v <= m * n
  {
    if u >= 0 { MulMonotone(u, v, n); MulMonotone(u, -n, v); } else { MulMonotone(-u, v, n); MulMonotone(-u, -n, v); }
    MulMonotone(n, u, m); MulMonotone(n, -m, u);
  }

  lemma TermSize(f: seq<int>, g: seq<int>, k: nat, i: nat)
    requires Factor(f) && Factor(g) && k < 10 && i < 10
    ensures if i % 2 == 0 then Within(Term(f, g, k, i), BIG) else Within(Term(f, g, k, i), MEDIUM)
  {
    var j := Partner(k, i);
    var e, o := 110729625, 55364812;
    ProductSize(f[i], if i % 2 == 0 then e else o, g[j], if j % 2 == 0 then e else o);
  }

  /** The size of n terms. */
  function Size(n: nat): int {
    if n == 0 then 0 else Size(n - 1) + if (n - 1) % 2 == 0 then BIG else MEDIUM
  }

  lemma {:induction false} AccSize(f: seq<int>, g: seq<int>, k: nat, n: nat)
    requires Factor(f) && Factor(g) && k < 10 && n <= 10
    ensures Within(Acc(f, g, k, n), Size(n))
    decreases n
  {
    if n > 0 {
      AccSize(f, g, k, n - 1);
      TermSize(f, g, k, n - 1);
      hide Term, Factor;
    }
  }

  lemma LimbSize(f: seq<int>, g: seq<int>, k: nat)
    requires Factor(f) && Factor(g) && k < 10
    ensures Within(Acc(f, g, k, 10), 0x2000_0000_0000_0000)
  {
    AccSize(f, g, k, 10);
    assert Size(10) <= 0x2000_0000_0000_0000;
  }

  // ---------- operations ----------

  /** The sums of products of fe_mul, with the multiples of single limbs in words of 32 bits. */
  method Products(f: seq<Int32>, g: seq<Int32>) returns (h: array<Int64>)
    requires Factor(f) && Factor(g)
    ensures fresh(h) && h.Length == 10 && h[..] == Accs(f, g, 10)
    ensures forall k :: 0 <= k < 10 ==> Within(h[k], 0x2000_0000_0000_0000)
  {
    hide Acc, Limb0, Limb1, Limb2, Limb3, Limb4, Limb5, Limb6, Limb7, Limb8, Limb9;
    var g1_19: Int32, g2_19: Int32, g3_19: Int32 := 19 * g[1], 19 * g[2], 19 * g[3];
    var g4_19: Int32, g5_19: Int32, g6_19: Int32 := 19 * g[4], 19 * g[5], 19 * g[6];
    var g7_19: Int32, g8_19: Int32, g9_19: Int32 := 19 * g[7], 19 * g[8], 19 * g[9];
    var f1_2: Int32, f3_2: Int32, f5_2: Int32, f7_2: Int32, f9_2: Int32 :=
      2 * f[1], 2 * f[3], 2 * f[5], 2 * f[7], 2 * f[9];
    forall k: nat | k < 10 ensures Within(Acc(f, g, k, 10), 0x2000_0000_0000_0000) { LimbSize(f, g, k); }
    Limb0Is(f, g); Limb1Is(f, g); Limb2Is(f, g); Limb3Is(f, g); Limb4Is(f, g); Limb5Is(f, g); Limb6Is(f, g);
    Limb7Is(f, g); Limb8Is(f, g); Limb9Is(f, g);
    hide Factor;
    h := new Int64[10](_ => 0);
    h[0] := Limb0(f, g);
    h[1] := Limb1(f, g);
    h[2] := Limb2(f, g);
    h[3] := Limb3(f, g);
    h[4] := Limb4(f, g);
    h[5] := Limb5(f, g);
    h[6] := Limb6(f, g);
    h[7] := Limb7(f, g);
    h[8] := Limb8(f, g);
    h[9] := Limb9(f, g);
  }

  /** The limbs become those of the result. */
  method PutLimbs(h: array<Int32>, t: array<Int64>)
    requires h.Length == t.Length == 10 && Product(t[..])
    modifies h
    ensures h[..] == old(t[..])
  {
    h[0] := t[0];
    h[1] := t[1];
    h[2] := t[2];
    h[3] := t[3];
    h[4] := t[4];
    h[5] := t[5];
    h[6] := t[6];
    h[7] := t[7];
    h[8] := t[8];
    h[9] := t[9];
    assert forall k :: 0 <= k < 10 ==> h[k] == old(t[k]);
  }

  lemma Reduced(h: int, v: int, q: int, p: int)
    requires h == v - PRIME * q - PRIME * p
    ensures Congruent(h, v, PRIME)
  {
    assert DiffBy(h, v, PRIME, -q - p);
  }

  /** fe_mul */
  method FeMul(h: array<Int32>, f: array<Int32>, g: array<Int32>)
    requires h.Length == f.Length == g.Length == 10 && Factor(f[..]) && Factor(g[..])
    modifies h
    ensures Product(h[..]) && h[..] == Carried(Accs(old(f[..]), old(g[..]), 10))
    ensures Congruent(Val(h[..]), old(Val(f[..]) * Val(g[..])), PRIME)
  {
    hide Val, Acc, Factor, Carried;
    ghost var x: seq<int>, y: seq<int> := f[..], g[..];
    var t := Products(f[..], g[..]);
    ghost var p := AllRows(x, y, t[..]);
    ghost var q := CarryProduct(t);
    PutLimbs(h, t);
    Reduced(Val(h[..]), Val(x) * Val(y), p, q);
  }

  /** The sums of fe_sq, which has every product of different limbs once. */
  method Squares(f: seq<Int32>) returns (h: array<Int64>)
    requires Factor(f)
    ensures fresh(h) && h.Length == 10 && h[..] == Accs(f, f, 10)
    ensures forall k :: 0 <= k < 10 ==> Within(h[k], 0x2000_0000_0000_0000)
  {
    hide Acc, Square0, Square1, Square2, Square3, Square4, Square5, Square6, Square7, Square8, Square9;
    var f0_2: Int32, f1_2: Int32, f2_2: Int32, f3_2: Int32 := 2 * f[0], 2 * f[1], 2 * f[2], 2 * f[3];
    var f4_2: Int32, f5_2: Int32, f6_2: Int32, f7_2: Int32 := 2 * f[4], 2 * f[5], 2 * f[6], 2 * f[7];
    var f5_38: Int32, f6_19: Int32, f7_38: Int32, f8_19: Int32 := 38 * f[5], 19 * f[6], 38 * f[7], 19 * f[8];
    var f9_38: Int32 := 38 * f[9];
    forall k: nat | k < 10 ensures Within(Acc(f, f, k, 10), 0x2000_0000_0000_0000) { LimbSize(f, f, k); }
    Square0Is(f); Square1Is(f); Square2Is(f); Square3Is(f); Square4Is(f); Square5Is(f); Square6Is(f); Square7Is(f);
    Square8Is(f); Square9Is(f);
    hide Factor;
    h := new Int64[10](_ => 0);
    h[0] := Square0(f);
    h[1] := Square1(f);
    h[2] := Square2(f);
    h[3] := Square3(f);
    h[4] := Square4(f);
    h[5] := Square5(f);
    h[6] := Square6(f);
    h[7] := Square7(f);
    h[8] := Square8(f);
    h[9] := Square9(f);
  }

  /** fe_sq: limb for limb what fe_mul makes of f and f. */
  method FeSq(h: array<Int32>, f: array<Int32>)
    requires h.Length == f.Length == 10 && Factor(f[..])
    modifies h
    ensures Product(h[..]) && h[..] == Carried(Accs(old(f[..]), old(f[..]), 10))
    ensures Congruent(Val(h[..]), old(Val(f[..]) * Val(f[..])), PRIME)
  {
    hide Val, Acc, Factor, Carried;
    ghost var x: seq<int> := f[..];
    var t := Squares(f[..]);
    ghost var p := AllRows(x, x, t[..]);
    ghost var q := CarryProduct(t);
    PutLimbs(h, t);
    Reduced(Val(h[..]), Val(x) * Val(x), p, q);
  }

  ghost predicate Doubled(a: int, b: int) {
    a == b + b
  }

  /** h0 += h0 and so on */
  method DoubleLimbs(t: array<Int64>)
    requires t.Length == 10 && forall k :: 0 <= k < 10 ==> Within(t[k], 0x2000_0000_0000_0000)
    modifies t
    ensures forall k :: 0 <= k < 10 ==> Doubled(t[k], old(t[k])) && Within(t[k], 0x4000_0000_0000_0000)
  {
    t[0] := t[0] + t[0];
    t[1] := t[1] + t[1];
    t[2] := t[2] + t[2];
    t[3] := t[3] + t[3];
    t[4] := t[4] + t[4];
    t[5] := t[5] + t[5];
    t[6] := t[6] + t[6];
    t[7] := t[7] + t[7];
    t[8] := t[8] + t[8];
    t[9] := t[9] + t[9];
  }

  /** fe_sq2 */
  method FeSq2(h: array<Int32>, f: array<Int32>)
    requires h.Length == f.Length == 10 && Factor(f[..])
    modifies h
    ensures Product(h[..]) && Congruent(Val(h[..]), 2 * old(Val(f[..]) * Val(f[..])), PRIME)
  {
    hide Val, Acc, Factor, Carried;
    ghost var x: seq<int> := f[..];
    var t := Squares(f[..]);
    ghost var p := AllRows(x, x, t[..]);
    ghost var once: seq<int> := t[..];
    DoubleLimbs(t);
    DoubleVal(once, t[..]);
    ghost var q := CarryProduct(t);
    PutLimbs(h, t);
    Reduced(Val(h[..]), 2 * (Val(x) * Val(x)), 2 * p, q);
  }

  lemma DoubleVal(x: seq<int>, y: seq<int>)
    requires |x| == |y| == 10 && forall k :: 0 <= k < 10 ==> y[k] == x[k] + x[k]
    ensures Val(y) == 2 * Val(x)
  {
    AddFrom(x, x, y, 0);
  }

  lemma ProductIsFactor(x: seq<int>)
    ensures Product(x) ==> Factor(x) && Summand(x)
    ensures Sum(x) ==> Factor(x)
  {}

  method PutWords(h: array<Int32>, t: seq<Int32>)
    requires h.Length == |t| == 10
    modifies h
    ensures h[..] == t
  {
    h[0] := t[0];
    h[1] := t[1];
    h[2] := t[2];
    h[3] := t[3];
    h[4] := t[4];
    h[5] := t[5];
    h[6] := t[6];
    h[7] := t[7];
    h[8] := t[8];
    h[9] := t[9];
    assert forall k :: 0 <= k < 10 ==> h[k] == t[k];
  }

  /** Sums and differences of limbs fit into words of 32 bits. */
  lemma SumSize(x: seq<int>, y: seq<int>)
    requires Summand(x) && Summand(y)
    ensures forall k :: 0 <= k < 10 ==> Within(x[k] + y[k], 73819750) && Within(x[k] - y[k], 73819750)
    ensures forall z: seq<int> :: |z| == 10 && (forall k :: 0 <= k < 10 ==> z[k] == x[k] + y[k]) ==> Sum(z)
    ensures forall z: seq<int> :: |z| == 10 && (forall k :: 0 <= k < 10 ==> z[k] == x[k] - y[k]) ==> Sum(z)
  {}

  /** fe_add */
  method FeAdd(h: array<Int32>, f: array<Int32>, g: array<Int32>)
    requires h.Length == f.Length == g.Length == 10 && Summand(f[..]) && Summand(g[..])
    modifies h
    ensures Sum(h[..]) && Val(h[..]) == old(Val(f[..]) + Val(g[..]))
  {
    var a, b := f[..], g[..];
    SumSize(a, b);
    hide Val, Summand, Sum;
    var t: seq<Int32> := [a[0] + b[0], a[1] + b[1], a[2] + b[2], a[3] + b[3], a[4] + b[4],
                          a[5] + b[5], a[6] + b[6], a[7] + b[7], a[8] + b[8], a[9] + b[9]];
    PutWords(h, t);
    SumVal(a, b, t);
  }

  lemma SumVal(x: seq<int>, y: seq<int>, z: seq<int>)
    requires |x| == |y| == |z| == 10 && forall k :: 0 <= k < 10 ==> z[k] == x[k] + y[k]
    ensures Val(z) == Val(x) + Val(y)
  {
    AddFrom(x, y, z, 0);
  }

  /** fe_sub */
  method FeSub(h: array<Int32>, f: array<Int32>, g: array<Int32>)
    requires h.Length == f.Length == g.Length == 10 && Summand(f[..]) && Summand(g[..])
    modifies h
    ensures Sum(h[..]) && Val(h[..]) == old(Val(f[..]) - Val(g[..]))
  {
    var a, b := f[..], g[..];
    SumSize(a, b);
    hide Val, Summand, Sum;
    var t: seq<Int32> := [a[0] - b[0], a[1] - b[1], a[2] - b[2], a[3] - b[3], a[4] - b[4],
                          a[5] - b[5], a[6] - b[6], a[7] - b[7], a[8] - b[8], a[9] - b[9]];
    PutWords(h, t);
    SumVal(t, b, a);
  }
}
