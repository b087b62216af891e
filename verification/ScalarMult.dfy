/**
  Multiples of points by scalars: two scalars at once by sliding windows, and one scalar times the
  base point by tables of its multiples. Points are elements of an abelian group.
*/
module ScalarMult {
  import opened Arith
  import opened Gf2Poly
  import opened Crc
  import opened ByteNumber
  import opened SignedDigits
  import opened Slide
  import opened Radix16
  import opened Group

  // ---------- two scalars ----------

  /** (2j + 1) * p for j below n */
  ghost predicate OddMultiples<P(!new)>(g: Group<P>, t: seq<P>, p: P, n: nat) {
    |t| >= n && forall j: nat :: j < n ==> t[j] == Mul(g, 2 * j + 1, p)
  }

  lemma NextOdd<P(!new)>(g: Group<P>, t: seq<P>, p: P, n: nat)
    requires Abelian(g) && OddMultiples(g, t, p, n) && 0 < n < |t|
    ensures OddMultiples(g, t[n := g.add(Mul(g, 2, p), t[n - 1])], p, n + 1)
  {
    hide Abelian, Mul;
    MulAdd(g, 2, 2 * (n - 1) + 1, p);
  }

  /** A, 3A, 5A, .., 15A */
  method OddTable<P(!new)>(g: Group<P>, a: P) returns (t: seq<P>)
    requires Abelian(g)
    ensures |t| == 8 && OddMultiples(g, t, a, 8)
  {
    hide Abelian, Mul;
    var a2 := g.add(a, a);
    MulOne(g, a);
    Double(g, 1, a);
    t := [a, a, a, a, a, a, a, a];
    NextOdd(g, t, a, 1);
    t := t[1 := g.add(a2, t[0])];
    NextOdd(g, t, a, 2);
    t := t[2 := g.add(a2, t[1])];
    NextOdd(g, t, a, 3);
    t := t[3 := g.add(a2, t[2])];
    NextOdd(g, t, a, 4);
    t := t[4 := g.add(a2, t[3])];
    NextOdd(g, t, a, 5);
    t := t[5 := g.add(a2, t[4])];
    NextOdd(g, t, a, 6);
    t := t[6 := g.add(a2, t[5])];
    NextOdd(g, t, a, 7);
    t := t[7 := g.add(a2, t[6])];
  }

  /** A digit's multiple is added or taken away, or there is none. */
  method AddDigit<P(!new)>(g: Group<P>, r: P, t: seq<P>, d: int, ghost p: P) returns (s: P)
    requires Abelian(g) && OddMultiples(g, t, p, 8) && SlideDigit(d)
    ensures s == g.add(r, Mul(g, d, p))
  {
    hide Abelian, Mul;
    MulZero(g, p);
    Zero(g, r);
    s := r;
    if d > 0 {
      s := g.add(r, t[d / 2]);
    } else if d < 0 {
      s := g.add(r, g.neg(t[(-d) / 2]));
      MulNeg(g, -d, p);
    }
  }

  /** What the digits from i on make of the two points. */
  ghost predicate Partial<P(!new)>(g: Group<P>, r: P, x: seq<int>, a: P, y: seq<int>, b: P, i: nat) {
    i <= |x| && i <= |y| && r == g.add(Mul(g, From(x, i, 2), a), Mul(g, From(y, i, 2), b))
  }

  /** Doubling and adding two digits goes one place down. */
  lemma PartialStep<P(!new)>(g: Group<P>, r: P, x: seq<int>, a: P, y: seq<int>, b: P, i: nat)
    requires Abelian(g) && i < |x| && i < |y| && Partial(g, r, x, a, y, b, i + 1)
    ensures Partial(g, g.add(g.add(g.add(r, r), Mul(g, x[i], a)), Mul(g, y[i], b)), x, a, y, b, i)
  {
    hide Abelian, Mul;
    var u, v := From(x, i + 1, 2), From(y, i + 1, 2);
    var p, q, c, d := Mul(g, u, a), Mul(g, v, b), Mul(g, x[i], a), Mul(g, y[i], b);
    Swap(g, p, q, p, q);
    Double(g, u, a); Double(g, v, b);
    var p2, q2 := Mul(g, 2 * u, a), Mul(g, 2 * v, b);
    MulAdd(g, 2 * u, x[i], a); MulAdd(g, 2 * v, y[i], b);
    Assoc(g, g.add(p2, q2), c, d);
    Swap(g, p2, q2, c, d);
    assert From(x, i, 2) == 2 * u + x[i] && From(y, i, 2) == 2 * v + y[i];
  }

  lemma PartialZero<P(!new)>(g: Group<P>, x: seq<int>, a: P, y: seq<int>, b: P, i: nat)
    requires Abelian(g) && i <= |x| && i <= |y| && From(x, i, 2) == 0 && From(y, i, 2) == 0
    ensures Partial(g, g.zero, x, a, y, b, i)
  {
    hide Abelian, Mul;
    MulZero(g, a); MulZero(g, b);
    Zero(g, g.zero);
  }

  /** ge_double_scalarmult_vartime: a * A + b * B as recoded, with the odd multiples of B in a table. */
  method DoubleScalarMult<P(!new)>(g: Group<P>, a: seq<Byte>, pointA: P, b: seq<Byte>, tableB: seq<P>, ghost pointB: P)
    returns (r: P)
    requires Abelian(g) && |a| == |b| == 32
    requires OddMultiples(g, tableB, pointB, 8)
    ensures r == g.add(Mul(g, Recoded(Le(a)), pointA), Mul(g, Recoded(Le(b)), pointB))
  {
    hide Abelian, Mul, Partial, Value, OddMultiples, Le, Recoded;
    var aslide := Recode(a);
    var bslide := Recode(b);
    var tableA := OddTable(g, pointA);
    var x: seq<int>, y: seq<int> := aslide[..], bslide[..];
    assert forall k :: 0 <= k < 256 ==> SlideDigit(x[k]) && SlideDigit(y[k]);
    r := g.zero;
    var i := 255;
    assert From(x, 256, 2) == 0 && From(y, 256, 2) == 0;
    while i >= 0
      invariant -1 <= i <= 255 && From(x, i + 1, 2) == 0 && From(y, i + 1, 2) == 0
    {
      if x[i] != 0 || y[i] != 0 {
        break;
      }
      i := i - 1;
    }
    PartialZero(g, x, pointA, y, pointB, i + 1);
    while i >= 0
      invariant -1 <= i <= 255 && Partial(g, r, x, pointA, y, pointB, i + 1)
    {
      PartialStep(g, r, x, pointA, y, pointB, i);
      r := g.add(r, r);
      r := AddDigit(g, r, tableA, x[i], pointA);
      r := AddDigit(g, r, tableB, y[i], pointB);
      i := i - 1;
    }
    PartialEnd(g, r, x, pointA, y, pointB);
  }

  lemma PartialEnd<P(!new)>(g: Group<P>, r: P, x: seq<int>, a: P, y: seq<int>, b: P)
    requires Partial(g, r, x, a, y, b, 0)
    ensures r == g.add(Mul(g, Value(x), a), Mul(g, Value(y), b))
  {}

  /** That is a * A + b * B exactly when what the recodings lose adds nothing. */
  lemma ExactMultiple<P(!new)>(g: Group<P>, u: nat, a: P, v: nat, b: P)
    requires Abelian(g)
    ensures g.add(Mul(g, Recoded(u), a), Mul(g, Recoded(v), b)) == g.add(Mul(g, u, a), Mul(g, v, b))
       <==> g.add(Mul(g, Lost(u), a), Mul(g, Lost(v), b)) == g.zero
  {
    hide *;
    LostRest(u); LostRest(v);
    MulAdd(g, Recoded(u), Lost(u), a); MulAdd(g, Recoded(v), Lost(v), b);
    var c, d, m, n := Mul(g, Recoded(u), a), Mul(g, Recoded(v), b), Mul(g, Lost(u), a), Mul(g, Lost(v), b);
    Swap(g, c, m, d, n);
    AddsNothing(g, g.add(c, d), g.add(m, n));
  }

  // ---------- one scalar times the base point ----------

  /** base[i][j] = (j + 1) * 256^i * B */
  ghost predicate BaseTable<P(!new)>(g: Group<P>, base: seq<seq<P>>, b: P) {
    && |base| == 32
    && forall i: nat, j: nat :: i < 32 && j < 8 ==> |base[i]| == 8 && base[i][j] == Mul(g, (j + 1) * Pow2(8 * i), b)
  }

  lemma BaseEntry<P(!new)>(g: Group<P>, base: seq<seq<P>>, b: P, i: nat, j: nat)
    requires BaseTable(g, base, b) && i < 32 && j < 8
    ensures |base[i]| == 8 && base[i][j] == Mul(g, (j + 1) * Pow2(8 * i), b)
  {}

  /** select: the multiple of 256^pos * B by a digit between -8 and 8. */
  method Select<P(!new)>(g: Group<P>, base: seq<seq<P>>, pos: nat, d: int, ghost b: P) returns (t: P)
    requires Abelian(g) && BaseTable(g, base, b) && pos < 32 && -8 <= d <= 8
    ensures t == Mul(g, d * Pow2(8 * pos), b)
  {
    var abs: nat := if d < 0 then d - 2 * d else d;
    if abs > 0 { BaseEntry(g, base, b, pos, abs - 1); } else { BaseEntry(g, base, b, pos, 0); }
    hide Abelian, Mul, BaseTable, Pow2;
    MulZero(g, b);
    t := g.zero;
    if abs == 1 { t := base[pos][0]; }
    if abs == 2 { t := base[pos][1]; }
    if abs == 3 { t := base[pos][2]; }
    if abs == 4 { t := base[pos][3]; }
    if abs == 5 { t := base[pos][4]; }
    if abs == 6 { t := base[pos][5]; }
    if abs == 7 { t := base[pos][6]; }
    if abs == 8 { t := base[pos][7]; }
    MulNeg(g, abs * Pow2(8 * pos), b);
    NegTimes(abs, Pow2(8 * pos));
    if d < 0 {
      t := g.neg(t);
    }
  }

  lemma NegTimes(a: int, p: int)
    ensures -a * p == -(a * p) && 0 * p == 0
  {}

  /** Every other digit, from place k of them on, in base 256. */
  function Strided(e: seq<int>, off: nat, k: nat): int
    requires |e| == 64 && off < 2 && k <= 32
    decreases 32 - k
  {
    if k == 32 then 0 else e[2 * k + off] + 256 * Strided(e, off, k + 1)
  }

  lemma {:induction false} StridedBoth(e: seq<int>, k: nat)
    requires |e| == 64 && k <= 32
    ensures From(e, 2 * k, 16) == Strided(e, 0, k) + 16 * Strided(e, 1, k)
    decreases 32 - k
  {
    if k < 32 {
      StridedBoth(e, k + 1);
      assert From(e, 2 * k, 16) == e[2 * k] + 16 * (e[2 * k + 1] + 16 * From(e, 2 * k + 2, 16));
    }
  }

  /** h and the digits still to come make c times the base point. */
  ghost predicate Adding<P(!new)>(g: Group<P>, h: P, e: seq<int>, off: nat, k: nat, b: P, c: int)
    requires |e| == 64 && off < 2 && k <= 32
  {
    exists v: int :: AddingTo(g, h, e, off, k, b, c, v)
  }

  ghost predicate AddingTo<P(!new)>(g: Group<P>, h: P, e: seq<int>, off: nat, k: nat, b: P, c: int, v: int)
    requires |e| == 64 && off < 2 && k <= 32
  {
    h == Mul(g, v, b) && v + Pow2(8 * k) * Strided(e, off, k) == c
  }

  lemma AddingStep<P(!new)>(g: Group<P>, h: P, e: seq<int>, off: nat, k: nat, b: P, c: int)
    requires Abelian(g) && |e| == 64 && off < 2 && k < 32 && Adding(g, h, e, off, k, b, c)
    ensures Adding(g, g.add(h, Mul(g, e[2 * k + off] * Pow2(8 * k), b)), e, off, k + 1, b, c)
  {
    hide Abelian, Mul;
    var v :| AddingTo(g, h, e, off, k, b, c, v);
    var d, p := e[2 * k + off], Pow2(8 * k);
    MulAdd(g, v, d * p, b);
    PowByte(k + 1);
    assert Strided(e, off, k) == d + 256 * Strided(e, off, k + 1);
    hide Pow2, Strided;
    StepSum(v, p, d, Strided(e, off, k + 1));
    assert AddingTo(g, g.add(h, Mul(g, d * p, b)), e, off, k + 1, b, c, v + d * p);
  }

  lemma StepSum(v: int, p: int, d: int, s: int)
    ensures v + p * (d + 256 * s) == v + d * p + 256 * p * s
  {
    MulMinus(p, d, -(256 * s));
    ByteNumber.MulAssoc(p, 256, s);
  }

  /** The digits of one parity, each with its table. */
  method AddDigits<P(!new)>(g: Group<P>, h0: P, base: seq<seq<P>>, e: seq<int>, off: nat, ghost b: P, ghost c: int)
    returns (h: P)
    requires Abelian(g) && BaseTable(g, base, b) && |e| == 64 && off < 2
    requires (forall k :: 0 <= k < 64 ==> -8 <= e[k] <= 8) && Adding(g, h0, e, off, 0, b, c)
    ensures h == Mul(g, c, b)
  {
    hide Abelian, Mul, BaseTable, Adding, Pow2;
    h := h0;
    var i := off;
    ghost var k := 0;
    while i < 64
      invariant i == 2 * k + off && k <= 32 && Adding(g, h, e, off, k, b, c)
    {
      AddingStep(g, h, e, off, k, b, c);
      var t := Select(g, base, i / 2, e[i], b);
      h := g.add(h, t);
      i := i + 2;
      k := k + 1;
    }
    AddingEnd(g, h, e, off, b, c);
  }

  lemma AddingEnd<P(!new)>(g: Group<P>, h: P, e: seq<int>, off: nat, b: P, c: int)
    requires |e| == 64 && off < 2 && Adding(g, h, e, off, 32, b, c)
    ensures h == Mul(g, c, b)
  {
    hide Pow2;
  }

  lemma AddingStart<P(!new)>(g: Group<P>, h: P, e: seq<int>, off: nat, b: P, v: int)
    requires |e| == 64 && off < 2 && h == Mul(g, v, b)
    ensures Adding(g, h, e, off, 0, b, v + Strided(e, off, 0))
  {
    assert Pow2(0) == 1;
    assert AddingTo(g, h, e, off, 0, b, v + Strided(e, off, 0), v);
  }

  /** Four doublings. */
  method Times16<P(!new)>(g: Group<P>, h0: P, ghost b: P, ghost v: int) returns (h: P)
    requires Abelian(g) && h0 == Mul(g, v, b)
    ensures h == Mul(g, 16 * v, b)
  {
    hide Abelian, Mul;
    Double(g, v, b); Double(g, 2 * v, b); Double(g, 4 * v, b); Double(g, 8 * v, b);
    h := g.add(h0, h0);
    h := g.add(h, h);
    h := g.add(h, h);
    h := g.add(h, h);
  }

  /** ge_scalarmult_base: a * B for a[31] <= 127. */
  method ScalarMultBase<P(!new)>(g: Group<P>, a: seq<Byte>, base: seq<seq<P>>, ghost b: P) returns (h: P)
    requires Abelian(g) && BaseTable(g, base, b) && |a| == 32 && a[31] <= 127
    ensures h == Mul(g, Le(a), b)
  {
    hide Abelian, Mul, BaseTable, Adding, Le, From, Strided;
    var digits := Recode16(a);
    var e: seq<int> := digits[..];
    StridedBoth(e, 0);
    ghost var odd, even := Strided(e, 1, 0), Strided(e, 0, 0);
    h := g.zero;
    MulZero(g, b);
    AddingStart(g, h, e, 1, b, 0);
    h := AddDigits(g, h, base, e, 1, b, odd);
    h := Times16(g, h, b, odd);
    AddingStart(g, h, e, 0, b, 16 * odd);
    h := AddDigits(g, h, base, e, 0, b, 16 * odd + even);
  }
}
