/** Abelian groups, and multiples of their elements. */
module Group {
  import opened Arith

  datatype Group<!P> = Group(zero: P, add: (P, P) -> P, neg: P -> P)

  ghost predicate Abelian<P(!new)>(g: Group<P>) {
    && (forall a: P, b: P, c: P :: g.add(g.add(a, b), c) == g.add(a, g.add(b, c)))
    && (forall a: P, b: P :: g.add(a, b) == g.add(b, a))
    && (forall a: P :: g.add(a, g.zero) == a)
    && (forall a: P :: g.add(a, g.neg(a)) == g.zero)
  }

  lemma Assoc<P(!new)>(g: Group<P>, a: P, b: P, c: P)
    requires Abelian(g)
    ensures g.add(g.add(a, b), c) == g.add(a, g.add(b, c))
  {}

  lemma Comm<P(!new)>(g: Group<P>, a: P, b: P)
    requires Abelian(g)
    ensures g.add(a, b) == g.add(b, a)
  {}

  lemma Zero<P(!new)>(g: Group<P>, a: P)
    requires Abelian(g)
    ensures g.add(a, g.zero) == a && g.add(g.zero, a) == a
  {}

  lemma Negative<P(!new)>(g: Group<P>, a: P)
    requires Abelian(g)
    ensures g.add(a, g.neg(a)) == g.zero && g.add(g.neg(a), a) == g.zero
  {}

  /** (a + b) + (c + d) == (a + c) + (b + d) */
  lemma Swap<P(!new)>(g: Group<P>, a: P, b: P, c: P, d: P)
    requires Abelian(g)
    ensures g.add(g.add(a, b), g.add(c, d)) == g.add(g.add(a, c), g.add(b, d))
  {
    hide Abelian;
    Assoc(g, a, b, g.add(c, d));
    Assoc(g, b, c, d); Comm(g, b, c); Assoc(g, c, b, d);
    Assoc(g, a, c, g.add(b, d));
  }

  /** What is added to give zero is the negative. */
  lemma NegativeOnly<P(!new)>(g: Group<P>, a: P, b: P)
    requires Abelian(g) && g.add(a, b) == g.zero
    ensures b == g.neg(a)
  {
    hide Abelian;
    Negative(g, a);
    Assoc(g, g.neg(a), a, b);
    Zero(g, b); Zero(g, g.neg(a));
  }

  /** Only zero adds nothing. */
  lemma AddsNothing<P(!new)>(g: Group<P>, a: P, b: P)
    requires Abelian(g)
    ensures g.add(a, b) == a <==> b == g.zero
  {
    hide Abelian;
    Assoc(g, g.neg(a), a, b);
    Negative(g, a);
    Zero(g, a); Zero(g, b);
  }

  function Times<P>(g: Group<P>, n: nat, a: P): P {
    if n == 0 then g.zero else g.add(Times(g, n - 1, a), a)
  }

  /** The multiple n * a. */
  function Mul<P>(g: Group<P>, n: int, a: P): P {
    if n >= 0 then Times(g, n, a) else g.neg(Times(g, -n, a))
  }

  /** One more of a. */
  lemma MulStep<P(!new)>(g: Group<P>, n: int, a: P)
    requires Abelian(g)
    ensures Mul(g, n + 1, a) == g.add(Mul(g, n, a), a)
  {
    if n < 0 {
      var t := Times(g, -n - 1, a);
      assert Times(g, -n, a) == g.add(t, a);
      hide Abelian, Times;
      Negative(g, g.add(t, a));
      Assoc(g, t, a, g.neg(g.add(t, a)));
      Comm(g, a, g.neg(g.add(t, a)));
      NegativeOnly(g, t, g.add(g.neg(g.add(t, a)), a));
      if n == -1 { NegZero(g); TimesZero(g, a); }
    }
  }

  lemma TimesZero<P>(g: Group<P>, a: P)
    ensures Times(g, 0, a) == g.zero
  {}

  lemma NegZero<P(!new)>(g: Group<P>)
    requires Abelian(g)
    ensures g.neg(g.zero) == g.zero
  {
    hide Abelian;
    Zero(g, g.zero);
    NegativeOnly(g, g.zero, g.zero);
  }

  lemma {:induction false} MulAddNat<P(!new)>(g: Group<P>, m: int, n: nat, a: P)
    requires Abelian(g)
    ensures Mul(g, m + n, a) == g.add(Mul(g, m, a), Mul(g, n, a))
    decreases n
  {
    hide Abelian, Mul;
    if n == 0 {
      MulZero(g, a);
      Zero(g, Mul(g, m, a));
    } else {
      MulAddNat(g, m, n - 1, a);
      MulStep(g, m + n - 1, a);
      MulStep(g, n - 1, a);
      Assoc(g, Mul(g, m, a), Mul(g, n - 1, a), a);
    }
  }

  lemma MulZero<P>(g: Group<P>, a: P)
    ensures Mul(g, 0, a) == g.zero
  {}

  lemma MulOne<P(!new)>(g: Group<P>, a: P)
    requires Abelian(g)
    ensures Mul(g, 1, a) == a
  {
    Zero(g, a);
    assert Times(g, 0, a) == g.zero;
  }

  /** Negative multiples. */
  lemma MulNeg<P(!new)>(g: Group<P>, n: int, a: P)
    requires Abelian(g)
    ensures Mul(g, -n, a) == g.neg(Mul(g, n, a))
  {
    hide Abelian, Mul;
    if n >= 0 { MulAddNat(g, -n, n, a); } else { MulAddNat(g, n, -n, a); Comm(g, Mul(g, n, a), Mul(g, -n, a)); }
    MulZero(g, a);
    Comm(g, Mul(g, n, a), Mul(g, -n, a));
    NegativeOnly(g, Mul(g, n, a), Mul(g, -n, a));
  }

  lemma NegNeg<P(!new)>(g: Group<P>, a: P)
    requires Abelian(g)
    ensures g.neg(g.neg(a)) == a
  {
    Negative(g, a);
    NegativeOnly(g, g.neg(a), a);
  }

  lemma MulAdd<P(!new)>(g: Group<P>, m: int, n: int, a: P)
    requires Abelian(g)
    ensures Mul(g, m + n, a) == g.add(Mul(g, m, a), Mul(g, n, a))
  {
    hide Abelian, Mul;
    if n >= 0 {
      MulAddNat(g, m, n, a);
    } else {
      var s, u, v := Mul(g, m + n, a), Mul(g, -n, a), Mul(g, n, a);
      MulAddNat(g, m + n, -n, a);
      MulNeg(g, -n, a);
      Assoc(g, s, u, v);
      Negative(g, u);
      Zero(g, s);
    }
  }

  lemma {:induction false} MulMulNat<P(!new)>(g: Group<P>, m: int, n: nat, a: P)
    requires Abelian(g)
    ensures Mul(g, m * n, a) == Mul(g, n, Mul(g, m, a))
    decreases n
  {
    hide Abelian, Mul;
    if n == 0 {
      MulZero(g, a); MulZero(g, Mul(g, m, a));
    } else {
      MulMulNat(g, m, n - 1, a);
      MulMinus(m, n, 1);
      MulAdd(g, m * (n - 1), m, a);
      MulStep(g, n - 1, Mul(g, m, a));
    }
  }

  /** Multiples of multiples. */
  lemma MulMul<P(!new)>(g: Group<P>, m: int, n: int, a: P)
    requires Abelian(g)
    ensures Mul(g, m * n, a) == Mul(g, n, Mul(g, m, a))
  {
    hide Abelian, Mul;
    if n >= 0 {
      MulMulNat(g, m, n, a);
    } else {
      MulMulNat(g, m, -n, a);
      MulNeg(g, n, Mul(g, m, a)); NegNeg(g, Mul(g, n, Mul(g, m, a)));
      MulNeg(g, m * n, a); NegNeg(g, Mul(g, m * n, a));
      assert m * -n == -(m * n);
    }
  }

  /** Doubling. */
  lemma Double<P(!new)>(g: Group<P>, n: int, a: P)
    requires Abelian(g)
    ensures g.add(Mul(g, n, a), Mul(g, n, a)) == Mul(g, 2 * n, a)
  {
    MulAdd(g, n, n, a);
  }
}
