/**
  The polynomial that the library is initialised with by default, x^16 + x^5 + x^3 + x + 1, is
  irreducible, so that words form a field: a factorisation would give coefficients that meet the
  24 equations of the product, and none do.
*/
module DefaultField {
  import opened Arith
  import opened Gf2Poly
  import opened BinaryField

  /** GBF_POLYNOME for words of 16 bits. */
  const POLYNOME: Word := 0x2b

  /** The coefficient of x^i. */
  function Coef(n: nat, i: int): bool
    decreases i, n
  {
    if i < 0 then false else if i == 0 then n % 2 == 1 else Coef(n / 2, i - 1)
  }

  lemma {:induction false} CoefXor(a: nat, b: nat, i: int)
    ensures Coef(Xor(a, b), i) == (Coef(a, i) != Coef(b, i))
    decreases i
  {
    XorStep(a, b);
    if i > 0 { CoefXor(a / 2, b / 2, i - 1); }
  }

  lemma {:induction false} CoefAbove(n: nat, k: nat, i: nat)
    requires n < Pow2(k) && k <= i
    ensures !Coef(n, i)
    decreases i
  {
    if i > 0 { CoefAbove(n / 2, if k == 0 then 0 else k - 1, i - 1); }
  }

  lemma {:induction false} CoefQuotient(n: nat, i: nat, p: nat)
    requires p == Pow2(i)
    ensures Coef(n, i) == (n / p % 2 == 1)
    decreases i
  {
    if i == 0 {
      assert p == 1;
    } else {
      assert Coef(n, i) == Coef(n / 2, i - 1) && p == 2 * Pow2(i - 1);
      hide Coef, Pow2;
      CoefQuotient(n / 2, i - 1, Pow2(i - 1));
      QuotientOfHalf(n, n / 2, Pow2(i - 1));
    }
  }

  lemma QuotientOfHalf(n: nat, h: nat, d: nat)
    requires d > 0 && h == n / 2
    ensures n / (2 * d) == h / d
  {
    DivParts(h, d);
    HalfParts(n, h, d, h / d, h % d);
  }

  lemma HalfParts(n: nat, h: nat, d: nat, q: nat, r: nat)
    requires d > 0 && h == n / 2 && h == d * q + r && r < d
    ensures n / (2 * d) == q
  {
    MulTwice(d, q);
    QuotientIs(n, 2 * d, q, 2 * r + n % 2);
  }

  lemma MulTwice(d: int, q: int)
    ensures 2 * d * q == 2 * (d * q)
  {}

  /** Coefficient i of the product of a and b, from the terms a_j * b_(i-j) with j and more. */
  function Terms(a: nat, b: nat, i: int, j: nat): bool
    decreases i + 1 - j, a
  {
    if j > i then false else (Coef(a, j) && Coef(b, i - j)) != Terms(a, b, i, j + 1)
  }

  lemma {:induction false} TermsShift(a: nat, b: nat, i: nat, j: nat)
    requires j <= i
    ensures Terms(a, b, i, j + 1) == Terms(a / 2, b, i - 1, j)
    decreases i - j
  {
    if j + 1 <= i { TermsShift(a, b, i, j + 1); }
  }

  lemma {:induction false} ProductCoef(a: nat, b: nat, i: nat)
    ensures Coef(PMul(b, a), i) == Terms(a, b, i, 0)
    decreases i
  {
    var rest := PMul(b, a / 2);
    PMulHorner(b, a);
    CoefXor(When(a % 2, b), 2 * rest, i);
    TermsShift(a, b, i, 0);
    FirstTerm(a, b, i, rest);
    hide Coef, Terms, PMul, Xor;
    if i > 0 { ProductCoef(a / 2, b, i - 1); } else { NoTerms(a / 2, b, i - 1); }
  }

  lemma FirstTerm(a: nat, b: nat, i: nat, rest: nat)
    ensures Coef(When(a % 2, b), i) == (Coef(a, 0) && Coef(b, i))
    ensures Coef(2 * rest, i) == (i > 0 && Coef(rest, i - 1))
    ensures Terms(a, b, i, 0) == ((Coef(a, 0) && Coef(b, i)) != Terms(a, b, i, 1))
  {
    ZeroCoef(i);
  }

  lemma NoTerms(a: nat, b: nat, i: int)
    requires i < 0
    ensures !Terms(a, b, i, 0)
  {}

  lemma {:induction false} ZeroCoef(i: nat)
    ensures !Coef(0, i)
  {
    if i > 0 { ZeroCoef(i - 1); }
  }

  lemma TermsStep(a: nat, b: nat, i: nat, j: nat)
    ensures Terms(a, b, i, j) == ((Coef(a, j) && Coef(b, i - j)) != Terms(a, b, i, j + 1))
  {}

  lemma {:induction false} TermsEnd(a: nat, b: nat, i: nat, j: nat)
    requires a < Pow2(9) && j >= 9
    ensures !Terms(a, b, i, j)
    decreases if i < j then 0 else i + 1 - j
  {
    if j <= i { CoefAbove(a, 9, j); TermsEnd(a, b, i, j + 1); }
  }

  /** The coefficients are those of the polynomial. */
  predicate Matches(n: nat) {
    && Coef(n, 0) && Coef(n, 1) && !Coef(n, 2) && Coef(n, 3) && !Coef(n, 4) && Coef(n, 5) && !Coef(n, 6) && !Coef(n, 7)
    && !Coef(n, 8) && !Coef(n, 9) && !Coef(n, 10) && !Coef(n, 11)
    && !Coef(n, 12) && !Coef(n, 13) && !Coef(n, 14) && !Coef(n, 15)
    && Coef(n, 16) && !Coef(n, 17) && !Coef(n, 18) && !Coef(n, 19)
    && !Coef(n, 20) && !Coef(n, 21) && !Coef(n, 22) && !Coef(n, 23)
  }

  lemma PolynomialMatches(n: nat)
    requires n == Modulus(POLYNOME)
    ensures Matches(n)
  {
    hide Coef, Pow2;
    LowPowers(0);
    CoefQuotient(n, 0, 0x1); CoefQuotient(n, 1, 0x2); CoefQuotient(n, 2, 0x4); CoefQuotient(n, 3, 0x8);
    CoefQuotient(n, 4, 0x10); CoefQuotient(n, 5, 0x20);
    CoefQuotient(n, 6, 0x40); CoefQuotient(n, 7, 0x80); CoefQuotient(n, 8, 0x100); CoefQuotient(n, 9, 0x200);
    CoefQuotient(n, 10, 0x400); CoefQuotient(n, 11, 0x800);
    CoefQuotient(n, 12, 0x1000); CoefQuotient(n, 13, 0x2000); CoefQuotient(n, 14, 0x4000); CoefQuotient(n, 15, 0x8000);
    CoefQuotient(n, 16, 0x10000); CoefQuotient(n, 17, 0x20000);
    AbovePolynomial(n);
  }

  lemma AbovePolynomial(n: nat)
    requires n == Modulus(POLYNOME)
    ensures forall i: nat :: 17 <= i < 24 ==> !Coef(n, i)
  {
    Powers();
    hide Coef, Pow2;
    forall i: nat | 17 <= i < 24 ensures !Coef(n, i) { CoefAbove(n, 17, i); }
  }

  lemma LowPowers(i: nat)
    requires i == 0
    ensures Pow2(0) == 0x1 && Pow2(1) == 0x2 && Pow2(2) == 0x4 && Pow2(3) == 0x8 && Pow2(4) == 0x10 && Pow2(5) == 0x20
      && Pow2(6) == 0x40 && Pow2(7) == 0x80 && Pow2(8) == 0x100
    ensures Pow2(9) == 0x200 && Pow2(10) == 0x400 && Pow2(11) == 0x800 && Pow2(12) == 0x1000 && Pow2(13) == 0x2000
      && Pow2(14) == 0x4000 && Pow2(15) == 0x8000 && Pow2(16) == 0x10000 && Pow2(17) == 0x20000
  {
    assert Pow2(i + 1) == 2 * Pow2(i + 0); assert Pow2(i + 2) == 2 * Pow2(i + 1); assert Pow2(i + 3) == 2 * Pow2(i + 2);
    assert Pow2(i + 4) == 2 * Pow2(i + 3); assert Pow2(i + 5) == 2 * Pow2(i + 4); assert Pow2(i + 6) == 2 * Pow2(i + 5);
    assert Pow2(i + 7) == 2 * Pow2(i + 6); assert Pow2(i + 8) == 2 * Pow2(i + 7); assert Pow2(i + 9) == 2 * Pow2(i + 8);
    assert Pow2(i + 10) == 2 * Pow2(i + 9); assert Pow2(i + 11) == 2 * Pow2(i + 10);
    assert Pow2(i + 12) == 2 * Pow2(i + 11);
    assert Pow2(i + 13) == 2 * Pow2(i + 12); assert Pow2(i + 14) == 2 * Pow2(i + 13);
    assert Pow2(i + 15) == 2 * Pow2(i + 14); assert Pow2(i + 16) == 2 * Pow2(i + 15);
    assert Pow2(i + 17) == 2 * Pow2(i + 16);
  }

  /** Coefficient i of n is that of the product of a and b, where a has nine coefficients. */
  predicate Equation(n: nat, a: nat, b: nat, i: int) {
    Coef(n, i) == ((Coef(a, 0) && Coef(b, i)) != ((Coef(a, 1) && Coef(b, i - 1)) != ((Coef(a, 2) && Coef(b, i - 2)) !=
      ((Coef(a, 3) && Coef(b, i - 3)) != ((Coef(a, 4) && Coef(b, i - 4)) != ((Coef(a, 5) && Coef(b, i - 5)) !=
      ((Coef(a, 6) && Coef(b, i - 6)) != ((Coef(a, 7) && Coef(b, i - 7)) != (Coef(a, 8) && Coef(b, i - 8))))))))))
  }

  lemma ProductEquation(a: nat, b: nat, i: nat)
    requires a < Pow2(9)
    ensures Equation(PMul(b, a), a, b, i)
  {
    ProductCoef(a, b, i);
    hide Coef, Terms, PMul, Pow2;
    TermsStep(a, b, i, 0); TermsStep(a, b, i, 1); TermsStep(a, b, i, 2);
    TermsStep(a, b, i, 3); TermsStep(a, b, i, 4); TermsStep(a, b, i, 5);
    TermsStep(a, b, i, 6); TermsStep(a, b, i, 7); TermsStep(a, b, i, 8);
    TermsEnd(a, b, i, 9);
  }

  /** No choice of nine and sixteen coefficients solves the equations of the polynomial. */
  lemma NoSolution(n: nat, a: nat, b: nat)
    requires forall i: nat :: i < 24 ==> Equation(n, a, b, i)
    requires forall i :: -8 <= i < 0 || 16 <= i < 24 ==> !Coef(b, i)
    ensures !Matches(n)
  {
    hide Coef;
    assert Equation(n, a, b, 0) && Equation(n, a, b, 1) && Equation(n, a, b, 2) && Equation(n, a, b, 3)
      && Equation(n, a, b, 4) && Equation(n, a, b, 5);
    assert Equation(n, a, b, 6) && Equation(n, a, b, 7) && Equation(n, a, b, 8) && Equation(n, a, b, 9)
      && Equation(n, a, b, 10) && Equation(n, a, b, 11);
    assert Equation(n, a, b, 12) && Equation(n, a, b, 13) && Equation(n, a, b, 14) && Equation(n, a, b, 15)
      && Equation(n, a, b, 16) && Equation(n, a, b, 17);
    assert Equation(n, a, b, 18) && Equation(n, a, b, 19) && Equation(n, a, b, 20) && Equation(n, a, b, 21)
      && Equation(n, a, b, 22) && Equation(n, a, b, 23);
    assert !Coef(b, -1) && !Coef(b, -2) && !Coef(b, -3) && !Coef(b, -4) && !Coef(b, -5) && !Coef(b, -6)
      && !Coef(b, -7) && !Coef(b, -8);
    assert !Coef(b, 16) && !Coef(b, 17) && !Coef(b, 18) && !Coef(b, 19) && !Coef(b, 20) && !Coef(b, 21)
      && !Coef(b, 22) && !Coef(b, 23);
  }

  lemma SomeCoefficientDiffers(a: nat, b: nat)
    requires a < Pow2(9) && b < Pow2(16)
    ensures !Matches(PMul(b, a))
  {
    forall i | -8 <= i < 0 || 16 <= i < 24 ensures !Coef(b, i) {
      if i > 0 { CoefAbove(b, 16, i); }
    }
    hide Coef, PMul, Pow2, Matches, Equation;
    forall i: nat | i < 24 ensures Equation(PMul(b, a), a, b, i) {
      ProductEquation(a, b, i);
    }
    NoSolution(PMul(b, a), a, b);
  }

  lemma OneBit(a: nat)
    requires Len(a) == 1
    ensures a == 1
  {
    LenSpec(a);
    assert Pow2(1) == 2;
  }

  lemma ShortFactor(a: nat, b: nat)
    requires PMul(b, a) == Modulus(POLYNOME) && Len(a) <= 9
    ensures a == 1
  {
    PolynomialMatches(PMul(b, a));
    PMulNonzero(b, a);
    LenMul(b, a);
    ModulusLen(POLYNOME);
    hide Coef, Matches, PMul;
    LenBelow(a, 9); LenBelow(b, 16);
    if Len(a) == 1 { OneBit(a); } else { SomeCoefficientDiffers(a, b); }
  }

  /** The default polynomial makes a field. */
  lemma DefaultIsIrreducible()
    ensures Irreducible(Modulus(POLYNOME))
  {
    var m := Modulus(POLYNOME);
    hide Len, PMul;
    forall f: nat, g: nat | PMul(f, g) == m ensures f == 1 || g == 1 {
      PMulNonzero(f, g);
      LenMul(f, g);
      ModulusLen(POLYNOME);
      PMulComm(f, g);
      if Len(f) <= 9 { ShortFactor(f, g); } else { ShortFactor(g, f); }
    }
  }
}
