/**
  The extended Euclidean algorithm on polynomials over GF(2), as the field inverse uses it:
  one division step, what every step keeps, and what follows once the remainder is zero.
*/
module Euclid {
  import opened Gf2Poly
  import opened BinaryField

  /**
    t and oldT are the Bezout factors of r0 for the remainders r and oldR,
    and every common divisor of the remainders divides r0 and the modulus.
  */
  ghost predicate Bezout(p: Word, r0: Word, oldR: nat, r: nat, oldT: Word, t: Word) {
    && Reduce(p, PMul(t, r0)) == Reduce(p, r)
    && Reduce(p, PMul(oldT, r0)) == Reduce(p, oldR)
    && forall d: nat :: Divides(d, oldR) && Divides(d, r) ==> Divides(d, r0) && Divides(d, Modulus(p))
  }

  lemma BezoutStart(p: Word, r0: Word)
    ensures Bezout(p, r0, Modulus(p), r0, 0, 1)
  {
    PMulOne(r0); PMulZero(r0);
    PMulOne(Modulus(p)); ReduceMultiple(p, 1); ReduceWord(p, 0);
  }

  /** One division oldR == q*r + rest, and the swap of old and new. */
  lemma BezoutStep(p: Word, r0: Word, oldR: nat, r: nat, oldT: Word, t: Word, q: nat, rest: nat)
    requires Bezout(p, r0, oldR, r, oldT, t)
    requires oldR == Xor(PMul(q, r), rest)
    ensures Bezout(p, r0, r, rest, t, Add(oldT, Reduce(p, PMul(q, t))))
  {
    BezoutFactor(p, r0, oldR, r, oldT, t, q, rest);
    forall d: nat | Divides(d, r) && Divides(d, rest)
      ensures Divides(d, r0) && Divides(d, Modulus(p))
    {
      DividesAddMul(d, rest, r, q);
      XorComm(rest, PMul(q, r));
    }
  }

  lemma BezoutFactor(p: Word, r0: Word, oldR: nat, r: nat, oldT: Word, t: Word, q: nat, rest: nat)
    requires Reduce(p, PMul(t, r0)) == Reduce(p, r) && Reduce(p, PMul(oldT, r0)) == Reduce(p, oldR)
    requires oldR == Xor(PMul(q, r), rest)
    ensures Reduce(p, PMul(Add(oldT, Reduce(p, PMul(q, t))), r0)) == Reduce(p, rest)
  {
    var qt, qr := PMul(q, t), PMul(q, r);
    calc {
      Reduce(p, PMul(Add(oldT, Reduce(p, PMul(q, t))), r0));
      { PMulAddLeft(oldT, Reduce(p, PMul(q, t)), r0);
        ReduceAdd(p, PMul(oldT, r0), PMul(Reduce(p, PMul(q, t)), r0)); }
      Add(Reduce(p, oldR), Reduce(p, PMul(Reduce(p, qt), r0)));
      { ReduceMul(p, qt, r0); PMulAssoc(q, t, r0); }
      Add(Reduce(p, oldR), Reduce(p, PMul(q, PMul(t, r0))));
      { ReduceMul(p, q, PMul(t, r0)); ReduceMul(p, q, r); }
      Add(Reduce(p, oldR), Reduce(p, qr));
      { ReduceAdd(p, oldR, qr); }
      Reduce(p, Xor(oldR, qr));
      { XorComm(qr, rest); XorCancel(rest, qr); }
      Reduce(p, rest);
    }
  }

  /** The algorithm has found 1: oldT inverts r0, and t has become zero. */
  lemma BezoutUnit(p: Word, r0: Word, oldT: Word, t: Word)
    requires Bezout(p, r0, 1, 0, oldT, t)
    ensures IsInverse(p, r0, oldT) && t == 0
  {
    ReduceWord(p, 0); ReduceWord(p, 1);
    MulComm(p, r0, oldT); MulComm(p, t, r0);
    CancelByInverse(p, r0, oldT, t);
    MulUnits(p, oldT);
  }

  /** The algorithm has found g != 1: then r0 shares the factor g with the modulus. */
  lemma BezoutNonUnit(p: Word, r0: Word, g: nat, oldT: Word, t: Word)
    requires r0 != 0 && g != 1 && Bezout(p, r0, g, 0, oldT, t)
    ensures !exists b: Word :: IsInverse(p, r0, b)
    ensures !Irreducible(Modulus(p))
  {
    DividesSelf(g);
    assert Divides(g, r0) && Divides(g, Modulus(p));
    forall b: Word ensures !IsInverse(p, r0, b) {
      if IsInverse(p, r0, b) {
        var q := PModSpec(PMul(r0, b), Modulus(p));
        // 1 == b*r0 + q*M
        XorComm(PMul(q, Modulus(p)), 1); XorCancel(1, PMul(q, Modulus(p)));
        PMulComm(r0, b);
        var c: nat :| PMul(c, g) == r0;
        PMulAssoc(b, c, g);
        assert Divides(g, PMul(b, r0));
        DividesAddMul(g, PMul(b, r0), Modulus(p), q);
        OnlyUnit(g);
      }
    }
    CommonFactor(p, r0, g);
  }

  ghost predicate Invertible(p: Word, r0: Word) {
    exists b: Word :: IsInverse(p, r0, b)
  }

  /** What the end of the algorithm says: the last remainder decides. */
  lemma BezoutEnd(p: Word, r0: Word, g: nat, oldT: Word, t: Word)
    requires r0 != 0 && Bezout(p, r0, g, 0, oldT, t)
    ensures g == 1 ==> t == 0 && IsInverse(p, r0, Add(t, oldT))
    ensures g != 1 ==> !Invertible(p, r0) && !Irreducible(Modulus(p))
  {
    if g == 1 {
      BezoutUnit(p, r0, oldT, t);
      XorZero(oldT);
    } else {
      BezoutNonUnit(p, r0, g, oldT, t);
    }
  }

  lemma OnlyUnit(g: nat)
    requires Divides(g, 1)
    ensures g == 1
  {
    var c: nat :| PMul(c, g) == 1;
    PMulNonzero(c, g);
    LenMul(c, g);
    assert Len(1) == 1;
    LenSpec(g); LenSpec(c);
    assert Len(g) == 1 by { if Len(g) == 0 {} if Len(c) == 0 {} }
  }

  lemma CommonFactor(p: Word, r0: Word, g: nat)
    requires r0 != 0 && g != 1 && Divides(g, r0) && Divides(g, Modulus(p))
    ensures !Irreducible(Modulus(p))
  {
    var c: nat :| PMul(c, g) == r0;
    var h: nat :| PMul(h, g) == Modulus(p);
    PMulNonzero(c, g);
    LenMul(c, g);
    WordLen(r0); ModulusLen(p);
    LenSpec(c);
    if h == 1 { PMulOne(g); }
  }

  /** Over an irreducible modulus the algorithm always ends with an inverse. */
  lemma InverseExists(p: Word, r0: Word)
    requires Irreducible(Modulus(p)) && r0 != 0
    ensures Invertible(p, r0)
  {
    BezoutStart(p, r0);
    InverseFrom(p, r0, Modulus(p), r0, 0, 1);
  }

  lemma {:induction false} InverseFrom(p: Word, r0: Word, oldR: nat, r: nat, oldT: Word, t: Word)
    requires Irreducible(Modulus(p)) && r0 != 0
    requires Bezout(p, r0, oldR, r, oldT, t)
    ensures Invertible(p, r0)
    decreases Len(r)
  {
    if r == 0 { BezoutEnd(p, r0, oldR, oldT, t); } else {
      var q := PModSpec(oldR, r);
      BezoutStep(p, r0, oldR, r, oldT, t, q, PMod(oldR, r));
      InverseFrom(p, r0, r, PMod(oldR, r), t, Add(oldT, Reduce(p, PMul(q, t))));
    }
  }

  // ---------- one division, bit by bit ----------

  /**
    Halfway through the division of a by r, whose top bit is h: bits above `bit` are done,
    the quotient so far is a multiple of x^(bit+1-h).
  */
  ghost predicate Dividing(a: nat, r: nat, h: nat, bit: int, oldR: nat, quo: nat, high: nat) {
    && h <= bit + 1 <= 16
    && Pow2(h) <= r < Pow2(h + 1)
    && a == Xor(PMul(quo, r), oldR)
    && oldR < Pow2(bit + 1)
    && quo == Shl(high, bit + 1 - h)
    && quo < 65536
  }

  lemma DividingStart(a: Word, r: nat, h: nat)
    requires h < 16 && Pow2(h) <= r < Pow2(h + 1)
    ensures Dividing(a, r, h, 15, a, 0, 0)
  {
    Powers();
    PMulZero(r); XorZero(a); ShlZero(16 - h);
  }

  /** Adding the divisor, shifted, to both parts of a division. */
  lemma MoveMultiple(a: nat, quo: nat, k: nat, r: nat, rest: nat)
    requires a == Xor(PMul(quo, r), rest)
    ensures a == Xor(PMul(Xor(quo, Pow2(k)), r), Xor(rest, Shl(r, k)))
  {
    var s := Shl(r, k);
    PMulPow2(k, r);
    PMulAddLeft(quo, Pow2(k), r);
    XorSwap(PMul(quo, r), s, rest, s); XorSelf(s); XorZero(a);
  }

  lemma QuotientBit(quo: nat, k: nat, high: nat)
    requires quo == Shl(high, k + 1)
    ensures Or(quo, Pow2(k)) == Xor(quo, Pow2(k)) == Shl(2 * high + 1, k)
  {
    OrHighLow(k + 1, high, Pow2(k));
    XorHighLow(k + 1, high, Pow2(k));
    ShlStepOdd(high, k);
  }

  lemma PowNext(k: nat)
    ensures Pow2(k) < Pow2(k + 1)
  {}

  lemma SubtractBit(a: nat, r: nat, h: nat, bit: nat, oldR: nat, quo: nat, high: nat)
    requires Dividing(a, r, h, bit, oldR, quo, high) && h <= bit && Pow2(bit) <= oldR
    ensures Shl(r, bit - h) < 65536 && Pow2(bit - h) < 65536
    ensures Dividing(a, r, h, bit - 1, Xor(oldR, Shl(r, bit - h)), Or(quo, Pow2(bit - h)), 2 * high + 1)
  {
    hide Pow2, Shl, Xor, Or, PMul;
    var k := bit - h;
    Powers();
    PowNext(k);
    ShlTop(r, h, k);
    Pow2Monotone(bit + 1, 16); Pow2Monotone(k + 1, 16);
    XorDropsTop(oldR, Shl(r, k), bit);
    QuotientBit(quo, k, high);
    OrBound(quo, Pow2(k), 16);
    MoveMultiple(a, quo, k, r, oldR);
  }

  lemma SkipBit(a: nat, r: nat, h: nat, bit: nat, oldR: nat, quo: nat, high: nat)
    requires Dividing(a, r, h, bit, oldR, quo, high) && h <= bit && oldR < Pow2(bit)
    ensures Dividing(a, r, h, bit - 1, oldR, quo, 2 * high)
  {
    ShlStep(high, bit - h);
  }

  /** Two numbers with top bit 16 differ as their low words do. */
  lemma TopsCancel(a: Word, b: Word)
    ensures Xor(65536 + a, 65536 + b) == Xor(a, b)
  {
    WordHighLow(1, a); WordHighLow(1, b);
    XorSwap(65536, a, 65536, b); XorSelf(65536); XorZero(Xor(a, b));
  }

  lemma FirstRemainder(p: Word, r: Word, h: nat)
    requires 1 <= h < 16 && Pow2(h) <= r < Pow2(h + 1)
    ensures Add(p, ToU16(Shl(r, 16 - h))) == Xor(Modulus(p), Shl(r, 16 - h))
  {
    Powers();
    ShlTop(r, h, 16 - h);
    TopsCancel(p, Shl(r, 16 - h) - 65536);
  }

  lemma FirstDivision(p: Word, r: Word, k: nat)
    ensures Modulus(p) == Xor(PMul(Pow2(k), r), Xor(Modulus(p), Shl(r, k)))
  {
    PMulZero(r); XorZero(Modulus(p)); XorZero(Pow2(k));
    MoveMultiple(Modulus(p), 0, k, r, Modulus(p));
  }

  /** The first subtraction, where the modulus has a bit that the word has no room for. */
  lemma SubtractModulus(p: Word, r: Word, h: nat)
    requires 1 <= h < 16 && Pow2(h) <= r < Pow2(h + 1)
    ensures Pow2(16 - h) < 65536
    ensures Dividing(Modulus(p), r, h, 15, Add(p, ToU16(Shl(r, 16 - h))), Or(0, Pow2(16 - h)), 1)
  {
    var k := 16 - h;
    FirstRemainder(p, r, h);
    FirstDivision(p, r, k);
    OrZeroLeft(Pow2(k)); ShlOne(k);
    Powers(); Pow2Monotone(k, 15);
  }

  lemma {:induction false} OrZeroLeft(a: nat)
    ensures Or(0, a) == a
  {
    if a > 0 { OrZeroLeft(a / 2); }
  }
}
