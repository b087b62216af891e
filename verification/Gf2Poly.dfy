/**
  Polynomials over GF(2), written as natural numbers: bit k is the coefficient of x^k.
  Addition is exclusive-or, multiplication is the carry-less product.
*/
module Gf2Poly {

  function Pow2(k: nat): (r: nat)
    ensures r >= 1
  {
    if k == 0 then 1 else 2 * Pow2(k - 1)
  }

  /** a << k, without truncation */
  function Shl(a: nat, k: nat): nat {
    if k == 0 then a else 2 * Shl(a, k - 1)
  }

  lemma {:induction false} ShlOne(k: nat)
    ensures Shl(1, k) == Pow2(k)
  {
    if k > 0 { ShlOne(k - 1); }
  }

  lemma ShlFour(a: nat, k: nat)
    ensures Shl(a, k + 4) == 16 * Shl(a, k)
  {
    assert Shl(a, k + 4) == 2 * Shl(a, k + 3);
    assert Shl(a, k + 2) == 2 * Shl(a, k + 1);
  }

  lemma ShlNibble(a: nat)
    ensures Shl(a, 4) == 16 * a
  {
    ShlFour(a, 0);
  }

  lemma ShlWord(a: nat)
    ensures Shl(a, 4) == 16 * a && Shl(a, 16) == 65536 * a
  {
    ShlFour(a, 0); ShlFour(a, 4); ShlFour(a, 8); ShlFour(a, 12);
  }

  lemma {:induction false} ShlZero(k: nat)
    ensures Shl(0, k) == 0
  {
    if k > 0 { ShlZero(k - 1); }
  }

  lemma {:induction false} ShlStep(a: nat, k: nat)
    ensures Shl(2 * a, k) == Shl(a, k + 1)
  {
    if k > 0 { ShlStep(a, k - 1); }
  }

  lemma {:induction false} ShlStepOdd(a: nat, k: nat)
    ensures Shl(2 * a + 1, k) == Shl(a, k + 1) + Pow2(k)
  {
    if k > 0 { ShlStepOdd(a, k - 1); }
  }

  lemma {:induction false} ShlTop(a: nat, h: nat, k: nat)
    requires Pow2(h) <= a < Pow2(h + 1)
    ensures Pow2(h + k) <= Shl(a, k) < Pow2(h + k + 1)
    decreases k
  {
    if k > 0 { ShlTop(a, h, k - 1); }
  }

  /** a >> k */
  function Shr(a: nat, k: nat): nat
    decreases k
  {
    if k == 0 then a else Shr(a / 2, k - 1)
  }

  lemma {:induction false} ShrZero(a: nat, k: nat)
    ensures Shr(a, k) == 0 <==> a < Pow2(k)
    decreases k
  {
    if k > 0 { ShrZero(a / 2, k - 1); }
  }

  // ---------- addition ----------

  function XorBit(a: nat, b: nat): nat {
    if a % 2 == b % 2 then 0 else 1
  }

  function Xor(a: nat, b: nat): nat
    decreases a + b
  {
    if a == 0 && b == 0 then 0 else XorBit(a, b) + 2 * Xor(a / 2, b / 2)
  }

  lemma Halves(bit: nat, half: nat)
    requires bit < 2
    ensures (bit + 2 * half) % 2 == bit && (bit + 2 * half) / 2 == half
  {}

  lemma XorUnfold(a: nat, b: nat)
    ensures Xor(a, b) == XorBit(a, b) + 2 * Xor(a / 2, b / 2)
  {
    if a == 0 && b == 0 {} else {}
  }

  lemma XorStep(a: nat, b: nat)
    ensures Xor(a, b) == XorBit(a, b) + 2 * Xor(a / 2, b / 2)
    ensures Xor(a, b) % 2 == XorBit(a, b)
    ensures Xor(a, b) / 2 == Xor(a / 2, b / 2)
  {
    XorUnfold(a, b);
    Halves(XorBit(a, b), Xor(a / 2, b / 2));
  }

  lemma {:induction false} XorComm(a: nat, b: nat)
    ensures Xor(a, b) == Xor(b, a)
    decreases a + b
  {
    if a != 0 || b != 0 { XorComm(a / 2, b / 2); }
  }

  lemma {:induction false} XorZero(a: nat)
    ensures Xor(a, 0) == a && Xor(0, a) == a
  {
    if a != 0 { XorZero(a / 2); }
  }

  lemma {:induction false} XorSelf(a: nat)
    ensures Xor(a, a) == 0
  {
    if a != 0 { XorSelf(a / 2); }
  }

  lemma {:induction false} XorAssoc(a: nat, b: nat, c: nat)
    ensures Xor(Xor(a, b), c) == Xor(a, Xor(b, c))
    decreases a + b + c
  {
    if a + b + c != 0 {
      var ab, bc := Xor(a, b), Xor(b, c);
      XorStep(a, b); XorStep(b, c); XorStep(ab, c); XorStep(a, bc);
      XorAssoc(a / 2, b / 2, c / 2);
      assert XorBit(ab, c) == XorBit(a, bc);
    }
  }

  /** (a+b)+(c+d) == (a+c)+(b+d) */
  lemma XorSwap(a: nat, b: nat, c: nat, d: nat)
    ensures Xor(Xor(a, b), Xor(c, d)) == Xor(Xor(a, c), Xor(b, d))
  {
    XorAssoc(a, b, Xor(c, d)); XorAssoc(b, c, d); XorComm(b, c);
    XorAssoc(c, b, d); XorAssoc(a, c, Xor(b, d));
  }

  /** Adding the same polynomial twice changes nothing. */
  lemma XorCancel(a: nat, b: nat)
    ensures Xor(Xor(a, b), b) == a && Xor(b, Xor(b, a)) == a
  {
    XorAssoc(a, b, b); XorSelf(b); XorZero(a); XorAssoc(b, b, a);
  }

  lemma XorInjective(a: nat, b: nat, c: nat)
    requires Xor(a, c) == Xor(b, c)
    ensures a == b
  {
    XorCancel(a, c); XorCancel(b, c);
  }

  lemma XorZeroIff(a: nat, b: nat)
    ensures Xor(a, b) == 0 <==> a == b
  {
    XorSelf(b);
    if Xor(a, b) == 0 { XorInjective(a, b, b); }
  }

  lemma XorDouble(a: nat, b: nat)
    ensures Xor(2 * a, 2 * b) == 2 * Xor(a, b)
  {
    XorStep(2 * a, 2 * b);
  }

  lemma {:induction false} XorBound(a: nat, b: nat, k: nat)
    requires a < Pow2(k) && b < Pow2(k)
    ensures Xor(a, b) < Pow2(k)
    decreases k
  {
    if k > 0 { XorStep(a, b); XorBound(a / 2, b / 2, k - 1); } else { XorZero(0); }
  }

  /** If both top bits sit at k, the sum has no bit at k or above. */
  lemma {:induction false} XorDropsTop(a: nat, b: nat, k: nat)
    requires Pow2(k) <= a < Pow2(k + 1) && Pow2(k) <= b < Pow2(k + 1)
    ensures Xor(a, b) < Pow2(k)
    decreases k
  {
    XorStep(a, b);
    if k > 0 { XorDropsTop(a / 2, b / 2, k - 1); } else { XorSelf(0); }
  }

  /** If only a has its top bit at k, so has the sum. */
  lemma {:induction false} XorKeepsTop(a: nat, b: nat, k: nat)
    requires Pow2(k) <= a < Pow2(k + 1) && b < Pow2(k)
    ensures Pow2(k) <= Xor(a, b) < Pow2(k + 1)
    decreases k
  {
    XorStep(a, b);
    if k > 0 { XorKeepsTop(a / 2, b / 2, k - 1); } else { XorSelf(0); }
  }

  /** High and low parts of a word do not meet. */
  lemma {:induction false} XorHighLow(k: nat, high: nat, low: nat)
    requires low < Pow2(k)
    ensures Xor(Shl(high, k), low) == Shl(high, k) + low
    decreases k
  {
    if k == 0 { XorZero(high); } else {
      XorHighLow(k - 1, high, low / 2);
      XorStep(Shl(high, k), low);
    }
  }

  lemma {:induction false} XorShl(a: nat, b: nat, k: nat)
    ensures Xor(Shl(a, k), Shl(b, k)) == Shl(Xor(a, b), k)
  {
    if k > 0 { XorShl(a, b, k - 1); XorDouble(Shl(a, k - 1), Shl(b, k - 1)); }
  }

  /** Exclusive-or works on the high and on the low part apart. */
  lemma XorSplit(k: nat, a: nat, x: nat, b: nat, y: nat)
    requires x < Pow2(k) && y < Pow2(k)
    ensures Xor(x, y) < Pow2(k)
    ensures Xor(Shl(a, k) + x, Shl(b, k) + y) == Shl(Xor(a, b), k) + Xor(x, y)
  {
    hide Xor, Shl, Pow2;
    var h, l := Xor(a, b), Xor(x, y);
    XorHighLow(k, a, x); XorHighLow(k, b, y);
    XorSwap(Shl(a, k), x, Shl(b, k), y);
    XorShl(a, b, k);
    XorBound(x, y, k);
    XorHighLow(k, h, l);
  }

  /** Bitwise or. */
  function Or(a: nat, b: nat): nat
    decreases a + b
  {
    if a == 0 && b == 0 then 0
    else (if a % 2 == 0 && b % 2 == 0 then 0 else 1) + 2 * Or(a / 2, b / 2)
  }

  lemma {:induction false} OrZero(a: nat)
    ensures Or(a, 0) == a
  {
    if a > 0 { OrZero(a / 2); }
  }

  lemma {:induction false} OrBound(a: nat, b: nat, k: nat)
    requires a < Pow2(k) && b < Pow2(k)
    ensures Or(a, b) < Pow2(k)
    decreases k
  {
    if k > 0 { OrBound(a / 2, b / 2, k - 1); }
  }

  lemma {:induction false} OrHighLow(k: nat, high: nat, low: nat)
    requires low < Pow2(k)
    ensures Or(Shl(high, k), low) == Shl(high, k) + low
    decreases k
  {
    if k == 0 { OrZero(high); } else {
      OrHighLow(k - 1, high, low / 2);
    }
  }

  // ---------- multiplication ----------

  function When(bit: nat, a: nat): nat {
    if bit == 0 then 0 else a
  }

  function PMul(a: nat, b: nat): nat
    decreases b
  {
    if b == 0 then 0 else Xor(When(b % 2, a), PMul(2 * a, b / 2))
  }

  lemma PMulStep(a: nat, b: nat)
    ensures PMul(a, b) == Xor(When(b % 2, a), PMul(2 * a, b / 2))
  {
    if b == 0 { XorZero(0); }
  }

  lemma {:induction false} PMulDouble(a: nat, b: nat)
    ensures PMul(2 * a, b) == 2 * PMul(a, b)
    decreases b
  {
    if b != 0 {
      PMulDouble(2 * a, b / 2);
      XorDouble(When(b % 2, a), PMul(2 * a, b / 2));
    }
  }

  lemma PMulHorner(a: nat, b: nat)
    ensures PMul(a, b) == Xor(When(b % 2, a), 2 * PMul(a, b / 2))
  {
    PMulStep(a, b); PMulDouble(a, b / 2);
  }

  lemma PMulDoubleRight(a: nat, b: nat)
    ensures PMul(a, 2 * b) == 2 * PMul(a, b)
  {
    PMulDouble(a, b);
    PMulStep(a, 2 * b);
    assert When((2 * b) % 2, a) == 0;
    XorZero(PMul(2 * a, b));
  }

  /** Multiplication by x^k is a shift. */
  lemma {:induction false} PMulPow2(k: nat, a: nat)
    ensures PMul(Pow2(k), a) == Shl(a, k)
    decreases k
  {
    if k == 0 { PMulOne(a); } else {
      PMulPow2(k - 1, a);
      PMulDouble(Pow2(k - 1), a);
    }
  }

  lemma {:induction false} PMulAddLeft(a: nat, b: nat, c: nat)
    ensures PMul(Xor(a, b), c) == Xor(PMul(a, c), PMul(b, c))
    decreases c
  {
    if c == 0 { XorZero(0); } else {
      XorDouble(a, b);
      PMulAddLeft(2 * a, 2 * b, c / 2);
      XorZero(0);
      XorSwap(When(c % 2, a), When(c % 2, b), PMul(2 * a, c / 2), PMul(2 * b, c / 2));
    }
  }

  lemma {:induction false} PMulZero(a: nat)
    ensures PMul(0, a) == 0 && PMul(a, 0) == 0
    decreases a
  {
    if a != 0 { PMulZero(a / 2); XorZero(0); }
  }

  lemma {:induction false} PMulOne(a: nat)
    ensures PMul(1, a) == a && PMul(a, 1) == a
    decreases a
  {
    PMulStep(a, 1); PMulZero(2 * a); XorZero(a);
    if a != 0 {
      PMulOne(a / 2);
      PMulHorner(1, a);
      XorStep(a % 2, 2 * (a / 2));
      XorZero(a / 2);
    }
  }

  lemma {:induction false} PMulComm(a: nat, b: nat)
    ensures PMul(a, b) == PMul(b, a)
    decreases b
  {
    if b == 0 { PMulZero(a); } else {
      // b == b%2 + 2*(b/2)
      XorStep(b % 2, 2 * (b / 2)); XorZero(b / 2);
      assert Xor(b % 2, 2 * (b / 2)) == b;
      PMulAddLeft(b % 2, 2 * (b / 2), a);
      PMulDouble(b / 2, a);
      PMulComm(a, b / 2);
      PMulHorner(a, b);
      PMulZero(a); PMulOne(a);
    }
  }

  lemma PMulAddRight(a: nat, b: nat, c: nat)
    ensures PMul(a, Xor(b, c)) == Xor(PMul(a, b), PMul(a, c))
  {
    PMulComm(a, Xor(b, c)); PMulComm(a, b); PMulComm(a, c); PMulAddLeft(b, c, a);
  }

  lemma {:induction false} PMulAssoc(a: nat, b: nat, c: nat)
    ensures PMul(PMul(a, b), c) == PMul(a, PMul(b, c))
    decreases c
  {
    if c == 0 { PMulZero(a); } else {
      PMulHorner(PMul(a, b), c);
      PMulAssoc(a, b, c / 2);
      PMulHorner(b, c);
      PMulAddRight(a, When(c % 2, b), 2 * PMul(b, c / 2));
      PMulDoubleRight(a, PMul(b, c / 2));
      PMulZero(a);
    }
  }

  // ---------- degree ----------

  /** Number of bits: one more than the degree, and 0 for the zero polynomial. */
  function Len(a: nat): nat {
    if a == 0 then 0 else 1 + Len(a / 2)
  }

  lemma {:induction false} LenSpec(a: nat)
    ensures a < Pow2(Len(a))
    ensures a > 0 ==> Len(a) > 0 && Pow2(Len(a) - 1) <= a
  {
    if a > 0 { LenSpec(a / 2); }
  }

  lemma {:induction false} Pow2Monotone(i: nat, j: nat)
    requires i <= j
    ensures Pow2(i) <= Pow2(j)
    decreases j
  {
    if i < j { Pow2Monotone(i, j - 1); }
  }

  lemma LenUnique(a: nat, k: nat)
    requires Pow2(k) <= a < Pow2(k + 1)
    ensures Len(a) == k + 1
  {
    LenSpec(a);
    if Len(a) <= k { Pow2Monotone(Len(a), k); }
    if Len(a) > k + 1 { Pow2Monotone(k + 1, Len(a) - 1); }
  }

  lemma LenBelow(a: nat, k: nat)
    ensures a < Pow2(k) <==> Len(a) <= k
  {
    LenSpec(a);
    if Len(a) <= k { Pow2Monotone(Len(a), k); }
    else { Pow2Monotone(k, Len(a) - 1); }
  }

  lemma {:induction false} LenMul(a: nat, b: nat)
    requires a > 0 && b > 0
    ensures PMul(a, b) > 0 && Len(PMul(a, b)) == Len(a) + Len(b) - 1
    decreases b
  {
    PMulHorner(a, b);
    if b == 1 {
      PMulOne(a);
    } else {
      LenMul(a, b / 2);
      var h := PMul(a, b / 2);
      var k := Len(h);
      LenSpec(h); LenSpec(a);
      if b % 2 == 0 { XorZero(2 * h); } else {
        Pow2Monotone(Len(a), k);
        XorComm(a, 2 * h);
        XorKeepsTop(2 * h, a, k);
      }
      LenUnique(PMul(a, b), k);
    }
  }

  lemma PMulNonzero(a: nat, b: nat)
    ensures PMul(a, b) == 0 <==> a == 0 || b == 0
  {
    if a > 0 && b > 0 { LenMul(a, b); } else { PMulZero(a); PMulZero(b); }
  }

  // ---------- division with remainder ----------

  datatype QuoRem = QuoRem(quo: nat, rem: nat)

  ghost predicate IsDivision(a: nat, m: nat, d: QuoRem) {
    a == Xor(PMul(d.quo, m), d.rem) && Len(d.rem) < Len(m)
  }

  /** Quotient and remainder by long division, most significant bit first. */
  function PDivMod(a: nat, m: nat): QuoRem
    requires m > 0
    decreases a
  {
    if a == 0 then QuoRem(0, 0) else LongDivisionStep(PDivMod(a / 2, m), a % 2, m)
  }

  function LongDivisionStep(d: QuoRem, bit: nat, m: nat): QuoRem
    requires m > 0
  {
    var s := 2 * d.rem + bit;
    if Len(s) >= Len(m) then QuoRem(2 * d.quo + 1, Xor(s, m)) else QuoRem(2 * d.quo, s)
  }

  lemma XorLowBit(a: nat, bit: nat)
    requires bit < 2
    ensures Xor(2 * a, bit) == 2 * a + bit
  {
    XorStep(2 * a, bit); XorZero(a);
  }

  /** a == q*m + r, then 2a + bit == (2q)*m + (2r + bit) */
  lemma DivisionShift(a: nat, q: nat, r: nat, m: nat, bit: nat)
    requires bit < 2 && a == Xor(PMul(q, m), r)
    ensures 2 * a + bit == Xor(PMul(2 * q, m), 2 * r + bit)
  {
    XorLowBit(a, bit);
    XorDouble(PMul(q, m), r);
    XorAssoc(2 * PMul(q, m), 2 * r, bit);
    XorLowBit(r, bit);
    PMulDouble(q, m);
  }

  /** a == (2q)*m + s, then a == (2q+1)*m + (s+m) */
  lemma DivisionSubtract(a: nat, q: nat, s: nat, m: nat)
    requires a == Xor(PMul(2 * q, m), s)
    ensures a == Xor(PMul(2 * q + 1, m), Xor(s, m))
  {
    XorLowBit(q, 1);
    PMulAddLeft(2 * q, 1, m); PMulOne(m);
    XorSwap(PMul(2 * q, m), m, s, m);
    XorSelf(m); XorZero(a);
  }

  lemma ShiftLen(r: nat, bit: nat, n: nat)
    requires bit < 2 && Len(r) < n
    ensures Len(2 * r + bit) <= n
  {
    LenBelow(r, n - 1);
    LenBelow(2 * r + bit, n);
  }

  lemma DropTop(s: nat, m: nat)
    requires m > 0 && Len(s) == Len(m)
    ensures Len(Xor(s, m)) < Len(m)
  {
    LenSpec(s); LenSpec(m);
    XorDropsTop(s, m, Len(m) - 1);
    LenBelow(Xor(s, m), Len(m) - 1);
  }

  lemma Subtraction(a: nat, q: nat, s: nat, m: nat)
    requires m > 0 && a == Xor(PMul(2 * q, m), s) && Len(s) == Len(m)
    ensures IsDivision(a, m, QuoRem(2 * q + 1, Xor(s, m)))
  {
    DropTop(s, m);
    DivisionSubtract(a, q, s, m);
  }

  lemma LongDivisionStepSpec(h: nat, d: QuoRem, bit: nat, m: nat)
    requires m > 0 && IsDivision(h, m, d) && bit < 2
    ensures IsDivision(2 * h + bit, m, LongDivisionStep(d, bit, m))
  {
    hide PMul, Xor, Len;
    var s := 2 * d.rem + bit;
    ShiftLen(d.rem, bit, Len(m));
    DivisionShift(h, d.quo, d.rem, m, bit);
    if Len(s) >= Len(m) {
      Subtraction(2 * h + bit, d.quo, s, m);
    }
  }

  lemma {:induction false} PDivModSpec(a: nat, m: nat)
    requires m > 0
    ensures IsDivision(a, m, PDivMod(a, m))
    decreases a
  {
    if a == 0 { PMulZero(m); XorZero(0); } else {
      PDivModSpec(a / 2, m);
      LongDivisionStepSpec(a / 2, PDivMod(a / 2, m), a % 2, m);
    }
  }

  ghost predicate IsRemainder(a: nat, m: nat, r: nat) {
    Len(r) < Len(m) && exists q: nat :: a == Xor(PMul(q, m), r)
  }

  /** The remainder, specified by what it is; PModUnique says that it is the only one. */
  ghost function PMod(a: nat, m: nat): nat
    requires m > 0
  {
    PDivModSpec(a, m);
    assert IsRemainder(a, m, PDivMod(a, m).rem);
    var r: nat :| IsRemainder(a, m, r);
    r
  }

  lemma PModSpec(a: nat, m: nat) returns (q: nat)
    requires m > 0
    ensures a == Xor(PMul(q, m), PMod(a, m)) && Len(PMod(a, m)) < Len(m)
  {
    PDivModSpec(a, m);
    assert IsRemainder(a, m, PDivMod(a, m).rem);
    q :| a == Xor(PMul(q, m), PMod(a, m));
  }

  lemma PModBound(a: nat, m: nat)
    requires m > 0
    ensures Len(PMod(a, m)) < Len(m)
  {
    var _ := PModSpec(a, m);
  }

  lemma XorLen(a: nat, b: nat, n: nat)
    requires Len(a) < n && Len(b) < n
    ensures Len(Xor(a, b)) < n
  {
    LenBelow(a, n - 1); LenBelow(b, n - 1);
    XorBound(a, b, n - 1);
    LenBelow(Xor(a, b), n - 1);
  }

  /** The remainder is unique. */
  lemma PModUnique(a: nat, m: nat, q: nat, r: nat)
    requires m > 0 && a == Xor(PMul(q, m), r) && Len(r) < Len(m)
    ensures PMod(a, m) == r
  {
    var q' := PModSpec(a, m);
    var r' := PMod(a, m);
    var d := Xor(q, q');
    // d*m == r + r'
    calc {
      PMul(d, m);
      { PMulAddLeft(q, q', m); }
      Xor(PMul(q, m), PMul(q', m));
      { XorCancel(PMul(q, m), r); XorCancel(PMul(q', m), r'); }
      Xor(Xor(a, r), Xor(a, r'));
      { XorSwap(a, r, a, r'); XorSelf(a); XorZero(Xor(r, r')); }
      Xor(r, r');
    }
    XorLen(r, r', Len(m));
    if d > 0 { LenMul(d, m); }
    PMulZero(m);
    XorZeroIff(r, r');
  }

  lemma PModSmall(a: nat, m: nat)
    requires m > 0 && Len(a) < Len(m)
    ensures PMod(a, m) == a
  {
    PMulZero(m); XorZero(a);
    PModUnique(a, m, 0, a);
  }

  lemma PModAdd(a: nat, b: nat, m: nat)
    requires m > 0
    ensures PMod(Xor(a, b), m) == Xor(PMod(a, m), PMod(b, m))
  {
    var q := PModSpec(a, m);
    var q' := PModSpec(b, m);
    var r, r' := PMod(a, m), PMod(b, m);
    XorSwap(PMul(q, m), r, PMul(q', m), r');
    PMulAddLeft(q, q', m);
    XorLen(r, r', Len(m));
    PModUnique(Xor(a, b), m, Xor(q, q'), Xor(r, r'));
  }

  lemma PModMultiple(q: nat, m: nat)
    requires m > 0
    ensures PMod(PMul(q, m), m) == 0
  {
    XorZero(PMul(q, m));
    PModUnique(PMul(q, m), m, q, 0);
  }

  lemma PModMul(a: nat, b: nat, m: nat)
    requires m > 0
    ensures PMod(PMul(a, PMod(b, m)), m) == PMod(PMul(a, b), m)
  {
    var q := PModSpec(b, m);
    var r := PMod(b, m);
    PMulAddRight(a, PMul(q, m), r);
    PMulAssoc(a, q, m);
    PModAdd(PMul(PMul(a, q), m), PMul(a, r), m);
    PModMultiple(PMul(a, q), m);
    XorZero(PMod(PMul(a, r), m));
  }

  // ---------- divisibility ----------

  ghost predicate Divides(d: nat, a: nat) {
    exists q: nat :: PMul(q, d) == a
  }

  /** No factorisation but the trivial one; 1 is the only unit. */
  ghost predicate Irreducible(m: nat) {
    m > 1 && forall f: nat, g: nat :: PMul(f, g) == m ==> f == 1 || g == 1
  }

  lemma DividesSelf(d: nat)
    ensures Divides(d, d) && Divides(d, 0)
  {
    PMulOne(d); PMulZero(d);
    assert PMul(1, d) == d && PMul(0, d) == 0;
  }

  lemma DividesAddMul(d: nat, a: nat, b: nat, k: nat)
    requires Divides(d, a) && Divides(d, b)
    ensures Divides(d, Xor(a, PMul(k, b)))
  {
    var q: nat :| PMul(q, d) == a;
    var r: nat :| PMul(r, d) == b;
    PMulAssoc(k, r, d);
    PMulAddLeft(q, PMul(k, r), d);
    assert PMul(Xor(q, PMul(k, r)), d) == Xor(a, PMul(k, b));
  }
}
