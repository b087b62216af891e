/**
  Polynomials written in base x^4: a number is the list of its nibbles, low nibble first.
  The product is a Horner scheme over the coefficients of x^(4k), each a sum of nibble products.
*/
module NibbleProduct {
  import opened Gf2Poly

  /** The number with the given nibbles. */
  function Value(ns: seq<nat>): nat {
    if ns == [] then 0 else Xor(ns[0], 16 * Value(ns[1..]))
  }

  function Nibbles(v: nat, count: nat): (ns: seq<nat>)
    ensures |ns| == count
    ensures forall i :: 0 <= i < count ==> ns[i] < 16
  {
    if count == 0 then [] else [v % 16] + Nibbles(v / 16, count - 1)
  }

  /** ns * ms at x^(4k), restricted to one nibble of ns. */
  function Term(n: nat, ms: seq<nat>, k: int): nat {
    if 0 <= k < |ms| then PMul(n, ms[k]) else 0
  }

  /** The sum of all nibble products that contribute to x^(4k). */
  function Coefficient(ns: seq<nat>, ms: seq<nat>, k: int): nat {
    if ns == [] then 0 else Xor(Term(ns[0], ms, k), Coefficient(ns[1..], ms, k - 1))
  }

  /** Coefficients k, k+1, .., n-1 gathered by Horner's rule. */
  function Horner(ns: seq<nat>, ms: seq<nat>, k: int, n: int): nat
    decreases n - k
  {
    if k >= n then 0 else Xor(Coefficient(ns, ms, k), 16 * Horner(ns, ms, k + 1, n))
  }

  function TermHorner(a: nat, ms: seq<nat>, k: int, n: int): nat
    decreases n - k
  {
    if k >= n then 0 else Xor(Term(a, ms, k), 16 * TermHorner(a, ms, k + 1, n))
  }

  lemma XorFour(a: nat, b: nat)
    ensures Xor(4 * a, 4 * b) == 4 * Xor(a, b)
  {
    var a2, b2 := 2 * a, 2 * b;
    XorDouble(a2, b2); XorDouble(a, b);
  }

  lemma XorSixteen(a: nat, b: nat)
    ensures Xor(16 * a, 16 * b) == 16 * Xor(a, b)
  {
    var a4, b4 := 4 * a, 4 * b;
    XorFour(a4, b4); XorFour(a, b);
  }

  lemma PMulFour(a: nat, b: nat)
    ensures PMul(4 * a, b) == 4 * PMul(a, b)
  {
    var a2 := 2 * a;
    PMulDouble(a2, b); PMulDouble(a, b);
  }

  lemma PMulSixteen(a: nat, b: nat)
    ensures PMul(16 * a, b) == 16 * PMul(a, b)
  {
    var a4 := 4 * a;
    PMulFour(a4, b); PMulFour(a, b);
  }

  lemma PMulSixteenRight(a: nat, b: nat)
    ensures PMul(a, 16 * b) == 16 * PMul(a, b)
  {
    PMulComm(a, 16 * b); PMulSixteen(b, a); PMulComm(a, b);
  }

  lemma {:induction false} ValueOfNibbles(v: nat, count: nat)
    requires v < Pow2(4 * count)
    ensures Value(Nibbles(v, count)) == v
    decreases count
  {
    if count > 0 {
      var ns := Nibbles(v, count);
      assert ns[1..] == Nibbles(v / 16, count - 1);
      assert Pow2(4 * count) == 16 * Pow2(4 * count - 4) by {
        assert Pow2(4 * count) == 4 * Pow2(4 * count - 2);
      }
      ValueOfNibbles(v / 16, count - 1);
      assert Pow2(4) == 16;
      XorHighLow(4, v / 16, v % 16); ShlWord(v / 16);
      XorComm(v % 16, 16 * (v / 16));
    }
  }

  lemma {:induction false} NibbleAt(v: nat, count: nat, y: nat)
    requires y < count
    ensures Nibbles(v, count)[y] == Shr(v, 4 * y) % 16
    decreases count
  {
    if y > 0 {
      NibbleAt(v / 16, count - 1, y - 1);
      ShrNibble(v, y);
    }
  }

  lemma ShrNibble(v: nat, y: nat)
    requires y > 0
    ensures Shr(v, 4 * y) == Shr(v / 16, 4 * y - 4)
  {
    var a, b, c, d := v / 2, v / 4, v / 8, v / 16;
    assert a / 2 == b && b / 2 == c && c / 2 == d;
    assert Shr(v, 4 * y) == Shr(b, 4 * y - 2);
    assert Shr(b, 4 * y - 2) == Shr(d, 4 * y - 4);
  }

  lemma {:induction false} CoefficientOutside(ns: seq<nat>, ms: seq<nat>, k: int)
    requires k < 0 || k >= |ns| + |ms| - 1
    ensures Coefficient(ns, ms, k) == 0
  {
    if ns != [] {
      CoefficientOutside(ns[1..], ms, k - 1); XorZero(0);
    }
  }

  lemma {:induction false} TermHornerValue(a: nat, ms: seq<nat>, k: nat, n: nat)
    requires k <= |ms| <= n
    ensures TermHorner(a, ms, k, n) == PMul(a, Value(ms[k..]))
    decreases n - k
  {
    if k == |ms| {
      TermHornerZero(a, ms, k, n);
    } else {
      TermHornerValue(a, ms, k + 1, n);
      assert ms[k..][1..] == ms[k + 1..];
      PMulAddRight(a, ms[k], 16 * Value(ms[k + 1..]));
      PMulSixteenRight(a, Value(ms[k + 1..]));
    }
  }

  lemma {:induction false} TermHornerZero(a: nat, ms: seq<nat>, k: nat, n: nat)
    requires |ms| <= k <= n
    ensures TermHorner(a, ms, k, n) == 0
    decreases n - k
  {
    if k < n { TermHornerZero(a, ms, k + 1, n); XorZero(0); }
  }

  lemma {:induction false} HornerCons(ns: seq<nat>, ms: seq<nat>, k: int, n: int)
    requires ns != [] && k <= n
    ensures Horner(ns, ms, k, n) == Xor(TermHorner(ns[0], ms, k, n), Horner(ns[1..], ms, k - 1, n - 1))
    decreases n - k
  {
    if k == n { XorZero(0); } else {
      HornerCons(ns, ms, k + 1, n);
      var t, h := TermHorner(ns[0], ms, k + 1, n), Horner(ns[1..], ms, k, n - 1);
      XorSixteen(t, h);
      XorSwap(Term(ns[0], ms, k), Coefficient(ns[1..], ms, k - 1), 16 * t, 16 * h);
    }
  }

  lemma {:induction false} HornerEmpty(ms: seq<nat>, k: int, n: int)
    ensures Horner([], ms, k, n) == 0
    decreases n - k
  {
    if k < n { HornerEmpty(ms, k + 1, n); XorZero(0); }
  }

  lemma ValueEmpty(ns: seq<nat>)
    requires ns == []
    ensures Value(ns) == 0
  {}

  lemma ValueStep(ns: seq<nat>)
    requires ns != []
    ensures Value(ns) == Xor(ns[0], 16 * Value(ns[1..]))
  {}

  /** There is no coefficient before the first. */
  lemma HornerBefore(ns: seq<nat>, ms: seq<nat>, n: nat)
    ensures Horner(ns, ms, -1, n) == 16 * Horner(ns, ms, 0, n)
  {
    CoefficientOutside(ns, ms, -1);
    XorZero(16 * Horner(ns, ms, 0, n));
  }

  /** Horner's rule over all coefficients gives the polynomial product. */
  lemma {:induction false} HornerIsProduct(ns: seq<nat>, ms: seq<nat>)
    ensures Horner(ns, ms, 0, |ns| + |ms|) == PMul(Value(ns), Value(ms))
    decreases |ns|
  {
    hide Horner, TermHorner, PMul, Value, Xor, Coefficient;
    var n := |ns| + |ms|;
    if ns == [] {
      HornerEmpty(ms, 0, n);
      ValueEmpty(ns);
      PMulZero(Value(ms));
    } else {
      var rest := ns[1..];
      ValueStep(ns);
      HornerBefore(rest, ms, n - 1);
      HornerCons(ns, ms, 0, n);
      TermHornerValue(ns[0], ms, 0, n);
      assert ms[0..] == ms;
      HornerIsProduct(rest, ms);
      PMulAddLeft(ns[0], 16 * Value(rest), Value(ms));
      PMulSixteen(Value(rest), Value(ms));
    }
  }

  lemma NibbleProductBound(a: nat, b: nat)
    requires a < 16 && b < 16
    ensures PMul(a, b) < 256
  {
    if a == 0 || b == 0 { PMulZero(a); PMulZero(b); } else {
      assert Pow2(4) == 16 && Pow2(8) == 256;
      LenMul(a, b);
      LenBelow(a, 4); LenBelow(b, 4); LenBelow(PMul(a, b), 8);
    }
  }

  lemma {:induction false} CoefficientBound(ns: seq<nat>, ms: seq<nat>, k: int)
    requires forall i :: 0 <= i < |ns| ==> ns[i] < 16
    requires forall i :: 0 <= i < |ms| ==> ms[i] < 16
    ensures Coefficient(ns, ms, k) < 256
  {
    if ns != [] {
      CoefficientBound(ns[1..], ms, k - 1);
      if 0 <= k < |ms| { NibbleProductBound(ns[0], ms[k]); }
      assert Pow2(8) == 256;
      XorBound(Term(ns[0], ms, k), Coefficient(ns[1..], ms, k - 1), 8);
    }
  }

  lemma NoCoefficient(ms: seq<nat>, k: int)
    ensures Coefficient([], ms, k) == 0
  {}

  lemma NibblesStep(v: nat, count: nat)
    requires count > 0
    ensures Nibbles(v, count)[0] == v % 16 && Nibbles(v, count)[1..] == Nibbles(v / 16, count - 1)
  {}

  /** Taking one more nibble product into the accumulator. */
  lemma CoefficientStep(acc: nat, ns: seq<nat>, ms: seq<nat>, x: nat, k: int)
    requires x < |ns|
    ensures Xor(Xor(acc, Term(ns[x], ms, k)), Coefficient(ns[x + 1..], ms, k - 1))
         == Xor(acc, Coefficient(ns[x..], ms, k))
  {
    assert ns[x..][1..] == ns[x + 1..];
    XorAssoc(acc, Term(ns[x], ms, k), Coefficient(ns[x + 1..], ms, k - 1));
  }
}
