/**
  The group of non-zero words: over an irreducible modulus a^(2^16 - 1) == 1,
  so that the power 2^16 - 2 is the inverse.
*/
module Fermat {
  import opened Gf2Poly
  import opened BinaryField
  import opened Euclid

  /** The words 1, 2, .., n-1. */
  ghost function NonZero(n: nat): (s: set<Word>)
    requires 1 <= n <= 65536
    ensures forall w: Word :: w in s <==> 0 < w < n
    ensures |s| == n - 1
  {
    if n == 1 then {} else NonZero(n - 1) + {n - 1}
  }

  /** The product of a set of words, in an order nobody chooses. */
  ghost function Product(p: Word, s: set<Word>): Word {
    if s == {} then 1 else
      var x :| x in s;
      Mul(p, x, Product(p, s - {x}))
  }

  lemma {:induction false} ProductRemove(p: Word, s: set<Word>, y: Word)
    requires y in s
    ensures Product(p, s) == Mul(p, y, Product(p, s - {y}))
    decreases s
  {
    var x: Word :| x in s && Product(p, s) == Mul(p, x, Product(p, s - {x}));
    if x != y {
      ProductRemove(p, s - {x}, y);
      ProductRemove(p, s - {y}, x);
      assert s - {x} - {y} == s - {y} - {x};
      var rest := Product(p, s - {x} - {y});
      MulAssoc(p, x, y, rest); MulAssoc(p, y, x, rest); MulComm(p, x, y);
    }
  }

  ghost function ScaleSet(p: Word, a: Word, s: set<Word>): set<Word> {
    set x | x in s :: Mul(p, a, x)
  }

  lemma ScaleRemove(p: Word, a: Word, inv: Word, s: set<Word>, x: Word)
    requires IsInverse(p, a, inv) && x in s
    ensures ScaleSet(p, a, s - {x}) == ScaleSet(p, a, s) - {Mul(p, a, x)}
  {
    forall y | y in s && y != x ensures Mul(p, a, y) != Mul(p, a, x) {
      CancelByInverse(p, a, inv, x); CancelByInverse(p, a, inv, y);
    }
  }

  lemma ProductScaleStep(p: Word, a: Word, inv: Word, s: set<Word>, x: Word, n: nat)
    requires IsInverse(p, a, inv) && x in s
    requires Product(p, ScaleSet(p, a, s - {x})) == Mul(p, Pow(p, a, n), Product(p, s - {x}))
    ensures Product(p, ScaleSet(p, a, s)) == Mul(p, Pow(p, a, n + 1), Product(p, s))
  {
    ScaleRemove(p, a, inv, s, x);
    ProductRemove(p, s, x);
    ProductRemove(p, ScaleSet(p, a, s), Mul(p, a, x));
    Interchange(p, a, x, Pow(p, a, n), Product(p, s - {x}));
  }

  lemma {:induction false} ProductScale(p: Word, a: Word, inv: Word, s: set<Word>)
    requires IsInverse(p, a, inv)
    ensures Product(p, ScaleSet(p, a, s)) == Mul(p, Pow(p, a, |s|), Product(p, s))
    decreases s
  {
    if s == {} {
      assert ScaleSet(p, a, s) == {};
      MulUnits(p, 1);
    } else {
      var x :| x in s;
      var n := |s - {x}|;
      assert |s| == n + 1;
      ProductScale(p, a, inv, s - {x});
      ProductScaleStep(p, a, inv, s, x, n);
    }
  }

  /** (ab)(cd) == (ac)(bd) */
  lemma Interchange(p: Word, a: Word, b: Word, c: Word, d: Word)
    ensures Mul(p, Mul(p, a, b), Mul(p, c, d)) == Mul(p, Mul(p, a, c), Mul(p, b, d))
  {
    MulAssoc(p, a, b, Mul(p, c, d)); MulAssoc(p, b, c, d); MulComm(p, b, c);
    MulAssoc(p, c, b, d); MulAssoc(p, a, c, Mul(p, b, d));
  }

  lemma NoZeroDivisors(p: Word, a: Word, b: Word)
    requires Irreducible(Modulus(p)) && Mul(p, a, b) == 0
    ensures a == 0 || b == 0
  {
    if a != 0 {
      InverseExists(p, a);
      var inv: Word :| IsInverse(p, a, inv);
      CancelByInverse(p, a, inv, b);
      MulUnits(p, inv);
    }
  }

  lemma {:induction false} ProductNonZero(p: Word, s: set<Word>)
    requires Irreducible(Modulus(p)) && 0 !in s
    ensures Product(p, s) != 0
    decreases s
  {
    if s != {} {
      var x: Word :| x in s && Product(p, s) == Mul(p, x, Product(p, s - {x}));
      ProductNonZero(p, s - {x});
      if Product(p, s) == 0 { NoZeroDivisors(p, x, Product(p, s - {x})); }
    }
  }

  /** Multiplication by a permutes the non-zero words. */
  lemma ScaleIsPermutation(p: Word, a: Word, inv: Word, s: set<Word>)
    requires Irreducible(Modulus(p)) && a != 0 && IsInverse(p, a, inv)
    requires forall w: Word :: w in s <==> w != 0
    ensures ScaleSet(p, a, s) == s
  {
    forall x | x in s ensures Mul(p, a, x) in s {
      if Mul(p, a, x) == 0 { NoZeroDivisors(p, a, x); }
    }
    forall y | y in s ensures y in ScaleSet(p, a, s) {
      var x := Mul(p, inv, y);
      CancelByInverse(p, a, inv, y);
      MulUnits(p, a);
      assert x in s;
    }
  }

  lemma PowerOfCount(p: Word, a: Word, s: set<Word>)
    requires Irreducible(Modulus(p)) && a != 0
    requires forall w: Word :: w in s <==> w != 0
    ensures Pow(p, a, |s|) == 1
  {
    InverseExists(p, a);
    var inv: Word :| IsInverse(p, a, inv);
    ScaleIsPermutation(p, a, inv, s);
    ProductScale(p, a, inv, s);
    ProductNonZero(p, s);
    CancelProduct(p, Pow(p, a, |s|), Product(p, s));
  }

  /** a to the number of non-zero words is 1. */
  lemma PowerOfGroupOrder(p: Word, a: Word, n: nat)
    requires Irreducible(Modulus(p)) && a != 0 && n == 65535
    ensures Pow(p, a, n) == 1
  {
    PowerOfCount(p, a, NonZero(n + 1));
  }

  lemma CancelProduct(p: Word, x: Word, all: Word)
    requires Irreducible(Modulus(p)) && all != 0 && Mul(p, x, all) == all
    ensures x == 1
  {
    InverseExists(p, all);
    var inv: Word :| IsInverse(p, all, inv);
    MulComm(p, x, all); MulUnits(p, all);
    CancelByInverse(p, all, inv, x);
    CancelByInverse(p, all, inv, 1);
  }

  lemma PowerIsInverse(p: Word, a: Word, n: nat)
    requires Irreducible(Modulus(p)) && a != 0 && n == 65534
    ensures IsInverse(p, a, Pow(p, a, n))
  {
    PowerOfGroupOrder(p, a, n + 1);
  }
}
