/**
  The residue ring GF(2)[x] / (x^16 + p), whose elements are 16-bit words.
  It is a field when x^16 + p is irreducible.
*/
module BinaryField {
  import opened Gf2Poly

  type Word = w: nat | w < 65536

  /** Conversion of an int to uint16_t. */
  function ToU16(x: nat): Word {
    if x < 65536 then x else x % 65536
  }

  function Modulus(p: Word): nat {
    65536 + p
  }

  lemma Powers()
    ensures Pow2(4) == 16 && Pow2(12) == 4096 && Pow2(15) == 32768 && Pow2(16) == 65536 && Pow2(17) == 131072
  {
    assert Pow2(8) == 256;
    assert Pow2(12) == 4096;
    assert Pow2(15) == 32768;
  }

  lemma WordHighLow(high: nat, low: Word)
    ensures Xor(65536 * high, low) == 65536 * high + low
  {
    Powers(); ShlWord(high);
    XorHighLow(16, high, low);
  }

  lemma ModulusLen(p: Word)
    ensures Len(Modulus(p)) == 17
  {
    Powers();
    LenUnique(Modulus(p), 16);
  }

  lemma WordLen(a: nat)
    ensures a < 65536 <==> Len(a) < 17
  {
    Powers();
    LenBelow(a, 16);
  }

  function Add(a: Word, b: Word): Word {
    Powers(); XorBound(a, b, 16);
    Xor(a, b)
  }

  ghost function Reduce(p: Word, a: nat): Word {
    ModulusLen(p); PModBound(a, Modulus(p)); WordLen(PMod(a, Modulus(p)));
    PMod(a, Modulus(p))
  }

  /** The product of a and b modulo x^16 + p. */
  ghost function Mul(p: Word, a: Word, b: Word): Word {
    Reduce(p, PMul(a, b))
  }

  lemma ReduceWord(p: Word, a: Word)
    ensures Reduce(p, a) == a
  {
    ModulusLen(p); WordLen(a); PModSmall(a, Modulus(p));
  }

  lemma ReduceAdd(p: Word, a: nat, b: nat)
    ensures Reduce(p, Xor(a, b)) == Add(Reduce(p, a), Reduce(p, b))
  {
    PModAdd(a, b, Modulus(p));
  }

  lemma ReduceMul(p: Word, a: nat, b: nat)
    ensures Reduce(p, PMul(a, Reduce(p, b))) == Reduce(p, PMul(a, b))
    ensures Reduce(p, PMul(Reduce(p, a), b)) == Reduce(p, PMul(a, b))
    ensures Mul(p, Reduce(p, a), Reduce(p, b)) == Reduce(p, PMul(a, b))
  {
    PModMul(a, b, Modulus(p));
    PModMul(b, a, Modulus(p)); PMulComm(a, b); PMulComm(b, Reduce(p, a));
    PModMul(Reduce(p, a), b, Modulus(p));
  }

  lemma ReduceMultiple(p: Word, q: nat)
    ensures Reduce(p, PMul(q, Modulus(p))) == 0
  {
    PModMultiple(q, Modulus(p));
  }

  // ---------- ring laws ----------

  lemma MulComm(p: Word, a: Word, b: Word)
    ensures Mul(p, a, b) == Mul(p, b, a)
  {
    PMulComm(a, b);
  }

  lemma MulAssoc(p: Word, a: Word, b: Word, c: Word)
    ensures Mul(p, Mul(p, a, b), c) == Mul(p, a, Mul(p, b, c))
  {
    ReduceMul(p, PMul(a, b), c);
    ReduceMul(p, a, PMul(b, c));
    PMulAssoc(a, b, c);
  }

  lemma MulAdd(p: Word, a: Word, b: Word, c: Word)
    ensures Mul(p, a, Add(b, c)) == Add(Mul(p, a, b), Mul(p, a, c))
    ensures Mul(p, Add(b, c), a) == Add(Mul(p, b, a), Mul(p, c, a))
  {
    PMulAddRight(a, b, c); ReduceAdd(p, PMul(a, b), PMul(a, c));
    MulComm(p, a, Add(b, c)); MulComm(p, a, b); MulComm(p, a, c);
  }

  lemma MulUnits(p: Word, a: Word)
    ensures Mul(p, 1, a) == a && Mul(p, a, 1) == a
    ensures Mul(p, 0, a) == 0 && Mul(p, a, 0) == 0
  {
    PMulOne(a); PMulZero(a); ReduceWord(p, a); ReduceWord(p, 0);
  }

  ghost function Pow(p: Word, a: Word, n: nat): Word
    decreases n, a
  {
    if n == 0 then 1 else Mul(p, a, Pow(p, a, n - 1))
  }

  lemma {:induction false} PowAdd(p: Word, a: Word, i: nat, j: nat)
    ensures Pow(p, a, i + j) == Mul(p, Pow(p, a, i), Pow(p, a, j))
  {
    if i == 0 { MulUnits(p, Pow(p, a, j)); } else {
      PowAdd(p, a, i - 1, j);
      MulAssoc(p, a, Pow(p, a, i - 1), Pow(p, a, j));
    }
  }

  lemma {:induction false} PowSquare(p: Word, a: Word, n: nat)
    ensures Pow(p, Mul(p, a, a), n) == Pow(p, a, 2 * n)
  {
    if n > 0 {
      var m := 2 * n - 2;
      PowSquare(p, a, n - 1);
      MulAssoc(p, a, a, Pow(p, a, m));
      assert Pow(p, a, m + 2) == Mul(p, a, Pow(p, a, m + 1));
    }
  }

  // ---------- inverses ----------

  ghost predicate IsInverse(p: Word, a: Word, b: Word) {
    Mul(p, a, b) == 1
  }

  lemma InverseUnique(p: Word, a: Word, b: Word, c: Word)
    requires IsInverse(p, a, b) && IsInverse(p, a, c)
    ensures b == c
  {
    MulAssoc(p, b, a, c); MulComm(p, a, b); MulUnits(p, b); MulUnits(p, c);
  }

  /** With an inverse of a at hand, a can be cancelled. */
  lemma CancelByInverse(p: Word, a: Word, inv: Word, b: Word)
    requires IsInverse(p, a, inv)
    ensures Mul(p, inv, Mul(p, a, b)) == b
    ensures Mul(p, a, Mul(p, inv, b)) == b
  {
    MulAssoc(p, inv, a, b); MulAssoc(p, a, inv, b); MulComm(p, a, inv); MulUnits(p, b);
  }
}
