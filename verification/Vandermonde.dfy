/**
  Vandermonde matrices over a field of words: a polynomial with as many distinct roots as
  coefficients is zero, so every leading block of a matrix of powers of distinct words is regular.
*/
module Vandermonde {
  import opened Gf2Poly
  import opened BinaryField
  import opened Fermat
  import opened LinearAlgebra

  ghost predicate Distinct(vec: seq<Word>) {
    forall i, j :: 0 <= i < j < |vec| ==> vec[i] != vec[j]
  }

  /** 1, z, z^2, .. */
  ghost function PowerRow(p: Word, z: Word, n: nat): (s: Vector)
    ensures |s| == n
  {
    seq(n, k requires 0 <= k < n => Pow(p, z, k))
  }

  ghost function VandermondeMatrix(p: Word, vec: seq<Word>): (m: Matrix)
    ensures Square(m, |vec|)
  {
    seq(|vec|, r requires 0 <= r < |vec| => PowerRow(p, vec[r], |vec|))
  }

  /** The polynomial with coefficients v at z. */
  ghost function Eval(p: Word, v: Vector, z: Word): Word {
    if v == [] then 0 else Add(v[0], Mul(p, z, Eval(p, v[1..], z)))
  }

  /** Synthetic division by z - a. */
  ghost function Quotient(p: Word, v: Vector, a: Word): (q: Vector)
    requires v != []
    ensures |q| == |v| - 1
  {
    if |v| == 1 then [] else [Eval(p, v[1..], a)] + Quotient(p, v[1..], a)
  }

  lemma {:induction false} DotPowers(p: Word, v: Vector, z: Word)
    ensures Dot(p, PowerRow(p, z, |v|), v) == Eval(p, v, z)
  {
    if v != [] {
      var n := |v|;
      assert PowerRow(p, z, n)[1..] == Scale(p, z, PowerRow(p, z, n - 1));
      DotScale(p, z, PowerRow(p, z, n - 1), v[1..]);
      DotPowers(p, v[1..], z);
      MulUnits(p, v[0]);
    }
  }

  /** v(z) == (z - a) * q(z) + v(a) */
  lemma {:induction false} QuotientSpec(p: Word, v: Vector, a: Word, z: Word)
    requires v != []
    ensures Eval(p, v, z) == Add(Mul(p, Add(z, a), Eval(p, Quotient(p, v, a), z)), Eval(p, v, a))
  {
    if |v| == 1 {
      assert Eval(p, v[1..], z) == 0 == Eval(p, v[1..], a);
      MulUnits(p, z); MulUnits(p, a); MulUnits(p, Add(z, a)); XorZero(v[0]);
    } else {
      var rest := v[1..];
      QuotientSpec(p, rest, a, z);
      var q, ra := Eval(p, Quotient(p, rest, a), z), Eval(p, rest, a);
      assert Quotient(p, v, a)[1..] == Quotient(p, rest, a);
      SyntheticStep(p, v[0], z, a, q, ra);
    }
  }

  /** v0 + z*((z+a)*q + ra) == (z+a)*(ra + z*q) + (v0 + a*ra) */
  lemma SyntheticStep(p: Word, v0: Word, z: Word, a: Word, q: Word, ra: Word)
    ensures Add(v0, Mul(p, z, Add(Mul(p, Add(z, a), q), ra)))
         == Add(Mul(p, Add(z, a), Add(ra, Mul(p, z, q))), Add(v0, Mul(p, a, ra)))
  {
    var d := Add(z, a);
    var zdq, zr, ar := Mul(p, z, Mul(p, d, q)), Mul(p, z, ra), Mul(p, a, ra);
    MulAdd(p, z, Mul(p, d, q), ra);
    MulAdd(p, d, ra, Mul(p, z, q));
    MulAdd(p, ra, z, a);
    MulComm(p, d, ra);
    MulAssoc(p, z, d, q); MulAssoc(p, d, z, q); MulComm(p, z, d);
    assert Mul(p, d, ra) == Add(zr, ar);
    calc {
      Xor(Xor(Xor(zr, ar), zdq), Xor(v0, ar));
      { XorComm(Xor(zr, ar), zdq); XorComm(v0, ar); XorAssoc(zdq, Xor(zr, ar), Xor(ar, v0)); }
      Xor(zdq, Xor(Xor(zr, ar), Xor(ar, v0)));
      { XorAssoc(Xor(zr, ar), ar, v0); XorCancel(zr, ar); }
      Xor(zdq, Xor(zr, v0));
      { XorAssoc(zdq, zr, v0); XorComm(Xor(zdq, zr), v0); }
      Xor(v0, Xor(zdq, zr));
    }
  }

  lemma {:induction false} QuotientZero(p: Word, v: Vector, a: Word)
    requires v != [] && IsZero(Quotient(p, v, a)) && Eval(p, v, a) == 0
    ensures IsZero(v)
  {
    MulUnits(p, a); XorZero(v[0]);
    if |v| > 1 {
      var q := Quotient(p, v, a);
      assert q[0] == 0 && q[1..] == Quotient(p, v[1..], a);
      QuotientZero(p, v[1..], a);
    }
  }

  /** As many distinct roots as coefficients leave only the zero polynomial. */
  lemma {:induction false} RootsForceZero(p: Word, v: Vector, roots: seq<Word>)
    requires Irreducible(Modulus(p))
    requires |roots| == |v| && Distinct(roots)
    requires forall k :: 0 <= k < |roots| ==> Eval(p, v, roots[k]) == 0
    ensures IsZero(v)
    decreases |v|
  {
    if v != [] {
      var last := |v| - 1;
      var a := roots[last];
      var q := Quotient(p, v, a);
      forall k | 0 <= k < last ensures Eval(p, q, roots[..last][k]) == 0 {
        var z := roots[k];
        QuotientSpec(p, v, a, z);
        XorZero(Mul(p, Add(z, a), Eval(p, q, z)));
        NoZeroDivisors(p, Add(z, a), Eval(p, q, z));
        XorZeroIff(z, a);
      }
      RootsForceZero(p, q, roots[..last]);
      QuotientZero(p, v, a);
    }
  }

  /** No leading principal minor of a Vandermonde matrix with distinct points is zero. */
  lemma VandermondeRegular(p: Word, vec: seq<Word>, k: nat)
    requires Irreducible(Modulus(p)) && Distinct(vec) && k <= |vec|
    ensures LeadingRegular(p, VandermondeMatrix(p, vec), k, |vec|)
  {
    var m := VandermondeMatrix(p, vec);
    forall v: Vector | |v| == k && (forall r :: 0 <= r < k ==> Dot(p, m[r][..k], v) == 0)
      ensures IsZero(v)
    {
      forall r | 0 <= r < k ensures Eval(p, v, vec[..k][r]) == 0 {
        assert m[r][..k] == PowerRow(p, vec[r], k);
        DotPowers(p, v, vec[r]);
      }
      RootsForceZero(p, v, vec[..k]);
    }
  }
}
