/** Powers of field elements with fixed exponents, by squaring and multiplying. */
module FieldPow {
  import opened Gf2Poly
  import opened ByteNumber
  import opened FieldLimbs
  import opened FieldCarry
  import opened FieldOps

  function Power(z: int, e: nat): int {
    if e == 0 then 1 else z * Power(z, e - 1)
  }

  lemma {:induction false} PowerAdd(z: int, d: nat, e: nat)
    ensures Power(z, d + e) == Power(z, d) * Power(z, e)
    decreases d
  {
    if d > 0 {
      PowerAdd(z, d - 1, e);
      ByteNumber.MulAssoc(z, Power(z, d - 1), Power(z, e));
    }
  }

  /** The limbs are those of z to the power e, and can be multiplied. */
  ghost predicate IsPower(x: seq<int>, z: int, e: nat) {
    Factor(x) && Congruent(Val(x), Power(z, e), PRIME)
  }

  lemma PowerOne(x: seq<int>)
    requires Factor(x)
    ensures IsPower(x, Val(x), 1)
  {
    assert Power(Val(x), 0) == 1;
    CongruentSelf(Val(x), PRIME);
  }

  lemma PowerMul(x: seq<int>, y: seq<int>, h: seq<int>, z: int, d: nat, e: nat)
    requires IsPower(x, z, d) && IsPower(y, z, e) && Product(h) && Congruent(Val(h), Val(x) * Val(y), PRIME)
    ensures IsPower(h, z, d + e)
  {
    hide Val, Power;
    PowerAdd(z, d, e);
    CongruentMul(Val(x), Power(z, d), Val(y), Power(z, e), PRIME);
    CongruentThen(Val(h), Val(x) * Val(y), Power(z, d) * Power(z, e), PRIME);
    ProductIsFactor(h);
  }

  /** h = f * g, for powers of z */
  method Times(h: array<Int32>, f: array<Int32>, g: array<Int32>, ghost z: int, ghost d: nat, ghost e: nat)
    requires h.Length == f.Length == g.Length == 10 && IsPower(f[..], z, d) && IsPower(g[..], z, e)
    modifies h
    ensures IsPower(h[..], z, d + e)
  {
    hide Val, Power, Factor, Carried;
    ghost var x: seq<int>, y: seq<int> := f[..], g[..];
    FeMul(h, f, g);
    PowerMul(x, y, h[..], z, d, e);
  }

  /** fe_sq(h, f), and then fe_sq(h, h) n - 1 times */
  method SquareTimes(h: array<Int32>, f: array<Int32>, n: nat, ghost z: int, ghost e: nat)
    requires h.Length == f.Length == 10 && n > 0 && IsPower(f[..], z, e)
    modifies h
    ensures IsPower(h[..], z, Pow2(n) * e)
  {
    hide Val, Power, Factor, Carried;
    ghost var x: seq<int> := f[..];
    FeSq(h, f);
    PowerMul(x, x, h[..], z, e, e);
    ghost var d: nat := e + e;
    var i := 1;
    PowStep(1, e);
    while i < n
      invariant 1 <= i <= n && IsPower(h[..], z, d) && d == Pow2(i) * e
    {
      ghost var y: seq<int> := h[..];
      FeSq(h, h);
      PowerMul(y, y, h[..], z, d, d);
      d := d + d;
      PowStep(i + 1, e);
      i := i + 1;
    }
  }

  lemma PowStep(i: nat, e: nat)
    requires i > 0
    ensures Pow2(i) * e == Pow2(i - 1) * e + Pow2(i - 1) * e && Pow2(0) == 1
  {
    ByteNumber.MulAssoc(2, Pow2(i - 1), e);
  }

  lemma FixedPowers()
    ensures Pow2(1) == 2 && Pow2(2) == 4 && Pow2(5) == 32 && Pow2(10) == 0x400 && Pow2(20) == 0x10_0000
    ensures Pow2(50) == 0x4_0000_0000_0000 && Pow2(100) == 0x10_0000_0000_0000_0000_0000_0000
  {
    Pow5();
    hide Pow2;
    PowAdd(5, 5); PowAdd(10, 10); PowAdd(20, 20); PowAdd(40, 10); PowAdd(50, 50);
  }

  lemma Pow5()
    ensures Pow2(1) == 2 && Pow2(2) == 4 && Pow2(5) == 32
  {}

  /** fe_invert: z to the power p - 2. */
  method FeInvert(out: array<Int32>, z: array<Int32>)
    requires out.Length == z.Length == 10 && Factor(z[..])
    modifies out
    ensures Product(out[..]) && Congruent(Val(out[..]), Power(old(Val(z[..])), PRIME - 2), PRIME)
  {
    hide Val, Power, Pow2, Factor, IsPower, Carried;
    FixedPowers();
    ghost var v := Val(z[..]);
    PowerOne(z[..]);
    var t0, t1, t2, t3 := new Int32[10](_ => 0), new Int32[10](_ => 0), new Int32[10](_ => 0), new Int32[10](_ => 0);
    SquareTimes(t0, z, 1, v, 1);
    SquareTimes(t1, t0, 2, v, 2);
    Times(t1, z, t1, v, 1, 8);
    Times(t0, t0, t1, v, 2, 9);
    SquareTimes(t2, t0, 1, v, 11);
    Times(t1, t1, t2, v, 9, 22);
    SquareTimes(t2, t1, 5, v, 31);
    Times(t1, t2, t1, v, 992, 31);
    InvertMiddle(out, t0, t1, t2, t3, v);
  }

  /** From the power 2^10 - 1 on. */
  method InvertMiddle(out: array<Int32>, t0: array<Int32>, t1: array<Int32>, t2: array<Int32>, t3: array<Int32>,
                      ghost v: int)
    requires out.Length == t0.Length == t1.Length == t2.Length == t3.Length == 10
    requires t0 != t1 && t0 != t2 && t0 != t3 && t1 != t2 && t1 != t3 && t2 != t3
    requires IsPower(t0[..], v, 11) && IsPower(t1[..], v, 1023)
    modifies out, t1, t2, t3
    ensures Product(out[..]) && Congruent(Val(out[..]), Power(v, PRIME - 2), PRIME)
  {
    hide Val, Power, Pow2, Factor, IsPower, Carried;
    FixedPowers();
    SquareTimes(t2, t1, 10, v, 1023);
    Times(t2, t2, t1, v, 1047552, 1023);
    SquareTimes(t3, t2, 20, v, 0xf_ffff);
    Times(t2, t3, t2, v, 0xff_fff0_0000, 0xf_ffff);
    SquareTimes(t2, t2, 10, v, 0xff_ffff_ffff);
    Times(t1, t2, t1, v, 0x3_ffff_ffff_fc00, 1023);
    InvertHigh(out, t0, t1, t2, t3, v);
  }

  /** The second half, from the power 2^50 - 1 on. */
  method InvertHigh(out: array<Int32>, t0: array<Int32>, t1: array<Int32>, t2: array<Int32>, t3: array<Int32>,
                    ghost v: int)
    requires out.Length == t0.Length == t1.Length == t2.Length == t3.Length == 10
    requires t0 != t1 && t0 != t2 && t0 != t3 && t1 != t2 && t1 != t3 && t2 != t3
    requires IsPower(t0[..], v, 11) && IsPower(t1[..], v, 0x3_ffff_ffff_ffff)
    modifies out, t1, t2, t3
    ensures Product(out[..]) && Congruent(Val(out[..]), Power(v, PRIME - 2), PRIME)
  {
    hide Val, Power, Pow2, Factor, IsPower, Carried;
    FixedPowers();
    ghost var a := 0x3_ffff_ffff_ffff;
    SquareTimes(t2, t1, 50, v, a);
    ghost var b := 0x4_0000_0000_0000 * a;
    Times(t2, t2, t1, v, b, a);
    SquareTimes(t3, t2, 100, v, b + a);
    ghost var c := 0x10_0000_0000_0000_0000_0000_0000 * (b + a);
    Times(t2, t3, t2, v, c, b + a);
    SquareTimes(t2, t2, 50, v, c + b + a);
    ghost var d := 0x4_0000_0000_0000 * (c + b + a);
    Times(t1, t2, t1, v, d, a);
    SquareTimes(t1, t1, 5, v, d + a);
    LastTimes(out, t1, t0, v, 32 * (d + a), 11);
  }

  /** The last multiplication, whose limbs are those of a product. */
  method LastTimes(h: array<Int32>, f: array<Int32>, g: array<Int32>, ghost z: int, ghost d: nat, ghost e: nat)
    requires h.Length == f.Length == g.Length == 10 && IsPower(f[..], z, d) && IsPower(g[..], z, e)
    modifies h
    ensures Product(h[..]) && Congruent(Val(h[..]), Power(z, d + e), PRIME)
  {
    hide Val, Power, Factor, Carried;
    ghost var x: seq<int>, y: seq<int> := f[..], g[..];
    FeMul(h, f, g);
    PowerMul(x, y, h[..], z, d, e);
  }

  /** fe_pow22523: z to the power 2^252 - 3. */
  method FePow22523(out: array<Int32>, z: array<Int32>)
    requires out.Length == z.Length == 10 && Factor(z[..])
    modifies out
    ensures Product(out[..])
    ensures Congruent(Val(out[..]), Power(old(Val(z[..])),
      0x1000_0000_0000_0000_0000_0000_0000_0000_0000_0000_0000_0000_0000_0000_0000_0000 - 3), PRIME)
  {
    hide Val, Power, Pow2, Factor, IsPower, Carried;
    FixedPowers();
    ghost var v := Val(z[..]);
    PowerOne(z[..]);
    var t0, t1, t2 := new Int32[10](_ => 0), new Int32[10](_ => 0), new Int32[10](_ => 0);
    SquareTimes(t0, z, 1, v, 1);
    SquareTimes(t1, t0, 2, v, 2);
    Times(t1, z, t1, v, 1, 8);
    Times(t0, t0, t1, v, 2, 9);
    SquareTimes(t0, t0, 1, v, 11);
    Times(t0, t1, t0, v, 9, 22);
    SquareTimes(t1, t0, 5, v, 31);
    Times(t0, t1, t0, v, 992, 31);
    SquareTimes(t1, t0, 10, v, 1023);
    Times(t1, t1, t0, v, 1047552, 1023);
    SquareTimes(t2, t1, 20, v, 0xf_ffff);
    Times(t1, t2, t1, v, 0xff_fff0_0000, 0xf_ffff);
    SquareTimes(t1, t1, 10, v, 0xff_ffff_ffff);
    Times(t0, t1, t0, v, 0x3_ffff_ffff_fc00, 1023);
    Pow22523High(out, t0, t1, t2, z, v);
  }

  /** The second half, from the power 2^50 - 1 on. */
  method Pow22523High(out: array<Int32>, t0: array<Int32>, t1: array<Int32>, t2: array<Int32>, z: array<Int32>,
                      ghost v: int)
    requires out.Length == t0.Length == t1.Length == t2.Length == z.Length == 10
    requires t0 != t1 && t0 != t2 && t1 != t2 && t0 != z && t1 != z && t2 != z
    requires IsPower(z[..], v, 1) && IsPower(t0[..], v, 0x3_ffff_ffff_ffff)
    modifies out, t0, t1, t2
    ensures Product(out[..])
    ensures Congruent(Val(out[..]), Power(v,
      0x1000_0000_0000_0000_0000_0000_0000_0000_0000_0000_0000_0000_0000_0000_0000_0000 - 3), PRIME)
  {
    hide Val, Power, Pow2, Factor, IsPower, Carried;
    FixedPowers();
    ghost var a := 0x3_ffff_ffff_ffff;
    SquareTimes(t1, t0, 50, v, a);
    ghost var b := 0x4_0000_0000_0000 * a;
    Times(t1, t1, t0, v, b, a);
    SquareTimes(t2, t1, 100, v, b + a);
    ghost var c := 0x10_0000_0000_0000_0000_0000_0000 * (b + a);
    Times(t1, t2, t1, v, c, b + a);
    SquareTimes(t1, t1, 50, v, c + b + a);
    ghost var d := 0x4_0000_0000_0000 * (c + b + a);
    Times(t0, t1, t0, v, d, a);
    SquareTimes(t0, t0, 2, v, d + a);
    LastTimes(out, t0, z, v, 4 * (d + a), 1);
  }
}
