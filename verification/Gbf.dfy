/**
  The 16-bit field arithmetic of the redundancy component: lookup tables of 4-bit blocks,
  multiplication by table lookups, power by squaring and inverse by extended Euclid.
  Words are 16 bits wide; every shift to the left is followed by the truncation the C type makes.
*/
module Gbf {
  import opened Gf2Poly
  import opened BinaryField
  import opened NibbleProduct
  import opened Euclid
  import opened Fermat

  type Byte = b: nat | b < 256

  /** Conversion of an int to uint8_t. */
  function ToU8(x: nat): Byte {
    if x < 256 then x else x % 256
  }

  // ---------- what the tables hold ----------

  lemma ReduceTop(p: Word)
    ensures Reduce(p, 65536) == p
  {
    Powers();
    WordHighLow(1, p);
    XorCancel(65536, p);
    PMulOne(Modulus(p)); WordLen(p); ModulusLen(p);
    PModUnique(65536, Modulus(p), 1, p);
  }

  /** Multiplication by x when the top bit is set: the bit that falls off comes back as p. */
  lemma TimesXFolds(p: Word, low: Word)
    ensures Reduce(p, 65536 + low) == Add(low, p)
  {
    Powers();
    WordHighLow(1, low);
    ReduceAdd(p, 65536, low); ReduceTop(p); ReduceWord(p, low); XorComm(p, low);
  }

  lemma ReduceDouble(p: Word, a: nat)
    ensures Reduce(p, 2 * Reduce(p, a)) == Reduce(p, 2 * a)
  {
    ReduceMul(p, 2, a);
    PMulDouble(1, a); PMulOne(a); PMulDouble(1, Reduce(p, a)); PMulOne(Reduce(p, a));
  }

  /** Multiplication by x^4 as the code does it. */
  lemma TimesX4(p: Word, a: Word)
    ensures Reduce(p, 16 * a) == Add(ToU16(16 * a), Reduce(p, PMul(65536, a / 4096)))
  {
    Powers();
    var high, low := a / 4096, ToU16(16 * a);
    assert 16 * a == 65536 * high + low;
    WordHighLow(high, low);
    ReduceAdd(p, 65536 * high, low); ReduceWord(p, low);
    XorComm(Reduce(p, 65536 * high), low);
    PMulPow2(16, high); ShlWord(high);
  }

  lemma ReduceSixteen(p: Word, a: nat)
    ensures Reduce(p, 16 * Reduce(p, a)) == Reduce(p, 16 * a)
  {
    ReduceMul(p, 16, a);
    PMulSixteen(1, a); PMulOne(a); PMulSixteen(1, Reduce(p, a)); PMulOne(Reduce(p, a));
  }

  /** Moving the low bit of i from the pending product into the accumulator v. */
  lemma PeasantStep(v: nat, j: nat, i: nat)
    ensures Xor(Xor(v, When(i % 2, j)), PMul(2 * j, i / 2)) == Xor(v, PMul(j, i))
  {
    PMulStep(j, i);
    XorAssoc(v, When(i % 2, j), PMul(2 * j, i / 2));
  }

  lemma PeasantBounds(v: nat, j: nat, i: nat, k: nat)
    requires 0 < i && v < 256 && k <= 4 && i < Pow2(4 - k) && j < Pow2(4 + k)
    ensures k < 4 && i / 2 < Pow2(3 - k) && 2 * j < Pow2(5 + k) && Xor(v, When(i % 2, j)) < 256
  {
    assert Pow2(8) == 256;
    Pow2Monotone(4 + k, 8);
    XorBound(v, When(i % 2, j), 8);
  }

  /** After k bits: what is in v and what is still to be multiplied make the goal. */
  ghost predicate Multiplying(v: Byte, j: nat, i: nat, k: nat, goal: nat) {
    k <= 4 && i < Pow2(4 - k) && j < Pow2(4 + k) && Xor(v, PMul(j, i)) == goal
  }

  lemma PeasantStart(i: nat, j: nat)
    requires i < 16 && j < 16
    ensures Multiplying(0, j, i, 0, PMul(i, j))
  {
    assert Pow2(4) == 16;
    XorZero(PMul(j, i)); PMulComm(i, j);
  }

  lemma PeasantNext(v: Byte, j: nat, i: nat, k: nat, goal: nat)
    requires 0 < i && Multiplying(v, j, i, k, goal)
    ensures Multiplying(if i % 2 == 1 then ToU8(Xor(v, j)) else v, 2 * j, i / 2, k + 1, goal)
  {
    PeasantStep(v, j, i); PeasantBounds(v, j, i, k); XorZero(v);
    hide PMul, Xor, Pow2;
  }

  lemma PeasantDone(v: Byte, j: nat, k: nat, goal: nat)
    requires Multiplying(v, j, 0, k, goal)
    ensures v == goal
  {
    PMulZero(j); XorZero(v);
  }

  /** The same step, reduced: the pending product is i(x) * x^k. */
  lemma FoldStep(p: Word, v: Word, k: nat, i: nat)
    ensures Add(Add(v, When(i % 2, Reduce(p, Pow2(k)))), Reduce(p, PMul(Pow2(k + 1), i / 2)))
         == Add(v, Reduce(p, PMul(Pow2(k), i)))
  {
    var bit, rest := When(i % 2, Pow2(k)), PMul(Pow2(k + 1), i / 2);
    PMulStep(Pow2(k), i);
    ReduceAdd(p, bit, rest);
    ReduceWord(p, 0);
    XorAssoc(v, Reduce(p, bit), Reduce(p, rest));
  }

  /** The state of the loop below: v and the pending product i(x) * x^(16+bit) make up the goal. */
  ghost predicate Folding(p: Word, v: Word, i: nat, bit: nat, goal: Word) {
    && bit <= 4 && i < Pow2(4 - bit)
    && Add(v, Reduce(p, PMul(Pow2(16 + bit), i))) == goal
  }

  lemma FoldStart(p: Word, i: nat)
    requires i < 16
    ensures Folding(p, 0, i, 0, Reduce(p, PMul(65536, i)))
  {
    Powers();
    XorZero(Reduce(p, PMul(65536, i)));
  }

  lemma FoldNext(p: Word, v: Word, i: nat, bit: nat, goal: Word, w: Word)
    requires Folding(p, v, i, bit, goal) && i != 0
    requires w == if i % 2 == 1 then Add(v, Reduce(p, Pow2(16 + bit))) else v
    ensures bit < 4 && Folding(p, w, i / 2, bit + 1, goal)
  {
    FoldStep(p, v, 16 + bit, i);
    XorZero(v);
  }

  lemma FoldDone(p: Word, v: Word, bit: nat, goal: Word)
    requires Folding(p, v, 0, bit, goal)
    ensures v == goal
  {
    PMulZero(Pow2(16 + bit));
    ReduceWord(p, 0); XorZero(v);
  }

  /** Doubling a reduced power of x. */
  lemma NextPower(p: Word, k: nat, b: Word)
    requires b == Reduce(p, Pow2(k))
    ensures Reduce(p, Pow2(k + 1)) == if b >= 32768 then Add(ToU16(2 * b), p) else ToU16(2 * b)
  {
    ReduceDouble(p, Pow2(k));
    if b >= 32768 { TimesXFolds(p, 2 * b - 65536); } else { ReduceWord(p, 2 * b); }
  }

  lemma PowStep(p: Word, r: Word, next: Word, b: Word, e: nat)
    requires next == if e % 2 == 1 then BinaryField.Mul(p, r, b) else r
    ensures BinaryField.Mul(p, next, Pow(p, BinaryField.Mul(p, b, b), e / 2)) == BinaryField.Mul(p, r, Pow(p, b, e))
  {
    var half := e / 2;
    if e % 2 == 1 {
      assert e == 2 * half + 1;
      PowOdd(p, r, b, half);
    } else {
      assert e == 2 * half;
      PowEven(p, b, half);
    }
  }

  lemma MulStart(p: Word, ns: seq<nat>, ms: seq<nat>)
    requires |ns| == 4 && |ms| == 4
    ensures Reduce(p, Horner(ns, ms, 7, 8)) == 0
  {
    CoefficientOutside(ns, ms, 7);
    assert Horner(ns, ms, 8, 8) == 0;
    XorZero(0); ReduceWord(p, 0);
  }

  /** One round of the outer loop: acc * x^4 plus coefficient bl. */
  lemma MulShift(p: Word, acc: Word, ns: seq<nat>, ms: seq<nat>, bl: nat)
    requires bl < 8 && acc == Reduce(p, Horner(ns, ms, bl + 1, 8))
    requires forall i :: 0 <= i < |ns| ==> ns[i] < 16
    requires forall i :: 0 <= i < |ms| ==> ms[i] < 16
    ensures Reduce(p, Horner(ns, ms, bl, 8))
         == Xor(Add(ToU16(16 * acc), Reduce(p, PMul(65536, acc / 4096))), Coefficient(ns, ms, bl))
  {
    TimesX4(p, acc);
    var h, c := Horner(ns, ms, bl + 1, 8), Coefficient(ns, ms, bl);
    ReduceSixteen(p, h);
    CoefficientBound(ns, ms, bl);
    ReduceAdd(p, c, 16 * h); ReduceWord(p, c);
    XorComm(c, Reduce(p, 16 * h));
  }

  lemma MulDone(v1: Word, v2: Word)
    ensures Horner(Nibbles(v1, 4), Nibbles(v2, 4), 0, 8) == PMul(v1, v2)
  {
    Powers();
    ValueOfNibbles(v1, 4); ValueOfNibbles(v2, 4);
    HornerIsProduct(Nibbles(v1, 4), Nibbles(v2, 4));
  }

  /** One round of power by squaring. */
  lemma PowEven(p: Word, b: Word, half: nat)
    ensures Pow(p, BinaryField.Mul(p, b, b), half) == Pow(p, b, 2 * half)
  {
    PowSquare(p, b, half);
  }

  lemma PowOdd(p: Word, r: Word, b: Word, half: nat)
    ensures BinaryField.Mul(p, BinaryField.Mul(p, r, b), Pow(p, BinaryField.Mul(p, b, b), half))
         == BinaryField.Mul(p, r, Pow(p, b, 2 * half + 1))
  {
    PowSquare(p, b, half);
    MulAssoc(p, r, b, Pow(p, b, 2 * half));
  }

  class Tables {
    const clmul: array<Byte>
    const clmod: array<Word>

    ghost predicate Sized() {
      clmul.Length == 256 && clmod.Length == 16
    }

    ghost predicate NibbleProducts(rows: nat)
      requires Sized() && rows <= 16
      reads clmul
    {
      forall i: nat, j: nat :: i < rows && j < 16 ==> clmul[i * 16 + j] == PMul(i, j)
    }

    /** The tables serve the modulus x^16 + p. */
    ghost predicate Ready(p: Word)
      reads clmul, clmod
    {
      && Sized()
      && NibbleProducts(16)
      && forall i: nat :: i < 16 ==> clmod[i] == Reduce(p, PMul(65536, i))
    }

    constructor ()
      ensures fresh(clmul) && fresh(clmod) && Sized()
    {
      clmul := new Byte[256];
      clmod := new Word[16];
    }

    /** The carry-less product of two nibbles, bit by bit. */
    static method ClMulNibble(i: nat, j: nat) returns (v: Byte)
      requires i < 16 && j < 16
      ensures v == PMul(i, j)
    {
      v := 0;
      var ii: nat, jj: nat := i, j;
      ghost var k: nat := 0;
      PeasantStart(i, j);
      hide *;
      while ii != 0
        invariant Multiplying(v, jj, ii, k, PMul(i, j))
        decreases ii
      {
        PeasantNext(v, jj, ii, k, PMul(i, j));
        if ii % 2 == 1 {
          v := ToU8(Xor(v, jj));
        }
        ii := ii / 2;
        jj := 2 * jj;
        k := k + 1;
      }
      PeasantDone(v, jj, k, PMul(i, j));
    }

    method FillClMul()
      requires Sized()
      modifies clmul
      ensures NibbleProducts(16)
    {
      hide PMul;
      for i := 0 to 16
        invariant NibbleProducts(i)
      {
        for j := 0 to 16
          invariant NibbleProducts(i)
          invariant forall b: nat :: b < j ==> clmul[i * 16 + b] == PMul(i, b)
        {
          var v := ClMulNibble(i, j);
          clmul[i * 16 + j] := v;
        }
      }
    }

    /** x^16, x^17, x^18 and x^19, reduced. */
    static method PolynomeBits(polynome: Word) returns (bits: array<Word>)
      ensures fresh(bits) && bits.Length == 4
      ensures forall k: nat :: k < 4 ==> bits[k] == Reduce(polynome, Pow2(16 + k))
    {
      bits := new Word[4];
      bits[0] := polynome;
      Powers(); ReduceTop(polynome);
      for i := 1 to 4
        invariant forall k: nat :: k < i ==> bits[k] == Reduce(polynome, Pow2(16 + k))
      {
        var previous: nat := bits[i - 1];
        NextPower(polynome, 15 + i, previous);
        bits[i] := ToU16(2 * previous);
        if previous >= 32768 {
          bits[i] := Add(bits[i], polynome);
        }
      }
    }

    /** The reduction of a nibble that fell off the top of a word. */
    static method ClModEntry(ghost polynome: Word, bits: array<Word>, i: nat) returns (v: Word)
      requires i < 16 && bits.Length == 4
      requires forall k: nat :: k < 4 ==> bits[k] == Reduce(polynome, Pow2(16 + k))
      ensures v == Reduce(polynome, PMul(65536, i))
    {
      v := 0;
      var ii: nat, bit: nat := i, 0;
      FoldStart(polynome, i);
      while ii != 0
        invariant Folding(polynome, v, ii, bit, Reduce(polynome, PMul(65536, i)))
        decreases ii
      {
        var w: Word := v;
        if ii % 2 == 1 {
          w := Add(w, bits[bit]);
        }
        FoldNext(polynome, v, ii, bit, Reduce(polynome, PMul(65536, i)), w);
        v := w;
        ii := ii / 2;
        bit := bit + 1;
      }
      FoldDone(polynome, v, bit, Reduce(polynome, PMul(65536, i)));
    }

    method Init(polynome: Word)
      requires Sized()
      modifies clmul, clmod
      ensures Ready(polynome)
    {
      FillClMul();
      var bits := PolynomeBits(polynome);
      FillClMod(polynome, bits);
    }

    method FillClMod(ghost polynome: Word, bits: array<Word>)
      requires Sized() && NibbleProducts(16)
      requires bits.Length == 4 && bits != clmod
      requires forall k: nat :: k < 4 ==> bits[k] == Reduce(polynome, Pow2(16 + k))
      modifies clmod
      ensures Ready(polynome)
    {
      hide PMul, Reduce, Pow2;
      for i := 0 to 16
        invariant NibbleProducts(16)
        invariant forall k: nat :: k < 4 ==> bits[k] == Reduce(polynome, Pow2(16 + k))
        invariant forall a: nat :: a < i ==> clmod[a] == Reduce(polynome, PMul(65536, a))
      {
        var v := ClModEntry(polynome, bits, i);
        clmod[i] := v;
      }
    }

    /** v1 * v2, four bits of each at a time. */
    method Mul(ghost p: Word, v1: Word, v2: Word) returns (r: Word)
      requires Ready(p)
      ensures r == BinaryField.Mul(p, v1, v2)
    {
      r := 0;
      ghost var ns, ms := Nibbles(v1, 4), Nibbles(v2, 4);
      MulStart(p, ns, ms);
      var bl := 6;
      while bl >= 0
        invariant -1 <= bl <= 6
        invariant r == Reduce(p, Horner(ns, ms, bl + 1, 8))
      {
        MulShift(p, r, ns, ms, bl);
        r := Add(ToU16(16 * r), clmod[r / 4096]);
        r := AddCoefficient(p, r, v1, v2, bl);
        bl := bl - 1;
      }
      MulDone(v1, v2);
    }

    /** The inner loop of Mul: adds the nibble products whose positions sum to bl. */
    method AddCoefficient(ghost p: Word, acc: Word, v1: Word, v2: Word, bl: nat) returns (r: Word)
      requires Ready(p) && bl <= 6
      ensures r == Xor(acc, Coefficient(Nibbles(v1, 4), Nibbles(v2, 4), bl))
    {
      hide Coefficient, Nibbles, Xor, Shr, PMul, Reduce;
      r := acc;
      ghost var ns, ms := Nibbles(v1, 4), Nibbles(v2, 4);
      assert ns[0..] == ns;
      var x, ix: nat := 0, v1;
      while x < 4
        invariant 0 <= x <= 4 && ns[x..] == Nibbles(ix, 4 - x)
        invariant Xor(r, Coefficient(ns[x..], ms, bl - x)) == Xor(acc, Coefficient(ns, ms, bl))
      {
        CoefficientStep(r, ns, ms, x, bl - x);
        NibblesStep(ix, 4 - x);
        assert ns[x] == ns[x..][0] == ix % 16;
        var y := bl - x;
        if 0 <= y < 4 {
          NibbleAt(v2, 4, y);
          var i: nat, j: nat := ix % 16, Shr(v2, 4 * y) % 16;
          r := Add(r, clmul[i * 16 + j]);
        } else { XorZero(r); }
        assert ns[x + 1..] == ns[x..][1..];
        ix := ix / 16;
        x := x + 1;
      }
      NoCoefficient(ms, bl - x);
      XorZero(r);
    }

    method Pwr(ghost p: Word, v1: Word, v2: Word) returns (r: Word)
      requires Ready(p)
      ensures r == Pow(p, v1, v2)
    {
      r := 1;
      var b: Word, e: nat := v1, v2;
      MulUnits(p, Pow(p, v1, v2));
      while e != 0
        invariant BinaryField.Mul(p, r, Pow(p, b, e)) == Pow(p, v1, v2)
        decreases e
      {
        ghost var before := r;
        if e % 2 == 1 {
          r := Mul(p, r, b);
        }
        PowStep(p, before, r, b, e);
        e := e / 2;
        MulUnits(p, r);
        if e == 0 {
          return;
        }
        b := Mul(p, b, b);
      }
      MulUnits(p, r);
    }

    static method HighBit(r: Word) returns (h: nat)
      requires r != 0
      ensures h < 16 && Pow2(h) <= r < Pow2(h + 1)
    {
      Powers();
      h := 15;
      while Shr(r, h) == 0
        invariant h < 16 && r < Pow2(h + 1)
        decreases h
      {
        ShrZero(r, h);
        h := h - 1;
      }
      ShrZero(r, h);
    }

    /** The inner loop of the division: subtracts r under every bit from 15 down to its top bit. */
    static method DivideBits(ghost a: nat, r: Word, h: nat, oldR0: Word, quo0: Word, ghost high0: nat)
      returns (oldR: Word, quo: Word)
      requires Dividing(a, r, h, 15, oldR0, quo0, high0)
      ensures a == Xor(PMul(quo, r), oldR) && oldR < Pow2(h)
    {
      oldR, quo := oldR0, quo0;
      ghost var high := high0;
      var bit := 15;
      while bit >= h
        invariant h - 1 <= bit <= 15
        invariant Dividing(a, r, h, bit, oldR, quo, high)
      {
        ShrZero(oldR, bit);
        if Shr(oldR, bit) != 0 {
          SubtractBit(a, r, h, bit, oldR, quo, high);
          oldR := Add(oldR, ToU16(Shl(r, bit - h)));
          quo := Or(quo, ToU16(Pow2(bit - h)));
          high := 2 * high + 1;
        } else {
          SkipBit(a, r, h, bit, oldR, quo, high);
          high := 2 * high;
        }
        bit := bit - 1;
      }
    }

    /** One round: divides, moves the Bezout factor along, swaps old and new. */
    method EuclidRound(ghost p: Word, ghost r0: Word, ghost a: nat, r: Word, h: nat,
                       oldR0: Word, quo0: Word, ghost high0: nat, t: Word, oldT: Word)
      returns (newR: Word, newT: Word)
      requires Ready(p)
      requires Dividing(a, r, h, 15, oldR0, quo0, high0)
      requires Bezout(p, r0, a, r, oldT, t)
      ensures Bezout(p, r0, r, newR, t, newT) && newR < Pow2(h)
    {
      var quo;
      newR, quo := DivideBits(a, r, h, oldR0, quo0, high0);
      BezoutStep(p, r0, a, r, oldT, t, quo, newR);
      var m := Mul(p, quo, t);
      newT := Add(oldT, m);
    }

    /** The first round divides the modulus, whose bit 16 has no room in a word. */
    method FirstRound(ghost p: Word, r: Word, oldR: Word, t: Word, oldT: Word) returns (newR: Word, newT: Word)
      requires Ready(p)
      requires r > 1 && oldR == clmod[1] && t == 1 && oldT == 0
      ensures Bezout(p, r, r, newR, t, newT)
    {
      BezoutStart(p, r);
      PMulOne(65536); ReduceTop(p);
      var h := HighBit(r);
      SubtractModulus(p, r, h);
      newR, newT := EuclidRound(p, r, Modulus(p), r, h, Add(oldR, ToU16(Shl(r, 16 - h))),
                                Or(0, ToU16(Pow2(16 - h))), 1, t, oldT);
    }

    /**
      The inverse by extended Euclid. The result ok is the final assertion that the algorithm
      has arrived at 1: it holds exactly for the invertible words, which are all the non-zero
      words when the modulus is irreducible.
    */
    method Inv(ghost p: Word, r0: Word) returns (ok: bool, inv: Word)
      requires Ready(p)
      requires r0 != 0
      ensures ok ==> IsInverse(p, r0, inv)
      ensures !ok ==> !Invertible(p, r0)
      ensures Irreducible(Modulus(p)) ==> ok
    {
      if r0 == 1 {
        MulUnits(p, 1);
        return true, 1;
      }
      var r: Word, oldR: Word := r0, clmod[1];
      var t: Word, oldT: Word := 1, 0;
      var newR, newT := FirstRound(p, r0, oldR, t, oldT);
      r, oldR, t, oldT := newR, r, newT, t;

      while r != 0
        invariant Bezout(p, r0, oldR, r, oldT, t)
        decreases r
      {
        var h := HighBit(r);
        DividingStart(oldR, r, h);
        newR, newT := EuclidRound(p, r0, oldR, r, h, oldR, 0, 0, t, oldT);
        r, oldR, t, oldT := newR, r, newT, t;
      }

      ok := oldR == 1;
      inv := Add(t, oldT);
      BezoutEnd(p, r0, oldR, oldT, t);
    }

    /** The inverse as a power; -2 converted to a word is 2^16 - 2. */
    method InvPhi(ghost p: Word, v1: Word) returns (inv: Word)
      requires Ready(p)
      requires v1 != 0
      ensures Irreducible(Modulus(p)) ==> IsInverse(p, v1, inv)
    {
      var minusTwo: Word := 65534;
      inv := Pwr(p, v1, minusTwo);
      if Irreducible(Modulus(p)) { PowerIsInverse(p, v1, minusTwo); }
    }
  }
}
