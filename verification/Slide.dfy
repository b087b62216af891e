/**
  slide: a scalar as signed odd digits of at most 15, at least five places apart. A carry that runs
  over the last place is lost, and with it 2^256.
*/
module Slide {
  import opened Arith
  import opened Gf2Poly
  import opened Crc
  import opened ByteNumber
  import opened DeflateBits
  import opened SignedDigits

  /** signed char */
  type Schar = v: int | -128 <= v < 128

  predicate SlideDigit(v: int) {
    v == 0 || (-15 <= v <= 15 && v % 2 == 1)
  }

  // ---------- when a carry is lost ----------

  /** In a number of n bits, the window at its low end makes a carry, and all bits above it are one. */
  predicate CarryLost(v: int, n: nat) {
    n >= 5 && v % 2 == 1 && v / 16 + 1 == Pow2(n - 4)
  }

  /** What is left for the places behind the lowest one. */
  function Rest(v: int): int {
    if v % 2 == 0 then v / 2 else if v % 32 < 16 then v / 32 * 16 else (v / 32 + 1) * 16
  }

  /** Window by window, a carry comes that meets ones only, up to the last of n places. */
  predicate RunsOver(v: int, n: nat)
    decreases n, v
  {
    n >= 5 && (CarryLost(v, n) || RunsOver(Rest(v), n - 1))
  }

  /** 2^255 */
  const HALF := 0x8000_0000_0000_0000_0000_0000_0000_0000_0000_0000_0000_0000_0000_0000_0000_0000

  /** What the recoding of a scalar loses. */
  function Lost(v: nat): nat {
    if RunsOver(v, 256) then 2 * HALF else 0
  }

  /** The number that the digits of a scalar stand for. */
  function Recoded(v: nat): int {
    v - Lost(v)
  }

  lemma {:induction false} NoOverrun(v: nat, n: nat)
    requires n > 0 && v <= Pow2(n - 1)
    ensures !RunsOver(v, n)
    decreases n
  {
    if n >= 5 {
      var p := Pow2(n - 5);
      assert Pow2(n - 4) == 2 * p && Pow2(n - 3) == 4 * p && Pow2(n - 2) == 8 * p && Pow2(n - 1) == 16 * p;
      RestBound(v, p);
      NoOverrun(Rest(v), n - 1);
    }
  }

  lemma RestBound(v: nat, p: nat)
    requires v <= 16 * p && (p == 1 || p % 2 == 0)
    ensures 0 <= Rest(v) <= 8 * p && (v % 2 == 1 ==> v / 16 + 1 != 2 * p)
  {}

  /** Up to 2^255 no carry is lost. */
  lemma ExactToHalf(v: nat)
    requires v <= HALF
    ensures Recoded(v) == v && Lost(v) == 0
  {
    var n: nat :| n == 256;
    HalfPower(n - 1);
    NoOverrun(v, n);
  }

  lemma LostRest(v: nat)
    ensures Recoded(v) + Lost(v) == v
  {}

  /** Thirty-two bytes 0xff become the one digit -1. */
  lemma AllOnesLost(a: seq<Byte>)
    requires |a| == 32 && forall k :: 0 <= k < 32 ==> a[k] == 0xff
    ensures Recoded(Le(a)) == -1
  {
    var n: nat :| n == 8 * |a|;
    HalfPower(n - 1);
    LeOnes(a);
    assert Pow2(n - 3) == 2 * Pow2(n - 4) && Pow2(n - 2) == 4 * Pow2(n - 4) && Pow2(n - 1) == 8 * Pow2(n - 4);
    hide Pow2, Le;
    assert CarryLost(Le(a), n);
  }

  lemma {:induction false} LeOnes(a: seq<Byte>)
    requires forall k :: 0 <= k < |a| ==> a[k] == 0xff
    ensures Le(a) + 1 == Pow2(8 * |a|)
  {
    if a != [] {
      LeOnes(a[1..]);
      PowByte(|a|);
    }
  }

  lemma HalfPower(k: nat)
    requires k == 255
    ensures Pow2(k) == HALF && Pow2(k + 1) == 2 * HALF
  {
    hide Pow2;
    Pow15();
    DoublePower(15, 0x8000, 0x4000_0000);
    DoublePower(30, 0x4000_0000, 0x1000_0000_0000_0000);
    DoublePower(60, 0x1000_0000_0000_0000, 0x100_0000_0000_0000_0000_0000_0000_0000);
    DoublePower(120, 0x100_0000_0000_0000_0000_0000_0000_0000,
                0x1_0000_0000_0000_0000_0000_0000_0000_0000_0000_0000_0000_0000_0000_0000_0000);
    PowAdd(240, 15);
    PowAdd(255, 1);
  }

  lemma Pow15()
    ensures Pow2(15) == 0x8000 && Pow2(1) == 2
  {}

  lemma DoublePower(n: nat, p: nat, q: nat)
    requires Pow2(n) == p && q == p * p
    ensures Pow2(2 * n) == q
  {
    PowAdd(n, n);
  }

  // ---------- one window ----------

  /** What a lost carry takes away. */
  function Loss(lost: bool, n: nat): int {
    if lost then Pow2(n) else 0
  }

  lemma LossAt(lost: bool, i: nat, n: nat)
    ensures Pow2(i) * Loss(lost, n) == Loss(lost, i + n)
    ensures Pow2(i) * (-Loss(lost, n)) == -Loss(lost, i + n)
  {
    PowAdd(i, n);
    hide Pow2;
    MulMinus(Pow2(i), 0, Loss(lost, n));
  }

  /** Digit i has taken in the b - 1 digits behind it, of the digits x0; the fourth may have lost a carry. */
  ghost predicate Taking(x0: seq<int>, x: seq<int>, i: nat, b: nat, lost: bool) {
    && |x0| == |x| == 256 && i < 256 && 1 <= b && i + b <= 256
    && (forall k :: 0 <= k < i ==> x[k] == x0[k])
    && SlideDigit(x[i]) && x[i] != 0 && (b <= 4 ==> !lost && 0 < x[i] < Pow2(b))
    && Bits01(x, i + 1, 256) && AllZero(x, i + 1, if lost then 256 else i + b)
    && From(x, i, 2) == From(x0, i, 2) - Loss(lost, 256 - i)
    && (b > 4 ==> (lost <==> CarryLost(From(x0, i, 2), 256 - i)))
  }

  /** The digit in hand and the number behind it. */
  lemma PlaceValue(x: seq<int>, i: nat, j: nat)
    requires i < j && AllZero(x, i + 1, j)
    ensures From(x, i, 2) == x[i] + Pow2(j - i) * From(x, j, 2)
  {
    ZerosUpTo(x, i + 1, j);
    MulAssoc(2, Pow2(j - i - 1), From(x, j, 2));
  }

  lemma StartTaking(x: seq<int>, i: nat)
    requires |x| == 256 && i < 256 && x[i] == 1 && Bits01(x, i, 256)
    ensures Taking(x, x, i, 1, false)
  {
    assert Pow2(1) == 2;
  }

  lemma SmallPow(b: nat)
    requires 1 <= b <= 6
    ensures Pow2(b) == (if b == 1 then 2 else if b == 2 then 4 else if b == 3 then 8
                       else if b == 4 then 16 else if b == 5 then 32 else 64)
  {
    assert Pow2(1) == 2 && Pow2(2) == 4 && Pow2(3) == 8 && Pow2(4) == 16 && Pow2(5) == 32 && Pow2(6) == 64;
  }

  /** The fourth digit behind is what the carry depends on. */
  lemma CarryCase(x: seq<int>, i: nat)
    requires |x| == 256 && i + 4 < 256 && 0 < x[i] < 16 && x[i] % 2 == 1 && AllZero(x, i + 1, i + 4)
      && Bits01(x, i + 1, 256)
    ensures CarryLost(From(x, i, 2), 256 - i) <==> From(x, i + 4, 2) + 1 == Pow2(252 - i)
    ensures x[i + 4] == 0 ==> !CarryLost(From(x, i, 2), 256 - i)
  {
    PlaceValue(x, i, i + 4);
    SmallPow(4);
    WindowParts(From(x, i, 2), x[i], From(x, i + 4, 2));
    BitsBound(x, i + 4);
    hide From, Pow2;
  }

  lemma WindowParts(f: int, d: int, g: int)
    requires f == d + 16 * g && 0 < d < 16 && d % 2 == 1
    ensures f / 16 == g && f % 2 == 1
  {
    QuotientIs(f, 16, g, d);
    QuotientIs(f, 2, d / 2 + 8 * g, 1);
  }

  lemma TakeZero(x0: seq<int>, x: seq<int>, i: nat, b: nat, lost: bool)
    requires Taking(x0, x, i, b, lost) && i + b < 256 && x[i + b] == 0
    ensures Taking(x0, x, i, b + 1, lost)
  {
    assert Pow2(b + 1) == 2 * Pow2(b);
    if b == 4 {
      SmallPow(4);
      CarryCase(x, i);
    }
    hide From, Pow2;
  }

  /** The next digit is taken in. */
  lemma TakeOne(x0: seq<int>, x: seq<int>, i: nat, b: nat, lost: bool)
    requires Taking(x0, x, i, b, lost) && i + b < 256 && x[i + b] == 1 && b <= 3
    ensures x[i] + Pow2(b) <= 15
    ensures Taking(x0, x[i := x[i] + Pow2(b)][i + b := 0], i, b + 1, lost)
  {
    TakeValue(x, i, b);
    SmallPow(b); SmallPow(b + 1);
    hide From, Pow2;
  }

  lemma TakeValue(x: seq<int>, i: nat, b: nat)
    requires b > 0 && i + b < |x| && x[i + b] == 1 && AllZero(x, i + 1, i + b)
    ensures From(x[i := x[i] + Pow2(b)][i + b := 0], i, 2) == From(x, i, 2)
  {
    var y := x[i := x[i] + Pow2(b)][i + b := 0];
    PlaceValue(x, i, i + b);
    PlaceValue(y, i, i + b);
    SameFrom(x, y, i + b + 1, 2);
    assert From(x, i + b, 2) == 1 + From(y, i + b, 2);
    MulMinus(Pow2(b), From(y, i + b, 2), 1);
    hide From, Pow2;
  }

  /** The next digit is taken in with a carry. */
  lemma TakeCarry(x0: seq<int>, x: seq<int>, y: seq<int>, i: nat, b: nat, lost: bool)
    requires Taking(x0, x, i, b, false) && b == 4 && i + b < 256 && |y| == 256
    requires y[i] == x[i] - 16 && y[i + b] == 0
    requires forall j :: 0 <= j < i + b && j != i ==> y[j] == x[j]
    requires Bits01(y, i + b, 256) && From(y, i + b, 2) == From(x, i + b, 2) + 1 - Loss(lost, 256 - (i + b))
    requires lost <==> From(x, i + b, 2) + 1 == Pow2(256 - (i + b))
    requires lost ==> AllZero(y, i + b, 256)
    ensures Taking(x0, y, i, b + 1, lost)
  {
    SmallPow(4);
    CarryCase(x, i);
    assert Loss(false, 256 - i) == 0;
    CarryValue(x, y, i, lost);
    CarryShape(y, i, lost);
    hide From, Pow2, Loss, CarryLost, Bits01, AllZero;
  }

  lemma CarryValue(x: seq<int>, y: seq<int>, i: nat, lost: bool)
    requires |x| == |y| == 256 && i + 4 < 256 && y[i] == x[i] - 16
    requires AllZero(x, i + 1, i + 4) && AllZero(y, i + 1, i + 4)
    requires From(y, i + 4, 2) == From(x, i + 4, 2) + 1 - Loss(lost, 252 - i)
    ensures From(y, i, 2) == From(x, i, 2) - Loss(lost, 256 - i)
  {
    SmallPow(4);
    PlaceValue(x, i, i + 4);
    PlaceValue(y, i, i + 4);
    LossAt(lost, 4, 252 - i);
    hide *;
  }

  lemma CarryShape(y: seq<int>, i: nat, lost: bool)
    requires |y| == 256 && i + 4 < 256 && y[i + 4] == 0 && AllZero(y, i + 1, i + 4)
    requires Bits01(y, i + 4, 256) && (lost ==> AllZero(y, i + 4, 256))
    ensures Bits01(y, i + 1, 256) && AllZero(y, i + 1, if lost then 256 else i + 5)
  {}

  /** One is added at digit `from`: ones become zeros up to the first zero, which becomes one, or to the end. */
  method AddOne(r: array<Schar>, from: nat) returns (ghost lost: bool)
    requires r.Length == 256 && from < 256 && Bits01(r[..], from, 256)
    modifies r
    ensures From(r[..], from, 2) == old(From(r[..], from, 2)) + 1 - Loss(lost, 256 - from)
    ensures lost <==> old(From(r[..], from, 2)) + 1 == Pow2(256 - from)
    ensures lost ==> AllZero(r[..], from, 256)
    ensures Bits01(r[..], from, 256) && (old(r[from]) == 1 ==> r[from] == 0)
    ensures forall j :: 0 <= j < from ==> r[j] == old(r[j])
  {
    hide From, Pow2;
    ghost var x: seq<int> := r[..];
    BitsBound(x, from);
    var k := from;
    while k < 256
      invariant from <= k <= 256
      invariant forall j :: from <= j < k ==> x[j] == 1 && r[j] == 0
      invariant forall j :: 0 <= j < 256 && !(from <= j < k) ==> r[j] == x[j]
    {
      if r[k] == 0 {
        r[k] := 1;
        CarryUp(x, r[..], from, k);
        return false;
      }
      r[k] := 0;
      k := k + 1;
    }
    lost := true;
    ZerosUpTo(r[..], from, k);
    FromEnd(r[..], 256 - from);
  }

  lemma FromEnd(x: seq<int>, n: nat)
    ensures From(x, |x|, 2) == 0 && Pow2(n) * 0 == 0
  {}

  /** The digits behind digit i are taken in as far as they fit. */
  method Take(r: array<Schar>, i: nat) returns (ghost lost: bool)
    requires r.Length == 256 && i < 256 && r[i] == 1 && Bits01(r[..], i, 256)
    modifies r
    ensures Taken(old(r[..]), r[..], i, lost)
  {
    hide Taking, Taken, Pow2;
    ghost var x0: seq<int> := r[..];
    lost := false;
    StartTaking(x0, i);
    var b := 1;
    while b <= 6 && i + b < 256
      invariant 1 <= b <= 7 && i + b <= 256 && Taking(x0, r[..], i, b, lost)
    {
      TakingDigits(x0, r[..], i, b, lost);
      if r[i + b] != 0 {
        var go;
        go, lost := TakeNext(r, i, b, x0, lost);
        if !go {
          break;
        }
      } else {
        TakeZero(x0, r[..], i, b, lost);
      }
      b := b + 1;
    }
    StopTaking(x0, r[..], i, b, lost);
  }

  lemma TakingDigits(x0: seq<int>, x: seq<int>, i: nat, b: nat, lost: bool)
    requires Taking(x0, x, i, b, lost) && i + b < 256
    ensures x[i + b] == 0 || x[i + b] == 1
    ensures SlideDigit(x[i]) && x[i] != 0 && Bits01(x, i + 1, 256)
    ensures b <= 4 ==> !lost && 0 < x[i] < Pow2(b)
  {}

  /** The next digit, which is one, is taken in if it can be: up to the fourth. */
  method TakeNext(r: array<Schar>, i: nat, b: nat, ghost x0: seq<int>, ghost lost0: bool)
    returns (go: bool, ghost lost: bool)
    requires r.Length == 256 && 1 <= b <= 6 && i + b < 256 && Taking(x0, r[..], i, b, lost0) && r[i + b] == 1
    modifies r
    ensures if go then Taking(x0, r[..], i, b + 1, lost) else b >= 5 && Taking(x0, r[..], i, b, lost)
  {
    hide Taking, From;
    ghost var x: seq<int> := r[..];
    TakingDigits(x0, x, i, b, lost0);
    SmallPow(b);
    hide Pow2;
    lost := lost0;
    if r[i] + Pow2(b) <= 15 {
      TakeOne(x0, x, i, b, lost);
      r[i] := r[i] + Pow2(b);
      r[i + b] := 0;
      assert r[..] == x[i := x[i] + Pow2(b)][i + b := 0];
      go := true;
    } else if r[i] - Pow2(b) >= -15 {
      r[i] := r[i] - Pow2(b);
      SameFrom(x, r[..], i + b, 2);
      lost := AddOne(r, i + b);
      TakeCarry(x0, x, r[..], i, b, lost);
      go := true;
    } else {
      go := false;
    }
  }

  /** What a window leaves: its digit, four places clear, and the rest behind them. */
  ghost predicate Taken(x0: seq<int>, x: seq<int>, i: nat, lost: bool) {
    && |x0| == |x| == 256 && i < 256
    && (forall k :: 0 <= k < i ==> x[k] == x0[k])
    && SlideDigit(x[i]) && Bits01(x, i + 1, 256) && AllZero(x, i + 1, if lost || i > 251 then 256 else i + 5)
    && From(x, i, 2) == From(x0, i, 2) - Loss(lost, 256 - i)
    && (RunsOver(From(x0, i, 2), 256 - i) <==> lost || RunsOver(From(x, i + 1, 2), 255 - i))
  }

  /** When the next digit does not fit, or there is none, four places are clear. */
  lemma StopTaking(x0: seq<int>, x: seq<int>, i: nat, b: nat, lost: bool)
    requires Taking(x0, x, i, b, lost) && (b >= 5 || i + b == 256)
    ensures Taken(x0, x, i, lost)
  {
    if b >= 5 && !lost {
      PlaceValue(x, i, i + 5);
      ZerosUpTo(x, i + 1, i + 5);
      SmallPow(4); SmallPow(5);
      RestParts(x[i], From(x, i + 5, 2));
    }
    hide From, Pow2, Bits01;
  }

  lemma RestParts(d: int, g: int)
    requires SlideDigit(d) && d != 0
    ensures Rest(d + 32 * g) == 16 * g
  {}

  // ---------- the whole recoding ----------

  /** The bits of the scalar, one digit each. */
  method Unpack(a: seq<Byte>) returns (r: array<Schar>)
    requires |a| == 32
    ensures fresh(r) && r.Length == 256 && Bits01(r[..], 0, 256) && Value(r[..]) == Le(a)
  {
    hide Bit;
    r := new Schar[256](_ => 0);
    var i := 0;
    while i < 256
      invariant i <= 256 && forall k: nat :: k < i ==> r[k] == Bit(a, k)
    {
      r[i] := Bit(a, i);
      i := i + 1;
    }
    BitsValue(a, r[..]);
  }

  lemma BitsValue(a: seq<Byte>, x: seq<int>)
    requires |a| == 32 && |x| == 256 && forall k: nat :: k < 256 ==> x[k] == Bit(a, k)
    ensures Value(x) == Le(a)
  {
    hide Bit, From, BitsLe, Le, Cut, Pow2;
    BitsFrom(a, x, 0, |x|);
    LeBelow(a);
    WholeCut(Le(a), |x|);
    FieldOfLe(a, 0, |x|);
  }

  lemma WholeCut(v: nat, n: nat)
    requires v < Pow2(n)
    ensures Cut(v, 0, n) == v
  {
    assert Pow2(0) == 1;
    WholeMod(v, Pow2(n));
  }

  lemma WholeMod(v: nat, p: nat)
    requires v < p
    ensures v / 1 % p == v
  {}

  lemma {:induction false} BitsFrom(a: seq<Byte>, x: seq<int>, i: nat, n: nat)
    requires n == 256 == |x| && i <= n && |a| == 32 && forall k: nat :: k < n ==> x[k] == Bit(a, k)
    ensures From(x, i, 2) == BitsLe(a, i, n - i)
    decreases n - i
  {
    hide Bit;
    if i < n { BitsFrom(a, x, i + 1, n); }
  }

  /** Digits that are not zero are five places apart. */
  ghost predicate Apart(x: seq<int>, i: nat) {
    i <= |x| && forall j, k :: 0 <= j < k < i && x[j] != 0 && x[k] != 0 ==> k - j >= 5
  }

  function MinTop(z: nat): nat {
    if z < 256 then z else 256
  }

  /** Digits before i are done, the next one comes at z or later, and a lost carry leaves none. */
  ghost predicate Spaced(x: seq<int>, i: nat, z: nat, lost: bool) {
    && |x| == 256 && i <= 256 && Apart(x, i) && Bits01(x, i, 256)
    && (forall k :: 0 <= k < i ==> SlideDigit(x[k]) && (x[k] != 0 ==> k + 5 <= z))
    && AllZero(x, i, if lost then 256 else MinTop(z))
  }

  /** The digits stand for v, but for a lost carry, and the bits from i on decide whether there is one. */
  ghost predicate Sliding(x: seq<int>, i: nat, z: nat, v: int, lost: bool) {
    && Spaced(x, i, z, lost)
    && Value(x) == v - Loss(lost, 256)
    && (RunsOver(v, 256) <==> lost || RunsOver(From(x, i, 2), 256 - i))
  }

  lemma SlideStart(x: seq<int>, v: int)
    requires |x| == 256 && Bits01(x, 0, 256) && Value(x) == v
    ensures Sliding(x, 0, 0, v, false)
  {
    hide From, RunsOver;
  }

  lemma SkipZero(x: seq<int>, i: nat, z: nat, v: int, lost: bool)
    requires Sliding(x, i, z, v, lost) && i < 256 && x[i] == 0
    ensures Sliding(x, i + 1, z, v, lost)
  {
    assert From(x, i, 2) == 2 * From(x, i + 1, 2);
    hide From, Pow2, Loss, Value;
    SkipShape(x, i, z, lost);
    hide Spaced;
  }

  lemma SkipShape(x: seq<int>, i: nat, z: nat, lost: bool)
    requires Spaced(x, i, z, lost) && i < 256 && x[i] == 0
    ensures Spaced(x, i + 1, z, lost)
  {}

  lemma SlidingDigit(x: seq<int>, i: nat, z: nat, v: int, lost: bool)
    requires Sliding(x, i, z, v, lost) && i < 256
    ensures Bits01(x, i, 256) && (x[i] == 0 || x[i] == 1)
  {}

  /** A window leads to the next place. */
  lemma NextWindow(x0: seq<int>, x: seq<int>, i: nat, z: nat, v: int, lost0: bool, lost: bool)
    requires Sliding(x0, i, z, v, lost0) && i < 256 && x0[i] != 0 && Taken(x0, x, i, lost)
    ensures Sliding(x, i + 1, i + 5, v, lost)
  {
    NextShape(x0, x, i, z, lost0, lost);
    SamePrefix(x0, x, 0, i);
    LossAt(lost, i, 256 - i);
    assert Loss(false, 256) == 0;
    hide From, Pow2, Loss, Spaced, Bits01, AllZero, RunsOver, SlideDigit;
  }

  lemma NextShape(x0: seq<int>, x: seq<int>, i: nat, z: nat, lost0: bool, lost: bool)
    requires Spaced(x0, i, z, lost0) && i < 256 && x0[i] != 0 && Taken(x0, x, i, lost)
    ensures !lost0 && Spaced(x, i + 1, i + 5, lost)
  {
    assert !lost0 && z <= i;
    hide RunsOver, From;
    NextApart(x0, x, i, z);
    hide Apart;
  }

  lemma NextApart(x0: seq<int>, x: seq<int>, i: nat, z: nat)
    requires |x0| == |x| && i < |x| && z <= i && Apart(x0, i)
    requires forall k :: 0 <= k < i ==> x[k] == x0[k] && (x0[k] != 0 ==> k + 5 <= z)
    ensures Apart(x, i + 1)
  {}

  /** slide: the digits stand for the scalar, or for 2^256 less if a carry runs over the last one. */
  method Recode(a: seq<Byte>) returns (r: array<Schar>)
    requires |a| == 32
    ensures fresh(r) && r.Length == 256 && Value(r[..]) == Recoded(Le(a))
    ensures Apart(r[..], 256) && forall k :: 0 <= k < 256 ==> SlideDigit(r[k])
  {
    hide *;
    r := Unpack(a);
    ghost var v, z, lost := Le(a), 0, false;
    SlideStart(r[..], v);
    var i := 0;
    while i < 256
      invariant 0 <= i <= 256 && 0 <= z && Sliding(r[..], i, z, v, lost)
    {
      ghost var x: seq<int> := r[..];
      SlidingDigit(x, i, z, v, lost);
      if r[i] != 0 {
        ghost var over := Take(r, i);
        NextWindow(x, r[..], i, z, v, lost, over);
        z, lost := i + 5, over;
      } else {
        SkipZero(x, i, z, v, lost);
      }
      i := i + 1;
    }
    SlideEnd(r[..], z, v, lost);
  }

  lemma SlideEnd(x: seq<int>, z: nat, v: nat, lost: bool)
    requires Sliding(x, 256, z, v, lost)
    ensures Value(x) == Recoded(v) && Apart(x, 256) && forall k :: 0 <= k < 256 ==> SlideDigit(x[k])
  {
    var n: nat :| n == 255;
    HalfPower(n);
    hide Value, Pow2;
  }
}
