/** Field elements from bytes and into bytes. */
module FieldBytes {
  import opened Arith
  import opened Gf2Poly
  import opened Crc
  import opened ByteNumber
  import opened FieldLimbs
  import opened FieldCarry
  import opened FieldStore
  import opened FieldOps

  // ---------- from bytes ----------

  /** Bytes i to k - 1, taken apart at j. */
  lemma LeCut(s: seq<Byte>, i: nat, j: nat, k: nat)
    requires i <= j <= k <= |s|
    ensures Le(s[i..k]) == Le(s[i..j]) + Pow2(8 * (j - i)) * Le(s[j..k])
  {
    var t := s[i..k];
    LeSplit(t, j - i);
    assert t[..j - i] == s[i..j] && t[j - i..] == s[j..k];
  }

  lemma Power24()
    ensures Pow2(24) == 0x100_0000 && Pow2(32) == 0x1_0000_0000
  {
    Powers();
    hide Pow2;
    PowAdd(16, 16);
  }

  /** The pieces that fe_frombytes loads, and how they make the number. */
  lemma Pieces(s: seq<Byte>)
    requires |s| == 32
    ensures Le(s) == Load4(s, 0) + 0x1_0000_0000 * (Load3(s, 4) + 0x100_0000 * (Load3(s, 7) + 0x100_0000 * (Load3(s, 10)
      + 0x100_0000 * (Load3(s, 13) + 0x100_0000 * Le(s[16..32])))))
  {
    assert s[0..32] == s;
    Power24();
    hide Le, Pow2, Load3, Load4;
    Load4Value(s, 0); Load3Value(s, 4);
    LeCut(s, 0, 4, 32); LeCut(s, 4, 7, 32);
    MiddlePieces(s);
  }

  lemma MiddlePieces(s: seq<Byte>)
    requires |s| == 32
    ensures Le(s[7..32]) == Load3(s, 7)
      + 0x100_0000 * (Load3(s, 10) + 0x100_0000 * (Load3(s, 13) + 0x100_0000 * Le(s[16..32])))
  {
    Power24();
    hide Le, Pow2, Load3, Load4;
    Load3Value(s, 7); Load3Value(s, 10); Load3Value(s, 13);
    LeCut(s, 7, 10, 32); LeCut(s, 10, 13, 32); LeCut(s, 13, 16, 32);
  }

  lemma HighPieces(s: seq<Byte>)
    requires |s| == 32
    ensures Le(s[16..32]) == Load4(s, 16)
      + 0x1_0000_0000 * (Load3(s, 20) + 0x100_0000 * (Load3(s, 23) + 0x100_0000 * (Load3(s, 26)
      + 0x100_0000 * Load3(s, 29))))
    ensures 0 <= Load3(s, 29) < 0x100_0000
  {
    Power24();
    hide Le, Pow2, Load3, Load4;
    Load4Value(s, 16); Load3Value(s, 20); Load3Value(s, 23); Load3Value(s, 26); Load3Value(s, 29);
    LeCut(s, 16, 20, 32); LeCut(s, 20, 23, 32); LeCut(s, 23, 26, 32); LeCut(s, 26, 29, 32);
  }

  /** The limbs that are loaded, before any carry. */
  function Loaded(s: seq<Byte>): (x: seq<int>)
    requires |s| == 32
    ensures |x| == 10
  {
    [Load4(s, 0), Load3(s, 4) * 64, Load3(s, 7) * 32, Load3(s, 10) * 8, Load3(s, 13) * 4,
     Load4(s, 16), Load3(s, 20) * 128, Load3(s, 23) * 32, Load3(s, 26) * 16, Load3(s, 29) % 0x80_0000 * 4]
  }

  /** The top bit is not loaded. */
  lemma LoadedVal(s: seq<Byte>)
    requires |s| == 32
    ensures Val(Loaded(s)) == Le(s) % TOP
  {
    Pieces(s); HighPieces(s);
    ValTen(Loaded(s));
    LoadedDigits(s);
    hide Val, Load3, Load4, Le;
    var t := Load3(s, 29);
    DivParts(t, 0x80_0000);
    QuotientIs(Le(s), TOP, t / 0x80_0000, Val(Loaded(s)));
  }

  /** What is loaded lies below 2^255. */
  lemma LoadedDigits(s: seq<Byte>)
    requires |s| == 32
    ensures 0 <= Val(Loaded(s)) < TOP
  {
    ValTen(Loaded(s));
    Load4Value(s, 0); Load3Value(s, 4); Load3Value(s, 7); Load3Value(s, 10); Load3Value(s, 13);
    Load4Value(s, 16); Load3Value(s, 20); Load3Value(s, 23); Load3Value(s, 26); Load3Value(s, 29);
    hide Val, Load3, Load4, Le;
  }

  /** fe_frombytes: the number of the bytes without their top bit. */
  method FeFromBytes(h: array<Int32>, s: seq<Byte>)
    requires h.Length == 10 && |s| == 32
    modifies h
    ensures Product(h[..]) && Congruent(Val(h[..]), Le(s) % TOP, PRIME)
  {
    LoadedWords(s);
    LoadedVal(s);
    hide Val, Le, Loaded;
    var t := Words(Loaded(s));
    ghost var v := Val(t[..]);
    ghost var q := CarryLoaded(t);
    PutLimbs(h, t);
    Reduced(Val(h[..]), v, q, 0);
  }

  lemma LoadedSize(s: seq<Byte>)
    requires |s| == 32
    ensures Load4(s, 0) <= 0x1_0000_0000 && Load4(s, 16) <= 0x1_0000_0000
    ensures Load3(s, 4) < 0x100_0000 && Load3(s, 7) < 0x100_0000 && Load3(s, 10) < 0x100_0000
      && Load3(s, 13) < 0x100_0000
    ensures Load3(s, 20) < 0x100_0000 && Load3(s, 23) < 0x100_0000 && Load3(s, 26) < 0x100_0000
  {
    hide Le, Load3, Load4;
    Load4Value(s, 0); Load3Value(s, 4); Load3Value(s, 7); Load3Value(s, 10); Load3Value(s, 13);
    Load4Value(s, 16); Load3Value(s, 20); Load3Value(s, 23); Load3Value(s, 26);
  }

  lemma LoadedWords(s: seq<Byte>)
    requires |s| == 32
    ensures forall i :: 0 <= i < 10 ==> 0 <= Loaded(s)[i] <= 0x1_0000_0000
  {
    LoadedSize(s);
    hide Load3, Load4;
  }

  /** Ten words in a new array. */
  method Words(x: seq<Int64>) returns (t: array<Int64>)
    requires |x| == 10
    ensures fresh(t) && t[..] == x
  {
    t := new Int64[10](i requires 0 <= i < 10 => x[i]);
  }

  /** The ten carries behind loading. */
  method CarryLoaded(h: array<Int64>) returns (ghost q: int)
    requires h.Length == 10 && forall i :: 0 <= i < 10 ==> 0 <= h[i] <= 0x1_0000_0000
    modifies h
    ensures Product(h[..]) && Val(h[..]) == Val(old(h[..])) - PRIME * q
  {
    hide Val, CarryOne, CarryTop;
    q := CarryLast(h, 0x80);
    CarryAt(h, 1, 0x80);
    CarryAt(h, 3, 0x80);
    CarryAt(h, 5, 0x80);
    CarryAt(h, 7, 0x80);
    CarryAt(h, 0, 0x80);
    CarryAt(h, 2, 0x80);
    CarryAt(h, 4, 0x80);
    CarryAt(h, 6, 0x80);
    CarryAt(h, 8, 0x80);
  }

  // ---------- into bytes ----------

  /** The product of the radices from limb i on. */
  function Prod(i: nat): (p: nat)
    requires i <= 10
    ensures p > 0
    decreases 10 - i
  {
    if i == 10 then 1 else Radix(i) * Prod(i + 1)
  }

  lemma ProdAll(i: nat)
    requires i == 0
    ensures Prod(i) == TOP
  {
    assert Prod(i + 6) == 0x400_0000 * Prod(i + 7);
    assert Prod(i + 7) == 0x200_0000 * Prod(i + 8);
    assert Prod(i + 8) == 0x400_0000 * Prod(i + 9);
    assert Prod(i + 9) == 0x200_0000 * Prod(i + 10);
    assert Prod(i + 5) == 0x200_0000 * Prod(i + 6);
    assert Prod(i + 4) == 0x400_0000 * Prod(i + 5);
    assert Prod(i + 3) == 0x200_0000 * Prod(i + 4);
    assert Prod(i + 2) == 0x400_0000 * Prod(i + 3);
    assert Prod(i + 1) == 0x200_0000 * Prod(i + 2);
    assert Prod(i) == 0x400_0000 * Prod(i + 1);
  }

  /** What goes out of the last limb when c comes into limb i. */
  function Out(x: seq<int>, i: nat, c: int): int
    requires i <= |x|
    decreases |x| - i
  {
    if i == |x| then c else Out(x, i + 1, (x[i] + c) / Radix(i))
  }

  /** It is the quotient of the whole number. */
  lemma {:induction false} OutIsQuotient(x: seq<int>, i: nat, c: int) returns (r: int)
    requires |x| == 10 && i <= 10
    ensures From(x, i) + c == Prod(i) * Out(x, i, c) + r && 0 <= r < Prod(i)
    decreases 10 - i
  {
    if i == 10 {
      r := 0;
    } else {
      var d, rho := (x[i] + c) / Radix(i), (x[i] + c) % Radix(i);
      DivParts(x[i] + c, Radix(i));
      var s := OutIsQuotient(x, i + 1, d);
      r := Radix(i) * s + rho;
      hide From, Prod, Out;
      assert From(x, i) == x[i] + Radix(i) * From(x, i + 1) by { FromStep(x, i); }
      ProdStep(i); OutStep(x, i, c);
      QuotientSum(Radix(i), From(x, i + 1), d, Prod(i + 1), Out(x, i + 1, d), s, rho);
    }
  }

  lemma FromStep(x: seq<int>, i: nat)
    requires i < |x|
    ensures From(x, i) == x[i] + Radix(i) * From(x, i + 1)
  {}

  lemma ProdStep(i: nat)
    requires i < 10
    ensures Prod(i) == Radix(i) * Prod(i + 1)
  {}

  lemma OutStep(x: seq<int>, i: nat, c: int)
    requires i < |x|
    ensures Out(x, i, c) == Out(x, i + 1, (x[i] + c) / Radix(i))
  {}

  lemma QuotientSum(n: int, f: int, d: int, p: int, o: int, s: int, rho: int)
    requires f + d == p * o + s && 0 <= s < p && 0 <= rho < n
    ensures n * f + n * d + rho == n * p * o + (n * s + rho) && 0 <= n * s + rho < n * p
  {
    MulMinus(n, f, -d);
    ByteNumber.MulAssoc(n, p, o);
    MulMinus(n, p * o, -s);
    MulMonotone(n, s, p - 1); MulMonotone(n, 0, s);
    MulMinus(n, p, 1);
  }

  /** The estimate that begins with the top limb is the quotient by the prime. */
  lemma BasicClaim(h: int, h9: int, l: int, q0: int, q: int, r: int)
    requires h == 0x40_0000_0000_0000_0000_0000_0000_0000_0000_0000_0000_0000_0000_0000_0000 * h9 + l
    requires -0x80_0000_0000_0000_0000_0000_0000_0000_0000_0000_0000_0000_0000_0000_0000 < l
    requires l < 0x80_0000_0000_0000_0000_0000_0000_0000_0000_0000_0000_0000_0000_0000_0000
    requires -36909875 <= h9 <= 36909875
    requires q0 == (19 * h9 + 0x100_0000) / 0x200_0000
    requires h + q0 == TOP * q + r && 0 <= r < TOP
    ensures q == h / PRIME
  {
    DivParts(h, PRIME);
    DivParts(19 * h9 + 0x100_0000, 0x200_0000);
    var quo, rem := h / PRIME, h % PRIME;
    Claim(h, h9, l, q0, (19 * h9 + 0x100_0000) % 0x200_0000, quo, rem);
    QuotientUnique(h + q0, TOP, q, r, quo, rem + q0 - 19 * quo);
  }

  lemma Claim(h: int, h9: int, l: int, q0: int, r0: int, quo: int, rem: int)
    requires h == 0x40_0000_0000_0000_0000_0000_0000_0000_0000_0000_0000_0000_0000_0000_0000 * h9 + l
    requires -0x80_0000_0000_0000_0000_0000_0000_0000_0000_0000_0000_0000_0000_0000_0000 < l
    requires l < 0x80_0000_0000_0000_0000_0000_0000_0000_0000_0000_0000_0000_0000_0000_0000
    requires -36909875 <= h9 <= 36909875
    requires 19 * h9 + 0x100_0000 == 0x200_0000 * q0 + r0 && 0 <= r0 < 0x200_0000
    requires h == PRIME * quo + rem && 0 <= rem < PRIME
    ensures h + q0 == TOP * quo + (rem + q0 - 19 * quo) && 0 <= rem + q0 - 19 * quo < TOP
  {
    assert -3 <= quo <= 2;
    assert 0 <= q0 - 19 * quo <= 19;
  }

  /** The limbs below the last one. */
  lemma LowLimbs(x: seq<int>)
    requires Sum(x)
    ensures var l := Val(x) - 0x40_0000_0000_0000_0000_0000_0000_0000_0000_0000_0000_0000_0000_0000_0000 * x[9];
      -0x80_0000_0000_0000_0000_0000_0000_0000_0000_0000_0000_0000_0000_0000_0000 < l
      && l < 0x80_0000_0000_0000_0000_0000_0000_0000_0000_0000_0000_0000_0000_0000_0000
  {
    ValTen(x);
    hide Val;
  }

  /** 1.1 * 2^26 and 1.1 * 2^25. */
  function Limit(i: nat): int {
    if i % 2 == 0 then 73819750 else 36909875
  }

  lemma SumLimit(x: seq<int>)
    requires Sum(x)
    ensures |x| == 10 && forall i :: 0 <= i < 10 ==> Within(x[i], Limit(i))
  {}

  /** What goes from a limb into the next one. */
  method ShiftOut(v: Int32, q: Int32, i: nat) returns (r: Int32)
    requires Within(v, Limit(i)) && -21 <= q <= 21
    ensures r == (v + q) / Radix(i) && -2 <= r <= 1
  {
    r := v + q;
    r := r / Radix(i);
  }

  /** The first estimate comes from the last limb. */
  method Estimate(x: seq<Int32>) returns (q: Int32)
    requires Sum(x)
    ensures q == (19 * x[9] + 0x100_0000) / 0x200_0000 && -21 <= q <= 21
  {
    q := 19 * x[9] + 0x100_0000;
    q := q / 0x200_0000;
  }

  /** Through five limbs. */
  method ShiftFive(x: seq<Int32>, q: Int32, i: nat) returns (r: Int32)
    requires |x| == 10 && i + 5 <= 10 && -21 <= q <= 21 && forall j :: 0 <= j < 10 ==> Within(x[j], Limit(j))
    ensures Out(x, i, q) == Out(x, i + 5, r) && -2 <= r <= 1
  {
    hide Out, Radix, Limit, Within;
    OutStep(x, i, q);
    r := ShiftOut(x[i], q, i);
    OutStep(x, i + 1, r);
    r := ShiftOut(x[i + 1], r, i + 1);
    OutStep(x, i + 2, r);
    r := ShiftOut(x[i + 2], r, i + 2);
    OutStep(x, i + 3, r);
    r := ShiftOut(x[i + 3], r, i + 3);
    OutStep(x, i + 4, r);
    r := ShiftOut(x[i + 4], r, i + 4);
  }

  /** The first half of fe_tobytes: the quotient by the prime. */
  method Quotient(x: seq<Int32>) returns (q: Int32)
    requires Sum(x)
    ensures q == Val(x) / PRIME && -2 <= q <= 1
  {
    q := Estimate(x);
    ghost var q0 := q;
    hide Val, Out, Radix, Limit, Sum, Within;
    SumLimit(x);
    q := ShiftFive(x, q, 0);
    q := ShiftFive(x, q, 5);
    OutEnd(x, q);
    QuotientIsRight(x, q0, q);
  }

  lemma OutEnd(x: seq<int>, c: int)
    requires |x| == 10
    ensures Out(x, 10, c) == c
  {}

  lemma QuotientIsRight(x: seq<int>, q0: int, q: int)
    requires Sum(x) && q0 == (19 * x[9] + 0x100_0000) / 0x200_0000 && q == Out(x, 0, q0)
    ensures q == Val(x) / PRIME
  {
    LowLimbs(x);
    var r := OutIsQuotient(x, 0, q0);
    ProdAll(0);
    var h := Val(x);
    assert h == From(x, 0);
    hide Val, From, Out, Prod;
    BasicClaim(h, x[9], h - 0x40_0000_0000_0000_0000_0000_0000_0000_0000_0000_0000_0000_0000_0000_0000 * x[9],
               q0, q, r);
  }

  /** One carry, rounded down. */
  method CarryFloor(h: array<Int32>, i: nat)
    requires h.Length == 10 && i < 9 && Within(h[i], Limit(i) + 50) && Within(h[i + 1], Limit(i + 1))
    modifies h
    ensures 0 <= h[i] < Radix(i) && Near(h[i + 1], old(h[i + 1]), 2)
    ensures forall j :: 0 <= j < 10 && j != i && j != i + 1 ==> h[j] == old(h[j])
    ensures Val(h[..]) == Val(old(h[..]))
  {
    ghost var x: seq<int> := h[..];
    var carry: Int32 := h[i] / Radix(i);
    DivParts(h[i], Radix(i));
    assert -2 <= carry <= 1;
    CarryFrom(x, i, carry, 0);
    hide Val;
    h[i + 1] := h[i + 1] + carry;
    var back: Int32 := carry * Radix(i);
    h[i] := h[i] - back;
    assert h[..] == Carry(x, i, carry);
  }

  /** The last carry leaves the number. */
  method DropTop(h: array<Int32>) returns (ghost c: int)
    requires h.Length == 10
    modifies h
    ensures 0 <= h[9] < 0x200_0000
    ensures forall j :: 0 <= j < 9 ==> h[j] == old(h[j])
    ensures Val(h[..]) == Val(old(h[..])) - TOP * c
  {
    ghost var x: seq<int> := h[..];
    var carry: Int32 := h[9] / 0x200_0000;
    c := carry;
    DivParts(h[9], 0x200_0000);
    var back := carry * 0x200_0000;
    h[9] := h[9] - back;
    ValTen(x);
    ValTen(h[..]);
    hide Val;
  }

  /** The ten carries before the bytes are written. */
  method CarryDown(h: array<Int32>) returns (ghost c: int)
    requires h.Length == 10 && Within(h[0], Limit(0) + 50)
    requires forall i :: 1 <= i < 10 ==> Within(h[i], Limit(i))
    modifies h
    ensures Digits(h[..]) && Val(h[..]) == Val(old(h[..])) - TOP * c
  {
    hide Val;
    CarryFloor(h, 0);
    CarryFloor(h, 1);
    CarryFloor(h, 2);
    CarryFloor(h, 3);
    CarryFloor(h, 4);
    CarryFloor(h, 5);
    CarryFloor(h, 6);
    CarryFloor(h, 7);
    CarryFloor(h, 8);
    c := DropTop(h);
  }

  /** Digits make a number below 2^255. */
  lemma DigitsBelow(x: seq<int>)
    requires Digits(x)
    ensures 0 <= Val(x) < TOP
  {
    ValTen(x);
    hide Val;
  }

  lemma AddFirst(x: seq<int>, y: seq<int>, d: int)
    requires |x| == 10 && y == x[0 := x[0] + d]
    ensures Val(y) == Val(x) + d
  {
    SameFrom(x, y, 1);
  }

  /** Nineteen times the quotient is added, 2^255 times it is taken away. */
  lemma Canonical(v: int, q: int, c: int, d: int)
    requires q == v / PRIME && d == v + 19 * q - TOP * c && 0 <= d < TOP
    ensures d == v % PRIME
  {
    DivParts(v, PRIME);
    QuotientUnique(v + 19 * q, TOP, c, d, q, v % PRIME);
  }

  /** fe_tobytes: the bytes of the remainder modulo 2^255 - 19. */
  method FeToBytes(s: array<Byte>, f: array<Int32>)
    requires s.Length == 32 && f.Length == 10 && Sum(f[..])
    modifies s
    ensures Le(s[..]) == Val(f[..]) % PRIME
  {
    ghost var x: seq<int> := f[..];
    var q := Quotient(f[..]);
    var h := new Int32[10](i requires 0 <= i < 10 reads f => f[i]);
    SumLimit(x);
    assert h[..] == x;
    h[0] := h[0] + 19 * q;
    AddFirst(x, h[..], 19 * q);
    hide Val, Sum, Limit, Le;
    ghost var c := CarryDown(h);
    DigitsBelow(h[..]);
    hide Digits;
    Canonical(Val(x), q, c, Val(h[..]));
    StoreDigits(s, h[..]);
  }

  // ---------- there and back ----------

  /** Strings of the same length with the same number are the same. */
  lemma {:induction false} LeOnce(s: seq<Byte>, t: seq<Byte>)
    requires |s| == |t| && Le(s) == Le(t)
    ensures s == t
  {
    if s != [] {
      var a: nat, b: nat := s[0], t[0];
      QuotientUnique(Le(s), 256, Le(s[1..]), a, Le(t[1..]), b);
      LeOnce(s[1..], t[1..]);
    }
  }

  /** Limbs that become bytes and are read again stand for the same element. */
  method ToBytesAndBack(h: array<Int32>, f: array<Int32>)
    requires h.Length == f.Length == 10 && Sum(f[..])
    modifies h
    ensures Product(h[..]) && Congruent(Val(h[..]), old(Val(f[..])), PRIME)
  {
    hide Val, Le, Sum, Product, Congruent;
    ghost var v := Val(f[..]);
    var s := new Byte[32];
    FeToBytes(s, f);
    FeFromBytes(h, s[..]);
    DivParts(v, PRIME);
    QuotientIs(v % PRIME, TOP, 0, v % PRIME);
    ModCongruent(v, PRIME);
    CongruentThen(Val(h[..]), v % PRIME, v, PRIME);
  }

  /**
    Bytes that become limbs and are written again are the same bytes exactly when they stand for a number
    below the prime.
  */
  method FromBytesAndBack(s: seq<Byte>) returns (t: array<Byte>)
    requires |s| == 32
    ensures t.Length == 32 && Le(t[..]) == Le(s) % TOP % PRIME
    ensures t[..] == s <==> Le(s) < PRIME
  {
    hide Val, Le;
    t := new Byte[32];
    var h := new Int32[10];
    FeFromBytes(h, s);
    FeToBytes(t, h);
    CanonicalBytes(s, t[..], Val(h[..]));
  }

  lemma CanonicalBytes(s: seq<Byte>, t: seq<Byte>, v: int)
    requires |s| == |t| && Congruent(v, Le(s) % TOP, PRIME) && Le(t) == v % PRIME
    ensures Le(t) == Le(s) % TOP % PRIME && (t == s <==> Le(s) < PRIME)
  {
    hide Le;
    var w := Le(s) % TOP;
    DivParts(v, PRIME);
    ModCongruent(v, PRIME);
    CongruentThen(v % PRIME, v, w, PRIME);
    CongruentMod(v % PRIME, w, PRIME);
    if Le(s) < PRIME {
      QuotientIs(Le(s), TOP, 0, Le(s));
      QuotientIs(w, PRIME, 0, w);
      LeOnce(s, t);
    }
  }
}
