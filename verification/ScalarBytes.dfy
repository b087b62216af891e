/** Scalars between bytes and limbs of 21 bits. */
module ScalarBytes {
  import opened Arith
  import opened Gf2Poly
  import opened Crc
  import opened Limbs
  import opened ByteNumber
  import opened ScalarSteps

  /** Limb i begins in this byte .. */
  function At(i: nat): nat {
    21 * i / 8
  }

  /** .. behind so many bits of it. */
  function Skip(i: nat): nat {
    21 * i % 8
  }

  /** The number from limb i on. */
  function Quot(s: seq<Byte>, i: nat): int
    requires At(i) <= |s|
  {
    Le(s[At(i)..]) / Pow2(Skip(i))
  }

  lemma Places(i: nat)
    ensures 8 * At(i) + Skip(i) == 21 * i && Skip(i) < 8
    ensures At(i) <= At(i + 1) && 8 * (At(i + 1) - At(i)) + Skip(i + 1) == Skip(i) + 21
  {}

  lemma RadixPower()
    ensures Pow2(21) == RADIX
  {
    assert Pow2(8) == 256;
    assert Pow2(16) == 65536;
  }

  /** The powers that lead from one limb to the next. */
  lemma NextPower(i: nat)
    ensures At(i) <= At(i + 1)
    ensures Pow2(Skip(i)) * RADIX == Pow2(8 * (At(i + 1) - At(i))) * Pow2(Skip(i + 1))
  {
    Places(i);
    RadixPower();
    PowAdd(Skip(i), 21);
    PowAdd(8 * (At(i + 1) - At(i)), Skip(i + 1));
  }

  lemma QuotStep(s: seq<Byte>, i: nat)
    requires At(i + 1) <= |s|
    ensures At(i) <= |s| && Quot(s, i) / RADIX == Quot(s, i + 1)
  {
    NextPower(i);
    hide Pow2, At, Skip;
    var t, n := s[At(i)..], At(i + 1) - At(i);
    LeSplit(t, n);
    LeBelow(t[..n]);
    assert t[n..] == s[At(i + 1)..];
    DivDrop(Pow2(8 * n), Le(t[n..]), Le(t[..n]));
    DivDiv(Le(t), Pow2(Skip(i)), RADIX);
    DivDiv(Le(t), Pow2(8 * n), Pow2(Skip(i + 1)));
  }

  /** The bits of limb i, out of w bytes that contain them. */
  lemma LimbLoaded(s: seq<Byte>, i: nat, w: nat)
    requires At(i) + w <= |s| && Skip(i) + 21 <= 8 * w
    ensures Le(s[At(i)..At(i) + w]) / Pow2(Skip(i)) % RADIX == Quot(s, i) % RADIX
  {
    var t := s[At(i)..];
    var a, e := Pow2(Skip(i)), Pow2(8 * w - Skip(i) - 21);
    LimbPower(Skip(i), w);
    hide Pow2, At, Skip;
    LeSplit(t, w);
    assert t[..w] == s[At(i)..At(i) + w];
    BitsBelow(Le(t[..w]), a, RADIX, e, Le(t[w..]));
  }

  lemma LimbPower(k: nat, w: nat)
    requires k + 21 <= 8 * w
    ensures Pow2(8 * w) == Pow2(k) * (RADIX * Pow2(8 * w - k - 21))
  {
    RadixPower();
    PowAdd(21, 8 * w - k - 21);
    PowAdd(k, 8 * w - k);
  }

  /** 2097151 & (load_3(s + at) >> k), with d = 2^k */
  function Cut3(s: seq<Byte>, at: nat, d: nat): Int64
    requires at + 3 <= |s| && d > 0
  {
    Load3(s, at) / d % 0x20_0000
  }

  /** 2097151 & (load_4(s + at) >> k), with d = 2^k */
  function Cut4(s: seq<Byte>, at: nat, d: nat): Int64
    requires at + 4 <= |s| && d > 0
  {
    Load4(s, at) / d % 0x20_0000
  }

  lemma SmallPowers()
    ensures Pow2(0) == 1 && Pow2(1) == 2 && Pow2(2) == 4 && Pow2(3) == 8
    ensures Pow2(4) == 16 && Pow2(5) == 32 && Pow2(6) == 64 && Pow2(7) == 128
  {}

  lemma Cut3Is(s: seq<Byte>, i: nat, at: nat, k: nat, d: nat)
    requires at + 3 <= |s| && at == At(i) && k == Skip(i) <= 3 && d == Pow2(k)
    ensures Cut3(s, at, d) == Quot(s, i) % RADIX
  {
    hide Pow2, At, Skip;
    Load3Value(s, at);
    LimbLoaded(s, i, 3);
  }

  lemma Cut4Is(s: seq<Byte>, i: nat, at: nat, k: nat, d: nat)
    requires at + 4 <= |s| && at == At(i) && k == Skip(i) <= 7 && d == Pow2(k)
    ensures Cut4(s, at, d) == Quot(s, i) % RADIX
  {
    hide Pow2, At, Skip;
    Load4Value(s, at);
    LimbLoaded(s, i, 4);
  }

  /** Limbs i to j - 1 are those of the bytes. */
  ghost predicate LimbsOf(s: seq<Byte>, x: seq<int>, i: nat, j: nat) {
    j <= |x| && forall k: nat :: i <= k < j ==> At(k) <= |s| && x[k] == Quot(s, k) % RADIX
  }

  /** Seven limbs whose first one begins with byte `at`. */
  method LoadSeven(s: seq<Byte>, x: array<Int64>, ghost g: nat, i: nat, at: nat)
    requires i == 8 * g && at == 21 * g && at + 19 <= |s| && i + 7 <= x.Length
    modifies x
    ensures LimbsOf(s, x[..], i, i + 7)
    ensures forall j :: 0 <= j < x.Length && !(i <= j < i + 7) ==> x[j] == old(x[j])
  {
    SevenLimbs(s, g);
    x[i] := Cut3(s, at, 1);
    x[i + 1] := Cut4(s, at + 2, 32);
    x[i + 2] := Cut3(s, at + 5, 4);
    x[i + 3] := Cut4(s, at + 7, 128);
    x[i + 4] := Cut4(s, at + 10, 16);
    x[i + 5] := Cut3(s, at + 13, 2);
    x[i + 6] := Cut4(s, at + 15, 64);
    SevenDone(s, x[..], i, at);
  }

  lemma GroupPlaces(g: nat, k: nat)
    requires k < 8
    ensures At(8 * g + k) == 21 * g + At(k) && Skip(8 * g + k) == Skip(k)
  {}

  ghost predicate SevenAre(s: seq<Byte>, i: nat, at: nat)
    requires at + 19 <= |s|
  {
    && at <= |s| - 19 && At(i) == at && At(i + 1) == at + 2 && At(i + 2) == at + 5 && At(i + 3) == at + 7
    && At(i + 4) == at + 10 && At(i + 5) == at + 13 && At(i + 6) == at + 15
    && Cut3(s, at, 1) == Quot(s, i) % RADIX && Cut4(s, at + 2, 32) == Quot(s, i + 1) % RADIX
    && Cut3(s, at + 5, 4) == Quot(s, i + 2) % RADIX && Cut4(s, at + 7, 128) == Quot(s, i + 3) % RADIX
    && Cut4(s, at + 10, 16) == Quot(s, i + 4) % RADIX && Cut3(s, at + 13, 2) == Quot(s, i + 5) % RADIX
    && Cut4(s, at + 15, 64) == Quot(s, i + 6) % RADIX
  }

  lemma SevenLimbs(s: seq<Byte>, g: nat)
    requires 21 * g + 19 <= |s|
    ensures SevenAre(s, 8 * g, 21 * g)
  {
    var i, at := 8 * g, 21 * g;
    SmallPowers();
    hide Pow2, Quot, Cut3, Cut4;
    GroupPlaces(g, 0); GroupPlaces(g, 1); GroupPlaces(g, 2); GroupPlaces(g, 3);
    GroupPlaces(g, 4); GroupPlaces(g, 5); GroupPlaces(g, 6);
    FirstPlaces();
    hide At, Skip;
    Cut3Is(s, i, at, 0, 1); Cut4Is(s, i + 1, at + 2, 5, 32); Cut3Is(s, i + 2, at + 5, 2, 4);
    Cut4Is(s, i + 3, at + 7, 7, 128); Cut4Is(s, i + 4, at + 10, 4, 16); Cut3Is(s, i + 5, at + 13, 1, 2);
    Cut4Is(s, i + 6, at + 15, 6, 64);
  }

  lemma FirstPlaces()
    ensures At(0) == 0 && At(1) == 2 && At(2) == 5 && At(3) == 7 && At(4) == 10 && At(5) == 13 && At(6) == 15
      && At(7) == 18
    ensures Skip(0) == 0 && Skip(1) == 5 && Skip(2) == 2 && Skip(3) == 7 && Skip(4) == 4 && Skip(5) == 1
    ensures Skip(6) == 6 && Skip(7) == 3
  {}

  lemma SevenDone(s: seq<Byte>, x: seq<int>, i: nat, at: nat)
    requires at + 19 <= |s| && SevenAre(s, i, at) && i + 7 <= |x|
    requires x[i] == Cut3(s, at, 1) && x[i + 1] == Cut4(s, at + 2, 32) && x[i + 2] == Cut3(s, at + 5, 4)
    requires x[i + 3] == Cut4(s, at + 7, 128) && x[i + 4] == Cut4(s, at + 10, 16) && x[i + 5] == Cut3(s, at + 13, 2)
    requires x[i + 6] == Cut4(s, at + 15, 64)
    ensures LimbsOf(s, x, i, i + 7)
  {
    hide At, Cut3, Cut4, Quot;
    forall k: nat | i <= k < i + 7 ensures At(k) <= |s| && x[k] == Quot(s, k) % RADIX {
      assert k == i || k == i + 1 || k == i + 2 || k == i + 3 || k == i + 4 || k == i + 5 || k == i + 6;
    }
  }

  lemma LimbsPut(s: seq<Byte>, x: seq<int>, y: seq<int>, i: nat, j: nat)
    requires LimbsOf(s, x, i, j) && i <= j < |y| && |x| == |y|
    requires forall k :: i <= k < j ==> y[k] == x[k]
    requires At(j) <= |s| && y[j] == Quot(s, j) % RADIX
    ensures LimbsOf(s, y, i, j + 1)
  {}

  lemma LimbsJoin(s: seq<Byte>, x: seq<int>, y: seq<int>, i: nat, j: nat, n: nat)
    requires LimbsOf(s, x, i, j) && LimbsOf(s, y, j, n) && i <= j && |x| == |y|
    requires forall k :: i <= k < j ==> y[k] == x[k]
    ensures LimbsOf(s, y, i, n)
  {
    hide At, Quot;
    forall k: nat | i <= k < n ensures At(k) <= |s| && y[k] == Quot(s, k) % RADIX {}
  }

  /** Eight limbs. */
  method LoadEight(s: seq<Byte>, x: array<Int64>, ghost g: nat, i: nat, at: nat)
    requires i == 8 * g && at == 21 * g && at + 21 <= |s| && i + 8 <= x.Length
    requires LimbsOf(s, x[..], 0, i)
    modifies x
    ensures LimbsOf(s, x[..], 0, i + 8)
    ensures forall j :: i + 8 <= j < x.Length ==> x[j] == old(x[j])
  {
    ghost var x0: seq<int> := x[..];
    LoadSeven(s, x, g, i, at);
    ghost var x1: seq<int> := x[..];
    LimbsJoin(s, x0, x1, 0, i, i + 7);
    EighthLimb(s, g);
    x[i + 7] := Cut3(s, at + 18, 8);
    LimbsPut(s, x1, x[..], 0, i + 7);
  }

  lemma EighthLimb(s: seq<Byte>, g: nat)
    requires 21 * g + 21 <= |s|
    ensures At(8 * g + 7) == 21 * g + 18 <= |s|
    ensures Cut3(s, 21 * g + 18, 8) == Quot(s, 8 * g + 7) % RADIX
  {
    SmallPowers();
    hide Pow2, Quot, Cut3;
    GroupPlaces(g, 7);
    FirstPlaces();
    Cut3Is(s, 8 * g + 7, 21 * g + 18, 3, 8);
  }

  /** The limbs of 64 bytes. */
  method LoadWide(s: seq<Byte>) returns (x: array<Int64>)
    requires |s| == 64
    ensures fresh(x) && x.Length == 24 && Val(x[..]) == Le(s)
    ensures (forall i :: 0 <= i < 23 ==> 0 <= x[i] < RADIX) && 0 <= x[23] < 0x2000_0000
  {
    hide At, Quot, Cut3, Cut4, Val;
    x := new Int64[24](_ => 0);
    LoadEight(s, x, 0, 0, 0);
    LoadEight(s, x, 1, 8, 21);
    ghost var x2: seq<int> := x[..];
    LoadSeven(s, x, 2, 16, 42);
    LimbsJoin(s, x2, x[..], 0, 16, 23);
    ghost var x3: seq<int> := x[..];
    LastWide(s);
    x[23] := Load4(s, 60) / 8;
    LoadedVal(s, x3, x[..], 23);
  }

  lemma LastWide(s: seq<Byte>)
    requires |s| == 64
    ensures At(23) == 60 && Load4(s, 60) / 8 == Quot(s, 23) && 0 <= Load4(s, 60) / 8 < 0x2000_0000
  {
    SmallPowers();
    Load4Value(s, 60);
    assert s[60..64] == s[60..];
    assert Skip(23) == 3;
  }

  /** The limbs of 32 bytes. */
  method LoadScalar(s: seq<Byte>) returns (x: array<Int64>)
    requires |s| == 32
    ensures fresh(x) && x.Length == 12 && Val(x[..]) == Le(s)
    ensures (forall i :: 0 <= i < 11 ==> 0 <= x[i] < RADIX) && 0 <= x[11] < 0x200_0000
  {
    hide At, Quot, Cut3, Cut4, Val;
    x := new Int64[12](_ => 0);
    LoadEight(s, x, 0, 0, 0);
    NinthLimbs(s);
    ghost var x0: seq<int> := x[..];
    x[8] := Cut3(s, 21, 1);
    ghost var x1: seq<int> := x[..];
    LimbsPut(s, x0, x1, 0, 8);
    x[9] := Cut4(s, 23, 32);
    ghost var x2: seq<int> := x[..];
    LimbsPut(s, x1, x2, 0, 9);
    x[10] := Cut3(s, 26, 4);
    ghost var x3: seq<int> := x[..];
    LimbsPut(s, x2, x3, 0, 10);
    LastNarrow(s);
    x[11] := Load4(s, 28) / 128;
    LoadedVal(s, x3, x[..], 11);
  }

  lemma NinthLimbs(s: seq<Byte>)
    requires |s| == 32
    ensures At(8) == 21 && At(9) == 23 && At(10) == 26 && At(11) == 28
    ensures Cut3(s, 21, 1) == Quot(s, 8) % RADIX && Cut4(s, 23, 32) == Quot(s, 9) % RADIX
    ensures Cut3(s, 26, 4) == Quot(s, 10) % RADIX
  {
    SmallPowers();
    Cut3Is(s, 8, 21, 0, 1); Cut4Is(s, 9, 23, 5, 32); Cut3Is(s, 10, 26, 2, 4);
  }

  lemma LastNarrow(s: seq<Byte>)
    requires |s| == 32
    ensures At(11) == 28 && Load4(s, 28) / 128 == Quot(s, 11) && 0 <= Load4(s, 28) / 128 < 0x200_0000
  {
    SmallPowers();
    Load4Value(s, 28);
    assert s[28..32] == s[28..];
    assert Skip(11) == 7;
  }

  /** Limbs with everything above them in the last one make the number of the bytes. */
  lemma LoadedVal(s: seq<Byte>, x: seq<int>, y: seq<int>, n: nat)
    requires LimbsOf(s, x, 0, n) && |y| == |x| == n + 1 && forall i :: 0 <= i < n ==> y[i] == x[i]
    requires At(n) <= |s| && y[n] == Quot(s, n)
    ensures Val(y) == Le(s) && forall i :: 0 <= i < n ==> 0 <= y[i] < RADIX
  {
    FirstQuot(s);
    hide At, Quot, From;
    forall i | 0 <= i < n ensures 0 <= y[i] < RADIX {
      assert x[i] == Quot(s, i) % RADIX;
    }
    LoadedFrom(s, y, 0, n);
    assert Val(y) == From(y, 0);
  }

  lemma FirstQuot(s: seq<Byte>)
    ensures At(0) == 0 && Quot(s, 0) == Le(s)
  {
    assert s[0..] == s && Pow2(Skip(0)) == 1;
  }

  lemma {:induction false} LoadedFrom(s: seq<Byte>, y: seq<int>, i: nat, n: nat)
    requires i <= n && LimbsOf(s, y, 0, n) && |y| == n + 1 && At(n) <= |s| && y[n] == Quot(s, n)
    ensures At(i) <= |s| && From(y, i) == Quot(s, i)
    decreases n - i
  {
    hide At, Quot;
    if i < n {
      LoadedFrom(s, y, i + 1, n);
      assert y[i] == Quot(s, i) % RADIX;
      QuotStep(s, i);
      DivParts(Quot(s, i), RADIX);
    } else {
      assert From(y, i) == y[n] + RADIX * From(y, n + 1);
    }
  }
}
