/** Limbs of 21 bits, as digits, back into bytes. */
module ScalarStore {
  import opened Arith
  import opened Gf2Poly
  import opened Crc
  import opened Limbs
  import opened ByteNumber
  import opened ScalarSteps
  import ScalarBytes

  /** Byte k begins in this limb .. */
  function LimbAt(k: nat): nat {
    8 * k / 21
  }

  /** .. behind so many bits of it. */
  function BitAt(k: nat): nat {
    8 * k % 21
  }

  /** The number from byte k on. */
  function Above(x: seq<int>, k: nat): int
    requires LimbAt(k) <= |x|
  {
    From(x, LimbAt(k)) / Pow2(BitAt(k))
  }

  /** Digits below limb 11, and nothing negative from there on. */
  ghost predicate Digits(x: seq<int>) {
    && |x| == 24 && (forall i :: 0 <= i < 11 ==> 0 <= x[i] < RADIX)
    && 0 <= x[11] <= RADIX && forall i :: 12 <= i < 24 ==> x[i] == 0
  }

  lemma DigitsFrom(x: seq<int>, i: nat)
    requires Digits(x) && i <= 12
    ensures From(x, i) >= 0 && x[i] >= 0 && From(x, i) == x[i] + RADIX * From(x, i + 1) && From(x, i + 1) >= 0
    ensures i >= 11 ==> From(x, i + 1) == 0
    decreases 12 - i
  {
    if i < 12 { DigitsFrom(x, i + 1); } else { ZerosFrom(x, 12); ZerosFrom(x, 13); }
  }

  lemma Places(k: nat)
    ensures 21 * LimbAt(k) + BitAt(k) == 8 * k && BitAt(k) < 21
    ensures BitAt(k) < 13 ==> LimbAt(k + 1) == LimbAt(k) && BitAt(k + 1) == BitAt(k) + 8
    ensures BitAt(k) >= 13 ==> LimbAt(k + 1) == LimbAt(k) + 1 && BitAt(k + 1) == BitAt(k) - 13
  {}

  lemma AboveStep(x: seq<int>, k: nat)
    requires Digits(x) && k < 31
    ensures LimbAt(k) <= 11 && LimbAt(k + 1) <= 11 && Above(x, k) / 256 == Above(x, k + 1)
  {
    Places(k); Places(k + 1);
    hide LimbAt, BitAt, From, Pow2;
    var i, b := LimbAt(k), BitAt(k);
    DigitsFrom(x, i);
    StepPower(b);
    if b < 13 {
      DivDiv(From(x, i), Pow2(b), 256);
    } else {
      NextLimb(x[i], From(x, i + 1), Pow2(b), Pow2(b - 13));
    }
  }

  lemma StepPower(b: nat)
    ensures Pow2(b) * 256 == Pow2(b + 8)
    ensures b >= 13 ==> Pow2(b) * 256 == RADIX * Pow2(b - 13)
  {
    Powers();
    PowAdd(b, 8);
    if b >= 13 {
      PowAdd(21, b - 13);
      ScalarBytes.RadixPower();
    }
  }

  lemma NextLimb(v: nat, above: nat, d: nat, e: nat)
    requires v < RADIX && d > 0 && e > 0 && d * 256 == RADIX * e
    ensures (v + RADIX * above) / d / 256 == above / e
  {
    DivDiv(v + RADIX * above, d, 256);
    DivDrop(RADIX, above, v);
    DivDiv(v + RADIX * above, RADIX, e);
  }

  /** (unsigned char) (v >> k), with d = 2^k */
  function One(v: nat, d: nat): Byte
    requires d > 0
  {
    v / d % 256
  }

  /** (unsigned char) ((v >> k) | (w << j)), with d = 2^k */
  function Two(v: nat, d: nat, w: nat, j: nat): Byte
    requires d > 0
  {
    Or(Shl(w, j), v / d) % 256
  }

  lemma OneIs(x: seq<int>, k: nat, i: nat, b: nat, d: nat)
    requires Digits(x) && k < 31 && i == LimbAt(k) && b == BitAt(k) <= 13 && d == Pow2(b)
    ensures 0 <= i <= 11 && x[i] >= 0 && One(x[i], d) == Above(x, k) % 256
  {
    Places(k);
    hide LimbAt, BitAt, From;
    DigitsFrom(x, i);
    PowAdd(8, 13 - b); PowAdd(b, 21 - b);
    ScalarBytes.RadixPower();
    Powers();
    BitsBelow(x[i], d, 256, Pow2(13 - b), From(x, i + 1));
  }

  lemma TwoIs(x: seq<int>, k: nat, i: nat, b: nat, d: nat, j: nat)
    requires Digits(x) && k < 31 && i == LimbAt(k) && 13 < b == BitAt(k) && d == Pow2(b) && j == 21 - b
    ensures 0 <= i <= 10 && x[i] >= 0 && x[i + 1] >= 0 && Two(x[i], d, x[i + 1], j) == Above(x, k) % 256
  {
    Places(k); Places(k + 1);
    hide LimbAt, BitAt, From;
    assert i < 11;
    DigitsFrom(x, i); DigitsFrom(x, i + 1);
    PowAdd(b, j);
    ScalarBytes.RadixPower();
    Powers();
    PowAdd(13, 8);
    hide Pow2;
    TwoSum(x[i], d, x[i + 1], j, From(x, i + 2));
  }

  lemma QuotBelow(v: nat, d: nat, p: nat)
    requires d > 0 && v < d * p
    ensures 0 <= v / d < p
  {
    DivParts(v, d);
    if v / d >= p { MulMonotone(d, p, v / d); }
    if v / d < 0 { MulMonotone(d, v / d, -1); }
  }

  /** The bits of two limbs beside each other; what lies above does not reach the byte. */
  lemma TwoSum(v: nat, d: nat, w: nat, j: nat, high: nat)
    requires d > 0 && d * Pow2(j) == RADIX && v < RADIX
    ensures Two(v, d, w, j) == (v + RADIX * (w + RADIX * high)) / d % 256
  {
    QuotBelow(v, d, Pow2(j));
    OrSum(w, v / d, j);
    hide Pow2, Or, Shl;
    DivSum(v, d, Pow2(j), w + RADIX * high);
    HighDrops(v / d, Pow2(j), w, high);
  }

  lemma HighDrops(low: int, p: int, w: int, high: int)
    ensures (low + p * (w + RADIX * high)) % 256 == (p * w + low) % 256
  {
    MulMinus(p, w, RADIX * high);
    ByteNumber.MulAssoc(p, RADIX, high);
    ModDrop(p * w + low, 256, 0x2000 * (p * high));
  }

  /** Bytes at to hi - 1 of the buffer are those of the number. */
  ghost predicate Stored(s: seq<Byte>, x: seq<int>, at: nat, hi: nat) {
    hi <= |s| && forall k: nat :: at <= k < hi ==> LimbAt(k) <= |x| && s[k] == Above(x, k) % 256
  }

  /** Ten bytes from limbs i to i + 3. */
  method StoreTen(s: array<Byte>, at: nat, x: seq<Int64>, i: nat, ghost g: nat)
    requires at == 21 * g && i == 8 * g && g < 2 && at + 10 <= s.Length && Digits(x)
    modifies s
    ensures Stored(s[..], x, at, at + 10)
    ensures forall j :: 0 <= j < s.Length && !(at <= j < at + 10) ==> s[j] == old(s[j])
  {
    TenAre(x, g);
    hide Digits, One, Two, Above, LimbAt;
    s[at] := One(x[i], 1);
    s[at + 1] := One(x[i], 0x100);
    s[at + 2] := Two(x[i], 0x1_0000, x[i + 1], 5);
    s[at + 3] := One(x[i + 1], 8);
    s[at + 4] := One(x[i + 1], 0x800);
    s[at + 5] := Two(x[i + 1], 0x8_0000, x[i + 2], 2);
    s[at + 6] := One(x[i + 2], 0x40);
    s[at + 7] := Two(x[i + 2], 0x4000, x[i + 3], 7);
    s[at + 8] := One(x[i + 3], 2);
    s[at + 9] := One(x[i + 3], 0x200);
    TenStored(s[..], x, i, at);
  }

  lemma TenStored(s: seq<Byte>, x: seq<int>, i: nat, at: nat)
    requires at + 10 <= |s| && TenBytes(x, i, at)
    requires s[at] == One(x[i], 1) && s[at + 1] == One(x[i], 0x100) && s[at + 2] == Two(x[i], 0x1_0000, x[i + 1], 5)
    requires s[at + 3] == One(x[i + 1], 8) && s[at + 4] == One(x[i + 1], 0x800)
    requires s[at + 5] == Two(x[i + 1], 0x8_0000, x[i + 2], 2) && s[at + 6] == One(x[i + 2], 0x40)
    requires s[at + 7] == Two(x[i + 2], 0x4000, x[i + 3], 7)
    requires s[at + 8] == One(x[i + 3], 2) && s[at + 9] == One(x[i + 3], 0x200)
    ensures Stored(s, x, at, at + 10)
  {
    hide One, Two, Above, LimbAt;
    forall k: nat | at <= k < at + 10 ensures LimbAt(k) <= |x| && s[k] == Above(x, k) % 256 {
      assert k == at || k == at + 1 || k == at + 2 || k == at + 3 || k == at + 4 || k == at + 5 || k == at + 6
        || k == at + 7 || k == at + 8 || k == at + 9;
    }
  }

  ghost predicate TenBytes(x: seq<int>, i: nat, at: nat) {
    && i + 4 <= |x| && x[i] >= 0 && x[i + 1] >= 0 && x[i + 2] >= 0 && x[i + 3] >= 0
    && (forall k: nat :: at <= k < at + 10 ==> LimbAt(k) <= |x|)
    && One(x[i], 1) == Above(x, at) % 256 && One(x[i], 0x100) == Above(x, at + 1) % 256
    && Two(x[i], 0x1_0000, x[i + 1], 5) == Above(x, at + 2) % 256
    && One(x[i + 1], 8) == Above(x, at + 3) % 256 && One(x[i + 1], 0x800) == Above(x, at + 4) % 256
    && Two(x[i + 1], 0x8_0000, x[i + 2], 2) == Above(x, at + 5) % 256
    && One(x[i + 2], 0x40) == Above(x, at + 6) % 256
    && Two(x[i + 2], 0x4000, x[i + 3], 7) == Above(x, at + 7) % 256
    && One(x[i + 3], 2) == Above(x, at + 8) % 256 && One(x[i + 3], 0x200) == Above(x, at + 9) % 256
  }

  lemma GroupPlaces(g: nat, k: nat)
    requires k < 21
    ensures LimbAt(21 * g + k) == 8 * g + LimbAt(k) && BitAt(21 * g + k) == BitAt(k)
  {}

  lemma Shifts()
    ensures Pow2(0) == 1 && Pow2(8) == 0x100 && Pow2(16) == 0x1_0000 && Pow2(3) == 8 && Pow2(11) == 0x800
    ensures Pow2(19) == 0x8_0000 && Pow2(6) == 0x40 && Pow2(14) == 0x4000 && Pow2(1) == 2 && Pow2(9) == 0x200
    ensures Pow2(17) == 0x2_0000 && Pow2(4) == 16 && Pow2(12) == 0x1000 && Pow2(20) == 0x10_0000 && Pow2(7) == 128
    ensures Pow2(15) == 0x8000 && Pow2(2) == 4 && Pow2(10) == 0x400 && Pow2(18) == 0x4_0000 && Pow2(5) == 32
    ensures Pow2(13) == 0x2000
  {}

  ghost predicate Place(k: nat, i: nat, b: nat) {
    LimbAt(k) == i && BitAt(k) == b
  }

  lemma TenPlaces(g: nat, i: nat, at: nat)
    requires i == 8 * g && at == 21 * g
    ensures Place(at, i, 0) && Place(at + 1, i, 8) && Place(at + 2, i, 16) && Place(at + 3, i + 1, 3)
    ensures Place(at + 4, i + 1, 11) && Place(at + 5, i + 1, 19) && Place(at + 6, i + 2, 6) && Place(at + 7, i + 2, 14)
    ensures Place(at + 8, i + 3, 1) && Place(at + 9, i + 3, 9)
  {
    GroupPlaces(g, 0); GroupPlaces(g, 1); GroupPlaces(g, 2); GroupPlaces(g, 3); GroupPlaces(g, 4);
    GroupPlaces(g, 5); GroupPlaces(g, 6); GroupPlaces(g, 7); GroupPlaces(g, 8); GroupPlaces(g, 9);
  }

  lemma OneAt(x: seq<int>, k: nat, i: nat, b: nat, d: nat)
    requires Digits(x) && k < 31 && Place(k, i, b) && b <= 13 && d == Pow2(b)
    ensures i <= 11 && LimbAt(k) <= |x| && x[i] >= 0 && One(x[i], d) == Above(x, k) % 256
  {
    OneIs(x, k, i, b, d);
  }

  lemma TwoAt(x: seq<int>, k: nat, i: nat, b: nat, d: nat, j: nat)
    requires Digits(x) && k < 31 && Place(k, i, b) && 13 < b <= 20 && d == Pow2(b) && j == 21 - b
    ensures i <= 10 && LimbAt(k) <= |x| && x[i] >= 0 && x[i + 1] >= 0 && Two(x[i], d, x[i + 1], j) == Above(x, k) % 256
  {
    TwoIs(x, k, i, b, d, j);
  }

  lemma TenAre(x: seq<int>, g: nat)
    requires Digits(x) && g < 2
    ensures TenBytes(x, 8 * g, 21 * g)
  {
    hide Pow2, Digits, One, Two, Above, Place, LimbAt;
    var i, at := 8 * g, 21 * g;
    Shifts();
    TenPlaces(g, i, at);
    OneAt(x, at, i, 0, 1); OneAt(x, at + 1, i, 8, 0x100); TwoAt(x, at + 2, i, 16, 0x1_0000, 5);
    OneAt(x, at + 3, i + 1, 3, 8); OneAt(x, at + 4, i + 1, 11, 0x800); TwoAt(x, at + 5, i + 1, 19, 0x8_0000, 2);
    OneAt(x, at + 6, i + 2, 6, 0x40); TwoAt(x, at + 7, i + 2, 14, 0x4000, 7);
    OneAt(x, at + 8, i + 3, 1, 2); OneAt(x, at + 9, i + 3, 9, 0x200);
    assert |x| == 24 by { TenLength(x); }
  }

  lemma TenLength(x: seq<int>)
    requires Digits(x)
    ensures |x| == 24
  {}

  // ---------- the other bytes ----------

  /** Bytes 10 to 20, from limbs 3 to 7. */
  method StoreEleven(s: array<Byte>, x: seq<Int64>)
    requires 21 <= s.Length && Digits(x)
    modifies s
    ensures Stored(s[..], x, 10, 21)
    ensures forall j :: 0 <= j < s.Length && !(10 <= j < 21) ==> s[j] == old(s[j])
  {
    ElevenAre(x);
    hide Digits, One, Two, Above, LimbAt;
    s[10] := Two(x[3], 0x2_0000, x[4], 4);
    s[11] := One(x[4], 16);
    s[12] := One(x[4], 0x1000);
    s[13] := Two(x[4], 0x10_0000, x[5], 1);
    s[14] := One(x[5], 128);
    s[15] := Two(x[5], 0x8000, x[6], 6);
    s[16] := One(x[6], 4);
    s[17] := One(x[6], 0x400);
    s[18] := Two(x[6], 0x4_0000, x[7], 3);
    s[19] := One(x[7], 32);
    s[20] := One(x[7], 0x2000);
    ElevenStored(s[..], x);
  }

  ghost predicate ElevenBytes(x: seq<int>) {
    && |x| == 24 && x[3] >= 0 && x[4] >= 0 && x[5] >= 0 && x[6] >= 0 && x[7] >= 0
    && (forall k: nat :: 10 <= k < 21 ==> LimbAt(k) <= |x|)
    && Two(x[3], 0x2_0000, x[4], 4) == Above(x, 10) % 256 && One(x[4], 16) == Above(x, 11) % 256
    && One(x[4], 0x1000) == Above(x, 12) % 256 && Two(x[4], 0x10_0000, x[5], 1) == Above(x, 13) % 256
    && One(x[5], 128) == Above(x, 14) % 256 && Two(x[5], 0x8000, x[6], 6) == Above(x, 15) % 256
    && One(x[6], 4) == Above(x, 16) % 256 && One(x[6], 0x400) == Above(x, 17) % 256
    && Two(x[6], 0x4_0000, x[7], 3) == Above(x, 18) % 256 && One(x[7], 32) == Above(x, 19) % 256
    && One(x[7], 0x2000) == Above(x, 20) % 256
  }

  lemma ElevenPlaces()
    ensures Place(10, 3, 17) && Place(11, 4, 4) && Place(12, 4, 12) && Place(13, 4, 20) && Place(14, 5, 7)
    ensures Place(15, 5, 15) && Place(16, 6, 2) && Place(17, 6, 10) && Place(18, 6, 18) && Place(19, 7, 5)
    ensures Place(20, 7, 13)
  {}

  lemma ElevenAre(x: seq<int>)
    requires Digits(x)
    ensures ElevenBytes(x)
  {
    hide Pow2, Digits, One, Two, Above, Place, LimbAt;
    Shifts();
    ElevenPlaces();
    TwoAt(x, 10, 3, 17, 0x2_0000, 4); OneAt(x, 11, 4, 4, 16); OneAt(x, 12, 4, 12, 0x1000);
    TwoAt(x, 13, 4, 20, 0x10_0000, 1); OneAt(x, 14, 5, 7, 128); TwoAt(x, 15, 5, 15, 0x8000, 6);
    OneAt(x, 16, 6, 2, 4); OneAt(x, 17, 6, 10, 0x400); TwoAt(x, 18, 6, 18, 0x4_0000, 3);
    OneAt(x, 19, 7, 5, 32); OneAt(x, 20, 7, 13, 0x2000);
    assert |x| == 24 by { TenLength(x); }
  }

  lemma ElevenStored(s: seq<Byte>, x: seq<int>)
    requires 21 <= |s| && ElevenBytes(x)
    requires s[10] == Two(x[3], 0x2_0000, x[4], 4) && s[11] == One(x[4], 16) && s[12] == One(x[4], 0x1000)
    requires s[13] == Two(x[4], 0x10_0000, x[5], 1) && s[14] == One(x[5], 128) && s[15] == Two(x[5], 0x8000, x[6], 6)
    requires s[16] == One(x[6], 4) && s[17] == One(x[6], 0x400) && s[18] == Two(x[6], 0x4_0000, x[7], 3)
    requires s[19] == One(x[7], 32) && s[20] == One(x[7], 0x2000)
    ensures Stored(s, x, 10, 21)
  {
    hide One, Two, Above, LimbAt;
    forall k: nat | 10 <= k < 21 ensures LimbAt(k) <= |x| && s[k] == Above(x, k) % 256 {
      assert k == 10 || k == 11 || k == 12 || k == 13 || k == 14 || k == 15 || k == 16 || k == 17 || k == 18
        || k == 19 || k == 20;
    }
  }

  /** The last byte, of limb 11 alone. */
  lemma LastByte(x: seq<int>)
    requires Digits(x)
    ensures LimbAt(31) == 11 && x[11] >= 0 && One(x[11], 0x2_0000) == Above(x, 31) % 256 == Above(x, 31)
      && Above(x, 31) < 256
  {
    Shifts();
    DigitsFrom(x, 11);
    assert BitAt(31) == 17;
  }

  /** The bytes that are stored make the number of the limbs. */
  lemma {:induction false} StoredVal(s: seq<Byte>, x: seq<int>, k: nat)
    requires Digits(x) && Stored(s, x, 0, 32) && k < 32 && |s| == 32
    ensures LimbAt(k) <= |x| && Le(s[k..]) == Above(x, k)
    decreases 32 - k
  {
    hide LimbAt, Above;
    assert s[k..][0] == s[k] && s[k..][1..] == s[k + 1..];
    if k == 31 {
      LastByte(x);
      assert Le(s[32..]) == 0;
    } else {
      StoredVal(s, x, k + 1);
      AboveStep(x, k);
      assert s[k] == Above(x, k) % 256;
    }
  }

  lemma StoredAll(s: seq<Byte>, x: seq<int>)
    requires Digits(x) && |s| >= 32 && Stored(s, x, 0, 32)
    ensures Le(s[..32]) == Val(x)
  {
    StoredVal(s[..32], x, 0);
    assert s[..32][0..] == s[..32];
    Shifts();
  }

  lemma StoredJoin(s: seq<Byte>, t: seq<Byte>, x: seq<int>, i: nat, j: nat)
    requires Stored(s, x, 0, i) && Stored(t, x, i, j) && |s| == |t|
    requires forall k :: 0 <= k < i ==> t[k] == s[k]
    ensures Stored(t, x, 0, j)
  {
    hide LimbAt, Above;
  }

  /** The first 32 bytes of the buffer become the number of the limbs; the others stay. */
  method Store(s: array<Byte>, x: seq<Int64>)
    requires s.Length >= 32 && Digits(x)
    modifies s
    ensures Le(s[..32]) == Val(x)
    ensures forall j :: 32 <= j < s.Length ==> s[j] == old(s[j])
  {
    hide Digits, Above, LimbAt, One, Val;
    StoreTen(s, 0, x, 0, 0);
    ghost var s1 := s[..];
    StoreEleven(s, x);
    ghost var s2 := s[..];
    StoredJoin(s1, s2, x, 0 + 10, 21);
    StoreTen(s, 21, x, 8, 1);
    ghost var s3 := s[..];
    StoredJoin(s2, s3, x, 21, 31);
    LastByte(x);
    TenLength(x);
    s[31] := One(x[11], 0x2_0000);
    StoredJoin(s3, s[..], x, 31, 32);
    StoredAll(s[..], x);
  }
}
