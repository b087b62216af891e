/** The bits of a deflate stream: numbers begin with their least significant bit, codes with their most significant. */
module DeflateBits {
  import opened Arith
  import opened Gf2Poly
  import opened Crc
  import opened ByteNumber

  /** Bit p of the stream (section 3.1.1 of RFC 1951). */
  function Bit(data: seq<Byte>, p: nat): (b: nat)
    requires p < 8 * |data|
    ensures b < 2
  {
    data[p / 8] / Pow2(p % 8) % 2
  }

  /** A number of n bits. */
  function BitsLe(data: seq<Byte>, p: nat, n: nat): nat
    requires p + n <= 8 * |data|
    decreases n
  {
    if n == 0 then 0 else Bit(data, p) + 2 * BitsLe(data, p + 1, n - 1)
  }

  /** A code of n bits. */
  function CodeBits(data: seq<Byte>, p: nat, n: nat): nat
    requires p + n <= 8 * |data|
    decreases n
  {
    if n == 0 then 0 else 2 * CodeBits(data, p, n - 1) + Bit(data, p + n - 1)
  }

  lemma {:induction false} BitsLeBound(data: seq<Byte>, p: nat, n: nat)
    requires p + n <= 8 * |data|
    ensures BitsLe(data, p, n) < Pow2(n)
    decreases n
  {
    if n > 0 { BitsLeBound(data, p + 1, n - 1); }
  }

  lemma {:induction false} CodeBitsBound(data: seq<Byte>, p: nat, n: nat)
    requires p + n <= 8 * |data|
    ensures CodeBits(data, p, n) < Pow2(n)
    decreases n
  {
    if n > 0 { CodeBitsBound(data, p, n - 1); }
  }

  /** The first m bits of a code. */
  lemma {:induction false} CodePrefix(data: seq<Byte>, p: nat, m: nat, n: nat)
    requires m <= n && p + n <= 8 * |data|
    ensures Pow2(n - m) * CodeBits(data, p, m) <= CodeBits(data, p, n) < Pow2(n - m) * (CodeBits(data, p, m) + 1)
    decreases n
  {
    if m < n {
      CodePrefix(data, p, m, n - 1);
      var c, d := CodeBits(data, p, m), Pow2(n - 1 - m);
      MulAssoc(2, d, c); MulAssoc(2, d, c + 1);
    }
  }

  // ---------- windows of whole bytes ----------

  /** A bit of a number of bytes. */
  lemma BitOfLe(data: seq<Byte>, p: nat)
    requires p < 8 * |data|
    ensures Le(data) / Pow2(p) % 2 == Bit(data, p)
  {
    var j, b := p / 8, p % 8;
    BitPlaces(p, |data|);
    hide Pow2, Le;
    DropBytes(data, j, b);
    BitOfFirst(data[j..], b);
  }

  lemma DropBytes(data: seq<Byte>, j: nat, b: nat)
    requires j <= |data|
    ensures Le(data) / Pow2(8 * j + b) == Le(data[j..]) / Pow2(b)
  {
    hide Pow2, Le;
    LeSplit(data, j);
    LeBelow(data[..j]);
    PowAdd(8 * j, b);
    DivDiv(Le(data), Pow2(8 * j), Pow2(b));
    DivDrop(Pow2(8 * j), Le(data[j..]), Le(data[..j]));
  }

  lemma BitPlaces(p: nat, n: nat)
    requires p < 8 * n
    ensures p == 8 * (p / 8) + p % 8 && p / 8 < n
  {}

  lemma BitOfFirst(t: seq<Byte>, b: nat)
    requires t != [] && b < 8
    ensures Le(t) / Pow2(b) % 2 == t[0] / Pow2(b) % 2
  {
    PowAdd(1, 7 - b); PowAdd(b, 8 - b);
    Powers();
    assert Pow2(1) == 2;
    hide Pow2;
    BitsBelow(t[0], Pow2(b), 2, Pow2(7 - b), Le(t[1..]));
  }

  /** n bits of a number from bit p on, by shifting and masking. */
  function Cut(v: nat, p: nat, n: nat): int {
    v / Pow2(p) % Pow2(n)
  }

  lemma CutStep(v: nat, p: nat, n: nat)
    requires n > 0
    ensures Cut(v, p, n) == v / Pow2(p) % 2 + 2 * Cut(v, p + 1, n - 1)
  {
    var d, e := Pow2(p), Pow2(n - 1);
    assert Pow2(p + 1) == 2 * d && Pow2(n) == 2 * e;
    hide Pow2;
    DivDiv(v, d, 2);
    ModStep(v / d, e);
  }

  lemma {:induction false} FieldOfLe(data: seq<Byte>, p: nat, n: nat)
    requires p + n <= 8 * |data|
    ensures Cut(Le(data), p, n) == BitsLe(data, p, n)
    decreases n
  {
    if n > 0 {
      hide Le, Bit, Cut;
      FieldOfLe(data, p + 1, n - 1);
      BitOfLe(data, p);
      CutStep(Le(data), p, n);
    }
  }

  lemma ModStep(v: int, d: nat)
    requires d > 0
    ensures v % (2 * d) == v % 2 + 2 * (v / 2 % d)
  {
    DivParts(v, 2);
    DivParts(v / 2, d);
    MulAssoc(2, d, v / 2 / d);
    QuotientIs(v, 2 * d, v / 2 / d, v % 2 + 2 * (v / 2 % d));
  }

  /** Bits within a slice. */
  lemma {:induction false} BitsOfSlice(data: seq<Byte>, at: nat, w: nat, p: nat, n: nat)
    requires at + w <= |data| && p + n <= 8 * w
    ensures BitsLe(data[at..at + w], p, n) == BitsLe(data, 8 * at + p, n)
    decreases n
  {
    if n > 0 {
      BitsOfSlice(data, at, w, p + 1, n - 1);
      BitOfSlice(data, at, w, p);
      hide Bit;
    }
  }

  lemma BitOfSlice(data: seq<Byte>, at: nat, w: nat, p: nat)
    requires at + w <= |data| && p < 8 * w
    ensures Bit(data[at..at + w], p) == Bit(data, 8 * at + p)
  {
    SlicePlace(at, p);
    hide Pow2;
  }

  lemma SlicePlace(at: nat, p: nat)
    ensures (8 * at + p) / 8 == at + p / 8 && (8 * at + p) % 8 == p % 8
  {}

  /** n bits of the stream, taken from a window of w bytes. */
  lemma Window(data: seq<Byte>, at: nat, w: nat, p: nat, n: nat)
    requires at + w <= |data| && p + n <= 8 * w
    ensures Cut(Le(data[at..at + w]), p, n) == BitsLe(data, 8 * at + p, n)
  {
    FieldOfLe(data[at..at + w], p, n);
    BitsOfSlice(data, at, w, p, n);
  }
}
