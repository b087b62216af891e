/** Little-endian numbers of bytes, and the pieces that shifts and masks cut out of them. */
module ByteNumber {
  import opened Arith
  import opened Gf2Poly
  import opened Crc

  /** bytes[0] + 256 * bytes[1] + .. */
  function Le(bytes: seq<Byte>): nat {
    if bytes == [] then 0 else bytes[0] + 256 * Le(bytes[1..])
  }

  lemma {:induction false} LeBelow(bytes: seq<Byte>)
    ensures Le(bytes) < Pow2(8 * |bytes|)
  {
    if bytes != [] {
      LeBelow(bytes[1..]);
      var k := 8 * |bytes[1..]|;
      PowAdd(8, k);
      assert Pow2(8) == 256;
    }
  }

  lemma {:induction false} PowAdd(i: nat, j: nat)
    ensures Pow2(i + j) == Pow2(i) * Pow2(j)
  {
    if i > 0 { PowAdd(i - 1, j); MulAssoc(2, Pow2(i - 1), Pow2(j)); }
  }

  lemma MulAssoc(a: int, b: int, c: int)
    ensures a * (b * c) == (a * b) * c == b * (a * c)
  {}

  lemma {:induction false} ShlMul(a: nat, k: nat)
    ensures Shl(a, k) == Pow2(k) * a
  {
    if k > 0 { ShlMul(a, k - 1); MulAssoc(2, Pow2(k - 1), a); }
  }

  /** Bits put above others: an or of disjoint parts is their sum. */
  lemma OrSum(high: nat, low: nat, k: nat)
    requires low < Pow2(k)
    ensures Or(Shl(high, k), low) == Pow2(k) * high + low
  {
    OrHighLow(k, high, low);
    ShlMul(high, k);
  }

  /** load_3 */
  function Load3(s: seq<Byte>, i: nat): nat
    requires i + 3 <= |s|
  {
    Or(Shl(s[i + 2], 16), Or(Shl(s[i + 1], 8), s[i]))
  }

  /** load_4 */
  function Load4(s: seq<Byte>, i: nat): nat
    requires i + 4 <= |s|
  {
    Or(Shl(s[i + 3], 24), Load3(s, i))
  }

  lemma Powers()
    ensures Pow2(8) == 256 && Pow2(16) == 65536 && Pow2(24) == 0x100_0000
  {
    assert Pow2(8) == 256;
    assert Pow2(16) == 65536;
  }

  lemma Load3Value(s: seq<Byte>, i: nat)
    requires i + 3 <= |s|
    ensures Load3(s, i) == Le(s[i..i + 3]) < 0x100_0000
  {
    Powers();
    var b0: nat, b1: nat, b2: nat := s[i], s[i + 1], s[i + 2];
    OrSum(b1, b0, 8);
    OrSum(b2, 256 * b1 + b0, 16);
    var t := s[i..i + 3];
    assert t[1..][1..][1..] == [];
    assert t[1..][1..][0] == s[i + 2] && t[1..][0] == s[i + 1] && t[0] == s[i];
    assert Le(t[1..][1..]) == s[i + 2];
    assert Le(t[1..]) == b1 + 256 * b2;
  }

  lemma Load4Value(s: seq<Byte>, i: nat)
    requires i + 4 <= |s|
    ensures Load4(s, i) == Le(s[i..i + 4]) < 0x1_0000_0000
  {
    Powers();
    Load3Value(s, i);
    OrSum(s[i + 3], Load3(s, i), 24);
    var t := s[i..i + 4];
    LeSplit(t, 3);
    assert t[..3] == s[i..i + 3] && t[3..] == [s[i + 3]];
    assert Le([s[i + 3]]) == s[i + 3];
  }

  lemma PowByte(n: nat)
    requires n > 0
    ensures Pow2(8 * n) == 256 * Pow2(8 * (n - 1))
  {
    PowAdd(8, 8 * (n - 1));
    Powers();
  }

  lemma SplitSum(b: int, low: int, p: int, high: int)
    ensures b + 256 * (low + p * high) == b + 256 * low + 256 * p * high
  {
    MulAssoc(256, p, high);
  }

  /** The bytes below n and those from n on. */
  lemma {:induction false} LeSplit(s: seq<Byte>, n: nat)
    requires n <= |s|
    ensures Le(s) == Le(s[..n]) + Pow2(8 * n) * Le(s[n..])
    decreases n
  {
    if n == 0 {
      assert s[0..] == s;
    } else {
      hide Pow2;
      var t := s[1..];
      LeSplit(t, n - 1);
      assert t[..n - 1] == s[..n][1..] && t[n - 1..] == s[n..];
      PowByte(n);
      assert Le(s[..n]) == s[0] + 256 * Le(t[..n - 1]);
      hide Le;
      SplitSum(s[0], Le(t[..n - 1]), Pow2(8 * (n - 1)), Le(s[n..]));
    }
  }

  // ---------- division by powers ----------

  /** (n / a) / b is n / (a * b). */
  lemma DivDiv(n: nat, a: nat, b: nat)
    requires a > 0 && b > 0
    ensures a * b > 0 && (n / a) / b == n / (a * b)
  {
    MulGrows(a, b);
    DivParts(n, a);
    DivParts(n / a, b);
    var q, r, q', r' := n / a, n % a, n / a / b, (n / a) % b;
    assert n == a * (b * q' + r') + r;
    MulAssoc(a, b, q');
    MulMinus(a, b * q', -r'); MulMinus(a, r', 0);
    assert a * (b * q' + r') == (a * b) * q' + a * r';
    MulMonotone(a, r', b - 1); MulMinus(a, b, 1);
    QuotientIs(n, a * b, q', a * r' + r);
  }

  /** Dividing drops what lies below. */
  lemma DivDrop(c: nat, high: nat, low: nat)
    requires low < c
    ensures (low + c * high) / c == high
  {
    QuotientIs(low + c * high, c, high, low);
  }

  /** Of a sum of low bits and higher ones, the bits from a up. */
  lemma DivSum(low: nat, a: nat, e: nat, high: nat)
    requires a > 0
    ensures (low + a * e * high) / a == low / a + e * high
  {
    DivParts(low, a);
    MulAssoc(a, e, high);
    MulMinus(a, low / a, -(e * high)); MulMinus(a, e * high, 0);
    QuotientIs(low + a * e * high, a, low / a + e * high, low % a);
  }

  lemma ModDrop(n: int, d: nat, e: int)
    requires d > 0
    ensures (n + d * e) % d == n % d
  {
    DivParts(n, d);
    MulMinus(d, n / d, -e);
    QuotientIs(n + d * e, d, n / d + e, n % d);
  }

  /** Bits above a * r do not matter for the remainder by r of the quotient by a. */
  lemma BitsBelow(low: nat, a: nat, r: nat, e: nat, high: nat)
    requires a > 0 && r > 0
    ensures (low + (a * (r * e)) * high) / a % r == low / a % r
  {
    DivSum(low, a, r * e, high);
    MulAssoc(r, e, high);
    ModDrop(low / a, r, e * high);
  }
}
