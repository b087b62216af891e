/**
  Ed25519 signatures (sections 5.1.6 and 5.1.7 of RFC 8032) over a curve of which only this is used:
  its points are an abelian group, the base point has the group order, and points are encoded
  injectively. The hash is any function.
*/
module Ed25519 {
  import opened Arith
  import opened Gf2Poly
  import opened Crc
  import opened ByteNumber
  import opened Group
  import opened ScalarSteps
  import opened ScalarOps
  import opened ScalarMult
  import opened Slide

  datatype Option<T> = None | Some(value: T)

  datatype Curve<!P> = Curve(
    group: Group<P>,
    base: P,
    encode: P -> seq<Byte>,
    decodeNegated: seq<Byte> -> Option<P>,
    hash: seq<Byte> -> seq<Byte>,
    table: seq<seq<P>>,
    odd: seq<P>)

  ghost predicate CurveOk<P(!new)>(c: Curve<P>) {
    && Abelian(c.group) && Mul(c.group, ORDER, c.base) == c.group.zero
    && (forall p: P :: |c.encode(p)| == 32 && c.decodeNegated(c.encode(p)) == Some(c.group.neg(p)))
    && (forall m: seq<Byte> :: |c.hash(m)| == 64)
    && BaseTable(c.group, c.table, c.base) && OddMultiples(c.group, c.odd, c.base, 8)
  }

  lemma EncodeOk<P(!new)>(c: Curve<P>, p: P)
    requires CurveOk(c)
    ensures |c.encode(p)| == 32 && c.decodeNegated(c.encode(p)) == Some(c.group.neg(p))
  {}

  lemma HashOk<P(!new)>(c: Curve<P>, m: seq<Byte>)
    requires CurveOk(c)
    ensures |c.hash(m)| == 64
  {}

  lemma GroupOk<P(!new)>(c: Curve<P>)
    requires CurveOk(c)
    ensures Abelian(c.group) && Mul(c.group, ORDER, c.base) == c.group.zero
    ensures BaseTable(c.group, c.table, c.base) && OddMultiples(c.group, c.odd, c.base, 8)
  {}

  /** The hash of some bytes as a scalar. */
  function HashScalar<P>(c: Curve<P>, m: seq<Byte>): nat {
    Le(c.hash(m)) % ORDER
  }

  // ---------- what a signature is ----------

  /** Section 5.1.6 of RFC 8032. */
  ghost predicate Signed<P(!new)>(c: Curve<P>, signature: seq<Byte>, message: seq<Byte>, publicKey: seq<Byte>,
                                  privateKey: seq<Byte>)
    requires |privateKey| == 64
  {
    && |signature| == 64
    && var r := HashScalar(c, privateKey[32..] + message);
       && signature[..32] == c.encode(Mul(c.group, r, c.base))
       && Le(signature[32..])
          == (HashScalar(c, signature[..32] + publicKey + message) * Le(privateKey[..32]) + r) % ORDER
  }

  /** Section 5.1.7 of RFC 8032, with the encodings of the points compared. */
  ghost predicate Accepted<P(!new)>(c: Curve<P>, signature: seq<Byte>, message: seq<Byte>, publicKey: seq<Byte>) {
    && |signature| == 64 && Le(signature[32..]) < 0x20 * Two248()
    && c.decodeNegated(publicKey).Some?
    && var k := HashScalar(c, signature[..32] + publicKey + message);
       c.encode(c.group.add(Mul(c.group, k, c.decodeNegated(publicKey).value),
                             Mul(c.group, Le(signature[32..]), c.base)))
       == signature[..32]
  }

  /** 2^248 */
  function Two248(): nat {
    0x100_0000_0000_0000_0000_0000_0000_0000_0000_0000_0000_0000_0000_0000_0000_0000
  }

  /** First byte, the thirty in the middle and the last one. */
  lemma ThreeParts(s: seq<Byte>)
    requires |s| == 32
    ensures Le(s) == s[0] + 256 * Le(s[1..31]) + s[31] * Two248()
    ensures 0 <= s[0] + 256 * Le(s[1..31]) < Two248()
  {
    var n: nat :| n == 248;
    Power248(n);
    hide Pow2, Two248;
    LeSplit(s, 31);
    LeBelow(s[..31]);
    LastAlone(s);
    assert s[..31][1..] == s[1..31] && s[..31][0] == s[0];
  }

  lemma LastAlone(s: seq<Byte>)
    requires |s| == 32
    ensures Le(s[31..]) == s[31]
  {
    assert s[31..] == [s[31]];
    assert Le([s[31]][1..]) == 0;
  }

  /** The last of 32 bytes. */
  lemma TopByte(s: seq<Byte>)
    requires |s| == 32
    ensures s[31] * Two248() <= Le(s) < (s[31] + 1) * Two248()
  {
    ThreeParts(s);
  }

  lemma Power248(k: nat)
    requires k == 248
    ensures Pow2(k) == Two248()
  {
    hide Pow2;
    HalfPower(k + 7);
    PowAdd(7, k);
    Pow7();
  }

  lemma Pow7()
    ensures Pow2(7) == 128
  {}

  // ---------- the multiples agree ----------

  /** Multiples of an element whose multiple by l is zero depend on the scalar modulo l only. */
  lemma MulMod<P(!new)>(g: Group<P>, b: P, l: nat, n: int)
    requires Abelian(g) && l > 0 && Mul(g, l, b) == g.zero
    ensures Mul(g, n % l, b) == Mul(g, n, b)
  {
    hide Mul, Abelian;
    var q, r := n / l, n % l;
    DivParts(n, l);
    MulAdd(g, l * q, r, b);
    MulMul(g, l, q, b);
    ZeroMultiple(g, q);
    Zero(g, Mul(g, r, b));
  }

  lemma ZeroMultiple<P(!new)>(g: Group<P>, n: int)
    requires Abelian(g)
    ensures Mul(g, n, g.zero) == g.zero
  {
    hide Abelian, Mul;
    MulZero(g, g.zero);
    MulMul(g, 0, n, g.zero);
  }

  /** k * -A + S * B is r * B again, for A = a * B and S = k * a + r. */
  lemma Cancels<P(!new)>(g: Group<P>, b: P, l: nat, k: int, a: int, r: int, s: int)
    requires Abelian(g) && l > 0 && Mul(g, l, b) == g.zero && s == (k * a + r) % l
    ensures g.add(Mul(g, k, g.neg(Mul(g, a, b))), Mul(g, s, b)) == Mul(g, r, b)
  {
    hide Mul, Abelian;
    MulMod(g, b, l, k * a + r);
    MulNeg(g, a, b);
    MulMul(g, -a, k, b);
    NegTimes(a, k);
    MulAdd(g, -(k * a), k * a + r, b);
  }

  /** Every signature is accepted. */
  lemma SignedIsAccepted<P(!new)>(c: Curve<P>, signature: seq<Byte>, message: seq<Byte>, publicKey: seq<Byte>,
                                  privateKey: seq<Byte>)
    requires CurveOk(c) && |privateKey| == 64
    requires publicKey == c.encode(Mul(c.group, Le(privateKey[..32]), c.base))
    requires Signed(c, signature, message, publicKey, privateKey)
    ensures Accepted(c, signature, message, publicKey)
  {
    hide Mul, Abelian, CurveOk, Le, HashScalar, BaseTable, OddMultiples;
    var a := Le(privateKey[..32]);
    EncodeOk(c, Mul(c.group, a, c.base));
    GroupOk(c);
    var k := HashScalar(c, signature[..32] + publicKey + message);
    var r := HashScalar(c, privateKey[32..] + message);
    ScalarBelow(k * a + r, Le(signature[32..]));
    Cancels(c.group, c.base, ORDER, k, a, r, Le(signature[32..]));
  }

  lemma ScalarBelow(n: int, s: nat)
    requires s == n % ORDER
    ensures s < 0x20 * Two248()
  {}

  // ---------- comparing ----------

  lemma {:induction false} OrZeroIff(a: nat, b: nat)
    ensures Or(a, b) == 0 <==> a == 0 && b == 0
    decreases a + b
  {
    if a != 0 || b != 0 { OrZeroIff(a / 2, b / 2); }
  }

  /** r is zero exactly when the first n bytes agree. */
  ghost predicate Agrees(r: nat, x: seq<Byte>, y: seq<Byte>, n: nat) {
    n <= |x| && n <= |y| && (r == 0 <==> x[..n] == y[..n])
  }

  /** r |= x[i] ^ y[i] */
  method Differ(r0: nat, x: seq<Byte>, y: seq<Byte>, i: nat) returns (r: nat)
    requires i < |x| && i < |y| && Agrees(r0, x, y, i)
    ensures Agrees(r, x, y, i + 1)
  {
    hide Or, Xor;
    r := Or(r0, Xor(x[i], y[i]));
    OrZeroIff(r0, Xor(x[i], y[i]));
    XorZeroIff(x[i], y[i]);
    assert x[..i + 1] == x[..i] + [x[i]] && y[..i + 1] == y[..i] + [y[i]];
  }

  /** consttime_equal */
  method ConsttimeEqual(x: seq<Byte>, y: seq<Byte>) returns (same: bool)
    requires |x| == |y| == 32
    ensures same <==> x == y
  {
    hide Agrees, Xor;
    XorZeroIff(x[0], y[0]);
    var r := Xor(x[0], y[0]);
    FirstAgrees(r, x, y);
    r := Differ(r, x, y, 1);
    r := Differ(r, x, y, 2);
    r := Differ(r, x, y, 3);
    r := Differ(r, x, y, 4);
    r := Differ(r, x, y, 5);
    r := Differ(r, x, y, 6);
    r := Differ(r, x, y, 7);
    r := Differ(r, x, y, 8);
    r := Differ(r, x, y, 9);
    r := Differ(r, x, y, 10);
    r := Differ(r, x, y, 11);
    r := Differ(r, x, y, 12);
    r := Differ(r, x, y, 13);
    r := Differ(r, x, y, 14);
    r := Differ(r, x, y, 15);
    r := Differ(r, x, y, 16);
    r := Differ(r, x, y, 17);
    r := Differ(r, x, y, 18);
    r := Differ(r, x, y, 19);
    r := Differ(r, x, y, 20);
    r := Differ(r, x, y, 21);
    r := Differ(r, x, y, 22);
    r := Differ(r, x, y, 23);
    r := Differ(r, x, y, 24);
    r := Differ(r, x, y, 25);
    r := Differ(r, x, y, 26);
    r := Differ(r, x, y, 27);
    r := Differ(r, x, y, 28);
    r := Differ(r, x, y, 29);
    r := Differ(r, x, y, 30);
    r := Differ(r, x, y, 31);
    AllAgree(r, x, y);
    same := r == 0;
  }

  lemma FirstAgrees(r: nat, x: seq<Byte>, y: seq<Byte>)
    requires |x| == |y| == 32 && (r == 0 <==> x[0] == y[0])
    ensures Agrees(r, x, y, 1)
  {
    assert x[..1] == [x[0]] && y[..1] == [y[0]];
  }

  lemma AllAgree(r: nat, x: seq<Byte>, y: seq<Byte>)
    requires |x| == |y| == 32 && Agrees(r, x, y, 32)
    ensures r == 0 <==> x == y
  {
    assert x[..32] == x && y[..32] == y;
  }

  // ---------- keys, signing and verifying ----------

  /** 2^254 */
  const TWO254 := 0x4000_0000_0000_0000_0000_0000_0000_0000_0000_0000_0000_0000_0000_0000_0000_0000

  /**
    ed25519_create_keypair (section 5.1.5 of RFC 8032): the hash of the seed, the first byte without its
    low three bits, the last of 32 with its top bit cleared and the next one set. As a number the secret
    scalar has its low three bits and all from 2^255 on cleared and 2^254 set, and the other bits are
    those of the hash.
  */
  method CreateKeypair<P(!new)>(c: Curve<P>, seed: seq<Byte>) returns (publicKey: seq<Byte>, privateKey: seq<Byte>)
    requires CurveOk(c) && |seed| == 32
    ensures |privateKey| == 64 && publicKey == c.encode(Mul(c.group, Le(privateKey[..32]), c.base))
    ensures var hash := c.hash(seed);
      && |hash| == 64 && privateKey[1..31] == hash[1..31] && privateKey[32..] == hash[32..]
      && privateKey[0] == hash[0] - hash[0] % 8 && privateKey[31] == 64 + hash[31] % 64
      && Le(privateKey[..32]) == TWO254 + Le(hash[..32]) % TWO254 - Le(hash[..32]) % 8
  {
    hide Mul, Abelian, CurveOk, Le, BaseTable, OddMultiples;
    HashOk(c, seed);
    GroupOk(c);
    privateKey := c.hash(seed);
    var first, last := privateKey[0], privateKey[31];
    privateKey := privateKey[0 := first - first % 8];
    privateKey := privateKey[31 := last % 64];
    privateKey := privateKey[31 := privateKey[31] + 64];
    ClampedNumber(c.hash(seed)[..32], privateKey[..32]);
    assert privateKey[..32][31] == privateKey[31];
    var a := ScalarMultBase(c.group, privateKey[..32], c.table, c.base);
    publicKey := c.encode(a);
  }

  lemma ClampedNumber(h: seq<Byte>, k: seq<Byte>)
    requires |h| == |k| == 32 && k[1..31] == h[1..31]
    requires k[0] == h[0] - h[0] % 8 && k[31] == 64 + h[31] % 64
    ensures Le(k) == TWO254 + Le(h) % TWO254 - Le(h) % 8
  {
    hide Le;
    ThreeParts(h); ThreeParts(k);
    Quotients(h[0], Le(h[1..31]), h[31], Le(h));
    assert 64 * Two248() == TWO254;
    hide Two248;
    Rearranged(h[0], h[0] % 8, Le(h[1..31]), h[31] % 64, Two248());
  }

  lemma Rearranged(b: int, low: int, m: int, top: int, p: int)
    requires 64 * p == TWO254
    ensures (b - low) + 256 * m + (64 + top) * p == TWO254 + (b + 256 * m + top * p) - low
  {}

  lemma Quotients(b0: nat, m: nat, b31: nat, h: nat)
    requires h == b0 + 256 * m + b31 * Two248() && b0 + 256 * m < Two248()
    ensures h % 8 == b0 % 8 && h % TWO254 == b0 + 256 * m + b31 % 64 * Two248()
  {
    QuotientIs(h, TWO254, b31 / 64, b0 + 256 * m + b31 % 64 * Two248());
    QuotientIs(h, 8, b0 / 8 + 32 * m + b31 * (Two248() / 8), b0 % 8);
  }

  /** The hash of some bytes, reduced in place. */
  method ReducedHash<P(!new)>(c: Curve<P>, m: seq<Byte>) returns (h: array<Byte>)
    requires CurveOk(c)
    ensures fresh(h) && h.Length == 64 && Le(h[..32]) == HashScalar(c, m) && h[31] <= 127
  {
    hide CurveOk, Le;
    HashOk(c, m);
    var bytes := c.hash(m);
    h := new Byte[64](i requires 0 <= i < 64 => bytes[i]);
    assert h[..] == bytes;
    ScReduce(h);
    TopByte(h[..32]);
    ScalarSmall(Le(bytes), Le(h[..32]));
    assert h[..32][31] == h[31];
    hide Two248;
    TopSmall(h[31]);
  }

  lemma ScalarSmall(n: int, s: int)
    requires s == n % ORDER
    ensures 0 <= s < 0x20 * Two248()
  {}

  lemma TopSmall(b: int)
    requires b * Two248() < 0x20 * Two248()
    ensures b < 0x20
  {}

  /** ed25519_sign */
  method Sign<P(!new)>(c: Curve<P>, message: seq<Byte>, publicKey: seq<Byte>, privateKey: seq<Byte>)
    returns (signature: seq<Byte>)
    requires CurveOk(c) && |privateKey| == 64 && |publicKey| == 32
    ensures Signed(c, signature, message, publicKey, privateKey) && |signature| == 64
    ensures var r, k := Le(c.hash(privateKey[32..] + message)) % ORDER,
                        Le(c.hash(signature[..32] + publicKey + message)) % ORDER;
      && signature[..32] == c.encode(Mul(c.group, r, c.base))
      && Le(signature[32..]) == (k * Le(privateKey[..32]) + r) % ORDER
  {
    hide Mul, Abelian, CurveOk, Le, BaseTable, OddMultiples;
    GroupOk(c);
    var r := ReducedHash(c, privateKey[32..] + message);
    var point := ScalarMultBase(c.group, r[..32], c.table, c.base);
    var first := c.encode(point);
    EncodeOk(c, point);
    var hram := ReducedHash(c, first + publicKey + message);
    var second := new Byte[32];
    ScMulAdd(second, hram[..32], privateKey[..32], r[..32]);
    signature := first + second[..];
    assert signature[..32] == first && signature[32..] == second[..] == second[..32];
  }

  /** ed25519_verify */
  method Verify<P(!new)>(c: Curve<P>, signature: seq<Byte>, message: seq<Byte>, publicKey: seq<Byte>) returns (ok: bool)
    requires CurveOk(c) && |signature| == 64 && |publicKey| == 32
    ensures ok <==> Accepted(c, signature, message, publicKey)
    ensures ok <==>
      && Le(signature[32..]) < 0x20 * Two248() && c.decodeNegated(publicKey).Some?
      && var k := Le(c.hash(signature[..32] + publicKey + message)) % ORDER;
         signature[..32] == c.encode(c.group.add(Mul(c.group, k, c.decodeNegated(publicKey).value),
                                                 Mul(c.group, Le(signature[32..]), c.base)))
  {
    hide Mul, Abelian, CurveOk, Le, BaseTable, OddMultiples, Recoded;
    GroupOk(c);
    TopByte(signature[32..]);
    assert signature[32..][31] == signature[63];
    TopBits(signature[63], Le(signature[32..]));
    if signature[63] / 32 != 0 {
      return false;
    }
    var a := c.decodeNegated(publicKey);
    if a == None {
      return false;
    }
    var h := ReducedHash(c, signature[..32] + publicKey + message);
    HalfEnough(h[..32], signature[32..]);
    var point := DoubleScalarMult(c.group, h[..32], a.value, signature[32..], c.odd, c.base);
    var checker := c.encode(point);
    EncodeOk(c, point);
    ok := ConsttimeEqual(checker, signature[..32]);
  }

  lemma TopBits(b: Byte, v: nat)
    requires b * Two248() <= v < (b + 1) * Two248()
    ensures b / 32 != 0 <==> v >= 0x20 * Two248()
  {}

  lemma HalfEnough(h: seq<Byte>, s: seq<Byte>)
    requires |h| == |s| == 32 && h[31] <= 127 && Le(s) < 0x20 * Two248()
    ensures Recoded(Le(h)) == Le(h) && Recoded(Le(s)) == Le(s)
  {
    TopByte(h);
    ExactToHalf(Le(h)); ExactToHalf(Le(s));
  }

  /** Whatever the seed and the message, the signature made with the key pair is accepted. */
  method SignThenVerify<P(!new)>(c: Curve<P>, seed: seq<Byte>, message: seq<Byte>)
    returns (publicKey: seq<Byte>, privateKey: seq<Byte>, signature: seq<Byte>, ok: bool)
    requires CurveOk(c) && |seed| == 32
    ensures |privateKey| == 64 && publicKey == c.encode(Mul(c.group, Le(privateKey[..32]), c.base))
    ensures Signed(c, signature, message, publicKey, privateKey) && Accepted(c, signature, message, publicKey) && ok
  {
    hide Mul, CurveOk, Le, Signed, Accepted;
    publicKey, privateKey := CreateKeypair(c, seed);
    EncodeOk(c, Mul(c.group, Le(privateKey[..32]), c.base));
    signature := Sign(c, message, publicKey, privateKey);
    SignedLength(c, signature, message, publicKey, privateKey);
    SignedIsAccepted(c, signature, message, publicKey, privateKey);
    ok := Verify(c, signature, message, publicKey);
  }

  lemma SignedLength<P(!new)>(c: Curve<P>, signature: seq<Byte>, message: seq<Byte>, publicKey: seq<Byte>,
                              privateKey: seq<Byte>)
    requires |privateKey| == 64 && Signed(c, signature, message, publicKey, privateKey)
    ensures |signature| == 64
  {}
}
