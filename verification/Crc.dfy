/**
  The reflected 32-bit CRC with polynomial 0xedb88320, one bit at a time, and its linearity.
  Both the zlib CRC and the file system's CRC are compared with it.
*/
module Crc {
  import opened Gf2Poly

  type Word32 = w: nat | w < 0x1_0000_0000
  type Byte = b: nat | b < 256

  const POLY: Word32 := 0xedb88320

  lemma Powers32()
    ensures Pow2(4) == 16 && Pow2(8) == 256 && Pow2(32) == 0x1_0000_0000
  {
    assert Pow2(12) == 4096;
    assert Pow2(16) == 65536;
    assert Pow2(20) == 0x10_0000;
    assert Pow2(24) == 0x100_0000;
    assert Pow2(28) == 0x1000_0000;
  }

  /** Exclusive-or of two words. */
  function Xor32(a: Word32, b: Word32): Word32 {
    Powers32(); XorBound(a, b, 32);
    Xor(a, b)
  }

  /** Shift right by one; the bit that falls out brings in the polynomial. */
  function BitStep(c: Word32): Word32 {
    if c % 2 == 1 then Xor32(c / 2, POLY) else c / 2
  }

  /** n zero bits through the register. */
  function Steps(c: Word32, n: nat): Word32
    decreases n, c
  {
    if n == 0 then c else Steps(BitStep(c), n - 1)
  }

  /** One byte through the register, low bit first. */
  function ByteStep(c: Word32, b: Byte): Word32 {
    Steps(Xor32(c, b), 8)
  }

  /** The register after the bytes of data. */
  function Register(c: Word32, data: seq<Byte>): Word32
    decreases |data|
  {
    if data == [] then c else Register(ByteStep(c, data[0]), data[1..])
  }

  lemma BitStepXor(a: Word32, b: Word32)
    ensures BitStep(Xor32(a, b)) == Xor32(BitStep(a), BitStep(b))
  {
    XorStep(a, b);
    var h, k := a / 2, b / 2;
    if a % 2 == 1 && b % 2 == 1 {
      XorSwap(h, POLY, k, POLY); XorSelf(POLY); XorZero(Xor(h, k));
    } else if a % 2 == 1 {
      XorAssoc(h, POLY, k); XorComm(POLY, k); XorAssoc(h, k, POLY);
    } else if b % 2 == 1 {
      XorAssoc(h, k, POLY);
    }
  }

  lemma {:induction false} StepsXor(a: Word32, b: Word32, n: nat)
    ensures Steps(Xor32(a, b), n) == Xor32(Steps(a, n), Steps(b, n))
    decreases n
  {
    if n > 0 { BitStepXor(a, b); StepsXor(BitStep(a), BitStep(b), n - 1); }
  }

  lemma {:induction false} StepsAdd(c: Word32, m: nat, n: nat)
    ensures Steps(c, m + n) == Steps(Steps(c, m), n)
    decreases m
  {
    if m > 0 { StepsAdd(BitStep(c), m - 1, n); }
  }

  lemma {:induction false} StepsZero(n: nat)
    ensures Steps(0, n) == 0
  {
    if n > 0 { StepsZero(n - 1); }
  }

  lemma {:induction false} RegisterAppend(c: Word32, a: seq<Byte>, b: seq<Byte>)
    ensures Register(c, a + b) == Register(Register(c, a), b)
    decreases |a|
  {
    if a == [] { assert a + b == b; } else {
      assert (a + b)[1..] == a[1..] + b;
      RegisterAppend(ByteStep(c, a[0]), a[1..], b);
    }
  }

  /** What was in the register before the data comes out as if the data were zeros. */
  lemma {:induction false} RegisterXor(c: Word32, d: Word32, data: seq<Byte>)
    ensures Register(Xor32(c, d), data) == Xor32(Register(c, data), Steps(d, 8 * |data|))
    decreases |data|
  {
    if data != [] {
      var b, n := data[0], 8 * |data[1..]|;
      ByteStepXor(c, d, b);
      RegisterXor(ByteStep(c, b), Steps(d, 8), data[1..]);
      StepsAdd(d, 8, n);
    }
  }

  lemma ByteStepXor(c: Word32, d: Word32, b: Byte)
    ensures ByteStep(Xor32(c, d), b) == Xor32(ByteStep(c, b), Steps(d, 8))
  {
    XorAssoc(c, d, b); XorComm(d, b); XorAssoc(c, b, d);
    var eight: nat :| eight == 8;
    StepsXor(Xor32(c, b), d, eight);
  }

  // ---------- many bits at once ----------

  /** Zeros at the bottom of the register only shift. */
  lemma {:induction false} StepsShl(a: nat, k: nat, n: nat)
    requires Shl(a, k + n) < 0x1_0000_0000
    ensures Shl(a, k) < 0x1_0000_0000
    ensures Steps(Shl(a, k + n), n) == Shl(a, k)
    decreases n
  {
    if n > 0 {
      assert Shl(a, k + n) == 2 * Shl(a, k + n - 1);
      StepsShl(a, k, n - 1);
    }
  }

  /** k bits taken together: the low part alone goes through the register, the rest shifts. */
  lemma StepsSplit(high: nat, low: nat, k: nat)
    requires low < Pow2(k) && Shl(high, k) + low < 0x1_0000_0000
    ensures high < 0x1_0000_0000 && low < 0x1_0000_0000
    ensures Steps(Shl(high, k) + low, k) == Xor32(high, Steps(low, k))
  {
    XorHighLow(k, high, low);
    StepsShl(high, 0, k);
    StepsXor(Shl(high, k), low, k);
  }
}
