/**
  The arithmetic of the file system's skip lists. Block i of a file, i > 0, starts with ctz(i) + 1
  pointers of four bytes; lfs_ctz_index turns a byte position into a block index and an offset by a
  closed form with a population count.
*/
module CtzIndex {
  import opened Arith
  import opened Gf2Poly

  /** Trailing zero bits. */
  function Ctz(n: nat): nat
    requires n > 0
  {
    if n % 2 == 1 then 0 else 1 + Ctz(n / 2)
  }

  /** One bits. */
  function Popc(n: nat): nat {
    if n == 0 then 0 else n % 2 + Popc(n / 2)
  }

  /** The offset of the first data byte in block i. */
  function DataOff(i: nat): nat {
    if i == 0 then 0 else 4 * (Ctz(i) + 1)
  }

  /** The file position of the first byte of block i: what the blocks before it hold. */
  function Start(blockSize: nat, i: nat): int {
    if i == 0 then 0 else Start(blockSize, i - 1) + blockSize - DataOff(i - 1)
  }

  /** Counting down by one clears the lowest one bit and sets the zeros below it. */
  lemma {:induction false} PopcPred(n: nat)
    requires n > 0
    ensures Popc(n - 1) + 1 == Popc(n) + Ctz(n)
  {
    var h := n / 2;
    if n % 2 == 1 {
      assert (n - 1) / 2 == h && (n - 1) % 2 == 0;
      assert Popc(n) == 1 + Popc(h);
      if n > 1 { assert Popc(n - 1) == Popc(h); }
    } else {
      PopcPred(h);
      assert (n - 1) / 2 == h - 1 && (n - 1) % 2 == 1;
    }
  }

  /** The closed form of the start of a block. */
  lemma {:induction false} StartClosed(blockSize: nat, i: nat)
    requires i > 0 && blockSize >= 8
    ensures Start(blockSize, i) == (blockSize - 8) * i + 8 + 4 * Popc(i - 1)
    decreases i
  {
    if i > 1 {
      StartClosed(blockSize, i - 1);
      PopcPred(i - 1);
      assert (blockSize - 8) * i == (blockSize - 8) * (i - 1) + (blockSize - 8);
    }
  }

  lemma {:induction false} CtzBound(n: nat, k: nat)
    requires 0 < n < Pow2(k)
    ensures Ctz(n) < k
    decreases k
  {
    if n % 2 == 0 { CtzBound(n / 2, k - 1); }
  }

  lemma {:induction false} PopcBound(n: nat, k: nat)
    requires n < Pow2(k)
    ensures Popc(n) <= k
    decreases k
  {
    if n > 0 { PopcBound(n / 2, k - 1); }
  }

  /** Blocks whose pointers fit do not overlap. */
  lemma {:induction false} StartMonotone(blockSize: nat, i: nat, j: nat)
    requires i <= j && forall k: nat :: k < j ==> DataOff(k) <= blockSize
    ensures Start(blockSize, i) <= Start(blockSize, j)
    decreases j
  {
    if i < j { StartMonotone(blockSize, i, j - 1); }
  }

  // ---------- the index of a position ----------

  /** lfs_npw2 */
  function Npw2(a: nat): nat
    requires a > 0
  {
    Len(a - 1)
  }

  /** What lfs_init asserts about the block size, for positions of 32 bits. */
  predicate BlockSizeOk(blockSize: nat) {
    blockSize > 8 && 0xffff_ffff / (blockSize - 8) > 0
    && 4 * Npw2(0xffff_ffff / (blockSize - 8)) <= blockSize
  }

  /** i is the block that holds position pos. */
  ghost predicate IsIndex(blockSize: nat, pos: nat, i: nat) {
    Start(blockSize, i) <= pos < Start(blockSize, i + 1)
  }

  /** lfs_ctz_index: the block index. */
  function Index(blockSize: nat, pos: nat): int
    requires blockSize > 8
  {
    IndexAfter(blockSize - 8, pos, pos / (blockSize - 8))
  }

  /** The second quotient, corrected by the pointers that the first quotient i calls for. */
  function IndexAfter(b: nat, pos: nat, i: nat): int
    requires b > 0
  {
    if i == 0 then 0 else (pos - 4 * (Popc(i - 1) + 2)) / b
  }

  /** lfs_ctz_index: the offset in block j. */
  function Offset(blockSize: nat, pos: nat, j: nat): int {
    pos - (blockSize - 8) * j - 4 * Popc(j)
  }

  /** Once the index is right, so is the offset. */
  lemma OffsetOfIndex(blockSize: nat, pos: nat, i: nat)
    requires blockSize >= 8
    ensures Offset(blockSize, pos, i) == pos - Start(blockSize, i) + DataOff(i)
  {
    if i > 0 { StartClosed(blockSize, i); PopcPred(i); }
  }

  /** No file of 2^32 bytes has this many blocks. */
  const BLOCKS_MAX := 0x400_0000

  lemma Power25()
    ensures Pow2(24) == 0x100_0000 && Pow2(25) == 0x200_0000 && Pow2(26) == BLOCKS_MAX
  {
    assert Pow2(8) == 256;
    assert Pow2(16) == 0x1_0000;
  }

  lemma LongNumber(n: nat)
    requires n >= 0x200_0000
    ensures Len(n) >= 26
  {
    Power25();
    var k: nat :| k == 25;
    LenBelow(n, k);
  }

  lemma LargeQuotient(b: nat, q: nat, r: nat)
    requires b * q + r == 0xffff_ffff && r < b <= 95
    ensures q - 1 >= 0x200_0000
  {
    MulMinus(b, q, 1);
    MulMonotone(q + 1, b, 95);
  }

  /** The assertion of lfs_init leaves room for at least 96 bytes beside two pointers. */
  lemma BlockSizeAtLeast(blockSize: nat)
    requires BlockSizeOk(blockSize)
    ensures blockSize >= 104
  {
    var b := blockSize - 8;
    DivParts(0xffff_ffff, b);
    var q, r := 0xffff_ffff / b, 0xffff_ffff % b;
    if b <= 95 {
      LargeQuotient(b, q, r);
      LongNumber(q - 1);
    }
  }

  /** No position of 32 bits lies in block 2^26 or beyond. */
  lemma SmallIndex(b: nat, pos: nat, i: nat, q: nat)
    requires b >= 96 && pos <= 0xffff_ffff && pos == b * i + q
    ensures i + 2 < BLOCKS_MAX
  {
    Power25();
    MulMonotone(i, 96, b);
  }

  /** Up to there the pointers of every block fit. */
  lemma PointersFit(k: nat)
    requires k < BLOCKS_MAX
    ensures DataOff(k) <= 104 && Popc(k) <= 26
  {
    Power25();
    var n: nat :| n == 26;
    PopcBound(k, n);
    if k > 0 { CtzBound(k, n); }
  }

  lemma AllPointersFit(blockSize: nat)
    requires blockSize >= 104
    ensures forall k: nat :: k < BLOCKS_MAX ==> DataOff(k) <= blockSize
  {
    forall k: nat | k < BLOCKS_MAX ensures DataOff(k) <= blockSize { PointersFit(k); }
  }

  /** At most one block holds a position. */
  lemma IndexUnique(blockSize: nat, pos: nat, i: nat, j: nat)
    requires blockSize >= 104 && i < BLOCKS_MAX && j < BLOCKS_MAX
    requires IsIndex(blockSize, pos, i) && IsIndex(blockSize, pos, j)
    ensures i == j
  {
    AllPointersFit(blockSize);
    if i < j { StartMonotone(blockSize, i + 1, j); }
    if j < i { StartMonotone(blockSize, j + 1, i); }
  }

  /**
    When the closed form is right: the first quotient i is too large by one at most exactly when
    both this and the block before it begin early enough.
  */
  predicate IndexCondition(blockSize: nat, pos: nat)
    requires blockSize > 8
  {
    var b := blockSize - 8;
    ConditionFor(pos / b, b + pos % b)
  }

  predicate ConditionFor(i: nat, room: nat) {
    i == 0 || ((8 + 4 * Popc(i - 1) <= room) == (i == 1 || 8 + 4 * Popc(i - 2) <= room))
  }

  /** The quotient that the closed form arrives at, by how much room the pointers leave. */
  function Second(i: nat, q: nat, b: nat): int
    requires i > 0
  {
    var p := 8 + 4 * Popc(i - 1);
    if p <= q then i else if p <= b + q then i - 1 else i - 2
  }

  lemma CorrectedQuotient(b: nat, pos: nat, i: nat, q: nat, p: nat)
    requires pos == b * i + q && q < b && p <= 2 * b
    ensures (pos - p) / b == if p <= q then i else if p <= b + q then i - 1 else i - 2
  {
    MulMinus(b, i, 1); MulMinus(b, i, 2);
    if p <= q { QuotientIs(pos - p, b, i, q - p); }
    else if p <= b + q { QuotientIs(pos - p, b, i - 1, b + q - p); }
    else { QuotientIs(pos - p, b, i - 2, 2 * b + q - p); }
  }

  lemma SecondQuotient(b: nat, pos: nat, i: nat, q: nat)
    requires b >= 96 && pos <= 0xffff_ffff && pos == b * i + q && q < b && i > 0
    ensures IndexAfter(b, pos, i) == Second(i, q, b) >= 0
  {
    SmallIndex(b, pos, i, q);
    PointersFit(i - 1);
    var p := 8 + 4 * Popc(i - 1);
    CorrectedQuotient(b, pos, i, q, p);
    assert i == 1 ==> p == 8;
  }

  /** The start of a block against a position, with the product b*i taken apart. */
  lemma StartAgainst(blockSize: nat, i: nat, bi: int)
    requires i > 0 && blockSize >= 8 && bi == (blockSize - 8) * i
    ensures Start(blockSize, i) == bi + 8 + 4 * Popc(i - 1)
  {
    StartClosed(blockSize, i);
  }

  lemma StartAbove(blockSize: nat, pos: nat, i: nat, q: nat)
    requires blockSize >= 104 && pos == (blockSize - 8) * i + q && q < blockSize - 8
    ensures pos < Start(blockSize, i + 1)
  {
    var b := blockSize - 8;
    MulMinus(b, i, 1);
    StartAgainst(blockSize, i + 1, b * i + b);
  }

  lemma StartHere(blockSize: nat, pos: nat, i: nat, q: nat)
    requires blockSize >= 104 && pos == (blockSize - 8) * i + q && i > 0
    ensures Start(blockSize, i) <= pos <==> 8 + 4 * Popc(i - 1) <= q
  {
    StartAgainst(blockSize, i, pos - q);
  }

  lemma StartBelow(blockSize: nat, pos: nat, i: nat, q: nat)
    requires blockSize >= 104 && pos == (blockSize - 8) * i + q && i > 0
    ensures Start(blockSize, i - 1) <= pos <==> i == 1 || 8 + 4 * Popc(i - 2) <= blockSize - 8 + q
  {
    var b := blockSize - 8;
    MulMinus(b, i, 1);
    if i >= 2 { StartAgainst(blockSize, i - 1, b * i - b); }
  }

  lemma StartTwoBelow(blockSize: nat, pos: nat, i: nat, q: nat)
    requires blockSize >= 104 && pos == (blockSize - 8) * i + q && i >= 2 && i < BLOCKS_MAX
    ensures Start(blockSize, i - 2) <= pos
  {
    var b := blockSize - 8;
    if i >= 3 {
      MulMinus(b, i, 2);
      StartOfEarlier(blockSize, i - 2, pos - q - 2 * b);
    }
  }

  lemma StartOfEarlier(blockSize: nat, i: nat, bi: int)
    requires 0 < i < BLOCKS_MAX && blockSize >= 104 && bi == (blockSize - 8) * i
    ensures Start(blockSize, i) <= bi + 112
  {
    StartAgainst(blockSize, i, bi);
    PointersFit(i - 1);
  }

  /** The block that holds a position is the first quotient or one of the two before it. */
  function Holder(blockSize: nat, pos: nat, i: nat): nat
    requires i > 0
  {
    if Start(blockSize, i) <= pos then i
    else if i == 1 || Start(blockSize, i - 1) <= pos then i - 1
    else i - 2
  }

  lemma HolderHolds(blockSize: nat, pos: nat, i: nat, q: nat)
    requires blockSize >= 104 && pos <= 0xffff_ffff && pos == (blockSize - 8) * i + q && q < blockSize - 8 && i > 0
    ensures IsIndex(blockSize, pos, Holder(blockSize, pos, i)) && i + 1 < BLOCKS_MAX
  {
    SmallIndex(blockSize - 8, pos, i, q);
    StartAbove(blockSize, pos, i, q);
    if i >= 2 { StartTwoBelow(blockSize, pos, i, q); }
  }

  /** The closed form names the holder exactly under the condition. */
  lemma SecondIsHolder(blockSize: nat, pos: nat, i: nat, q: nat)
    requires blockSize >= 104 && pos == (blockSize - 8) * i + q && q < blockSize - 8 && i > 0 && i < BLOCKS_MAX
    ensures Second(i, q, blockSize - 8) == Holder(blockSize, pos, i) <==> ConditionFor(i, blockSize - 8 + q)
  {
    StartHere(blockSize, pos, i, q);
    StartBelow(blockSize, pos, i, q);
    AllPointersFit(blockSize);
    StartMonotone(blockSize, i - 1, i);
  }

  /** The closed form against the blocks, in terms of the first quotient and remainder. */
  lemma IndexFromParts(blockSize: nat, pos: nat, i: nat, q: nat)
    requires blockSize >= 104 && pos <= 0xffff_ffff && pos == (blockSize - 8) * i + q && q < blockSize - 8 && i > 0
    ensures Second(i, q, blockSize - 8) >= 0
    ensures IsIndex(blockSize, pos, Second(i, q, blockSize - 8)) <==> ConditionFor(i, blockSize - 8 + q)
  {
    SecondQuotient(blockSize - 8, pos, i, q);
    HolderHolds(blockSize, pos, i, q);
    SecondIsHolder(blockSize, pos, i, q);
    var j, t := Second(i, q, blockSize - 8), Holder(blockSize, pos, i);
    if IsIndex(blockSize, pos, j) { IndexUnique(blockSize, pos, j, t); }
  }

  /** For every block size that lfs_init accepts, exactly when the closed form finds the block. */
  lemma IndexExact(blockSize: nat, pos: nat)
    requires blockSize >= 104 && pos <= 0xffff_ffff
    ensures Index(blockSize, pos) >= 0
    ensures IsIndex(blockSize, pos, Index(blockSize, pos)) <==> IndexCondition(blockSize, pos)
  {
    var b := blockSize - 8;
    DivParts(pos, b);
    IndexOfParts(blockSize, pos, pos / b, pos % b);
  }

  lemma FirstBlock(blockSize: nat, pos: nat)
    requires blockSize >= 8 && pos < blockSize
    ensures IsIndex(blockSize, pos, 0)
  {
    assert Start(blockSize, 0) == 0;
    assert Start(blockSize, 0 + 1) == blockSize;
  }

  lemma IndexOfParts(blockSize: nat, pos: nat, i: nat, q: nat)
    requires blockSize >= 104 && pos <= 0xffff_ffff && pos == (blockSize - 8) * i + q && q < blockSize - 8
    ensures IndexAfter(blockSize - 8, pos, i) >= 0
    ensures IsIndex(blockSize, pos, IndexAfter(blockSize - 8, pos, i)) <==> ConditionFor(i, blockSize - 8 + q)
  {
    if i == 0 {
      FirstBlock(blockSize, pos);
    } else {
      SecondQuotient(blockSize - 8, pos, i, q);
      IndexFromParts(blockSize, pos, i, q);
    }
  }

  /** The offset that goes with the index is that of the byte, behind the pointers of its block. */
  lemma OffsetExact(blockSize: nat, pos: nat)
    requires blockSize >= 104 && pos <= 0xffff_ffff && IndexCondition(blockSize, pos)
    ensures var j := Index(blockSize, pos);
            j >= 0 && DataOff(j) <= Offset(blockSize, pos, j) < blockSize
            && Offset(blockSize, pos, j) == pos - Start(blockSize, j) + DataOff(j)
  {
    IndexExact(blockSize, pos);
    OffsetOfIndex(blockSize, pos, Index(blockSize, pos));
  }

  lemma IndexSmall(blockSize: nat, pos: nat)
    requires blockSize >= 104 && pos <= 0xffff_ffff
    ensures Index(blockSize, pos) + 2 < BLOCKS_MAX
  {
    var b := blockSize - 8;
    DivParts(pos, b);
    var i, q := pos / b, pos % b;
    SmallIndex(b, pos, i, q);
    if i > 0 { SecondQuotient(b, pos, i, q); }
  }

  // ---------- the block sizes for which the closed form is right ----------

  const BLOCK_MIN := 116

  lemma {:induction false} PopcBelowOnes(n: nat, k: nat)
    requires k > 0 && n < Pow2(k) - 1
    ensures Popc(n) < k
    decreases k
  {
    if n % 2 == 1 {
      assert n / 2 < Pow2(k - 1) - 1 && Pow2(0) == 1;
      PopcBelowOnes(n / 2, k - 1);
    } else if n > 0 {
      PopcBound(n / 2, k - 1);
    }
  }

  lemma LargeBlocks(blockSize: nat, pos: nat)
    requires blockSize >= BLOCK_MIN && pos <= 0xffff_ffff
    ensures IndexCondition(blockSize, pos)
  {
    var b := blockSize - 8;
    DivParts(pos, b);
    LargeRoom(b, pos, pos / b, pos % b);
  }

  lemma LargeRoom(b: nat, pos: nat, i: nat, q: nat)
    requires b >= 108 && pos <= 0xffff_ffff && pos == b * i + q
    ensures ConditionFor(i, b + q)
  {
    MulMonotone(i, 108, b);
    Power25();
    var k: nat :| k == 26;
    if i >= 1 { PopcBelowOnes(i - 1, k); }
    if i >= 2 { PopcBelowOnes(i - 2, k); }
  }

  /** The closed form is right at a position. */
  ghost predicate IndexRight(blockSize: nat, pos: nat)
    requires blockSize > 8
  {
    Index(blockSize, pos) >= 0 && IsIndex(blockSize, pos, Index(blockSize, pos))
  }

  /** In smaller blocks it names the block before the one that holds this position. */
  function FailingPosition(blockSize: nat): nat
    requires 104 <= blockSize < BLOCK_MIN
  {
    (blockSize - 8) * 0x200_0000 + if blockSize < 112 then 112 - blockSize else 0
  }

  lemma SmallBlock(blockSize: nat, pos: nat)
    requires 104 <= blockSize < BLOCK_MIN && pos == FailingPosition(blockSize)
    ensures pos <= 0xffff_ffff && !IndexRight(blockSize, pos)
    ensures Index(blockSize, pos) >= 0 && pos >= Start(blockSize, Index(blockSize, pos) + 1)
  {
    var b, i, q := blockSize - 8, 0x200_0000, if blockSize < 112 then 112 - blockSize else 0;
    QuotientIs(pos, b, i, q);
    PopcOfPower25(i);
    IndexExact(blockSize, pos);
    SecondQuotient(b, pos, i, q);
    StartBelow(blockSize, pos, i, q);
  }

  lemma {:induction false} PopcOfPower(k: nat)
    ensures Popc(Pow2(k)) == 1 && Popc(Pow2(k) - 1) == k
  {
    if k > 0 {
      PopcOfPower(k - 1);
      var p := Pow2(k - 1);
      assert Pow2(k) == 2 * p && (2 * p) / 2 == p && (2 * p) % 2 == 0;
      assert (2 * p - 1) / 2 == p - 1 && (2 * p - 1) % 2 == 1;
    }
  }

  lemma PopcOfPower25(i: nat)
    requires i == 0x200_0000
    ensures Popc(i - 1) == 25 && Popc(i - 2) == 24
  {
    Power25();
    var k: nat, n: nat :| k == 24 && n == k + 1;
    PopcOfPower(k); PopcOfPower(n);
    PopcOfEven(i / 2 - 1);
  }

  lemma PopcOfEven(n: nat)
    ensures Popc(2 * n) == Popc(n)
  {}

  /** Of the block sizes that lfs_init accepts, those for which the closed form is right at all positions. */
  lemma SizesExact(blockSize: nat)
    requires BlockSizeOk(blockSize)
    ensures (forall pos: nat :: pos <= 0xffff_ffff ==> IndexRight(blockSize, pos)) <==> blockSize >= BLOCK_MIN
  {
    BlockSizeAtLeast(blockSize);
    if blockSize >= BLOCK_MIN {
      forall pos: nat | pos <= 0xffff_ffff ensures IndexRight(blockSize, pos) {
        IndexExact(blockSize, pos);
        LargeBlocks(blockSize, pos);
      }
    } else {
      SmallBlock(blockSize, FailingPosition(blockSize));
    }
  }

  /**
    A block size that lfs_init accepts and a position at which the closed form names a block
    that begins after the position.
  */
  lemma SmallBlocksFail(blockSize: nat, pos: nat)
    requires blockSize == 104 && pos == 1610612832
    ensures BlockSizeOk(blockSize)
    ensures Index(blockSize, pos) >= 0 && pos < Start(blockSize, Index(blockSize, pos))
  {
    QuotientIs(0xffff_ffff, 96, 44739242, 63);
    ShortNumber(44739241);
    var i: nat :| i == 16777217;
    QuotientIs(pos, blockSize - 8, i, 0);
    PopcOfPower24(i);
    SecondQuotient(blockSize - 8, pos, i, 0);
    StartBelow(blockSize, pos, i, 0);
  }

  lemma PopcOfPower24(i: nat)
    requires i == 16777217
    ensures Popc(i - 1) == 1 && Popc(i - 2) == 24
  {
    var k: nat :| k == 24;
    PopcOfPower(k); Power25();
    assert i - 1 == Pow2(k) && i - 2 == Pow2(k) - 1;
  }

  lemma ShortNumber(n: nat)
    requires n < 0x400_0000
    ensures Len(n) <= 26
  {
    Power25();
    var k: nat :| k == 26;
    LenBelow(n, k);
  }
}
