/**
  The bytes of a file in the blocks of its list: what the blocks hold behind their pointers, one
  after the other; where a position lies; what extending the list and programming the last block do.
*/
module FileData {
  import opened CtzIndex
  import opened Crc
  import opened PlainFile
  import opened SkipList

  ghost function DataOfBlock(block: Block, i: nat): seq<Byte> {
    if DataOff(i) <= |block| then block[DataOff(i)..] else []
  }

  /** All data bytes of the list. */
  ghost function Data(disk: Disk, ids: seq<Word32>): seq<Byte> {
    if ids == [] then [] else
      var last := |ids| - 1;
      Data(disk, ids[..last]) + if ids[last] in disk then DataOfBlock(disk[ids[last]], last) else []
  }

  /** A list whose blocks are linked and hold data. */
  ghost predicate Chain(disk: Disk, blockSize: nat, ids: seq<Word32>) {
    && blockSize > 104
    && Linked(disk, blockSize, ids)
    && |ids| < BLOCKS_MAX
  }

  lemma BlockHoldsData(blockSize: nat, i: nat)
    requires blockSize > 104 && i < BLOCKS_MAX
    ensures DataOff(i) < blockSize
  {
    PointersFit(i);
  }

  lemma {:induction false} DataLength(disk: Disk, blockSize: nat, ids: seq<Word32>)
    requires Chain(disk, blockSize, ids)
    ensures |Data(disk, ids)| == Start(blockSize, |ids|)
    decreases |ids|
  {
    if ids != [] {
      var last := |ids| - 1;
      LinkedPrefix(disk, blockSize, ids, last);
      DataLength(disk, blockSize, ids[..last]);
      BlockHoldsData(blockSize, last);
      assert LinkedAt(disk, blockSize, ids, last);
    }
  }

  lemma {:induction false} DataPrefix(disk: Disk, ids: seq<Word32>, n: nat)
    requires n <= |ids|
    ensures Data(disk, ids[..n]) <= Data(disk, ids)
    decreases |ids|
  {
    if n < |ids| {
      var last := |ids| - 1;
      DataPrefix(disk, ids[..last], n);
      assert ids[..last][..n] == ids[..n];
    } else {
      assert ids[..n] == ids;
    }
  }

  lemma {:induction false} DataKept(before: Disk, after: Disk, id: Word32, blockSize: nat, ids: seq<Word32>)
    requires Linked(before, blockSize, ids) && OnlyBlock(before, after, id) && id !in ids
    ensures Data(after, ids) == Data(before, ids)
    decreases |ids|
  {
    if ids != [] {
      var last := |ids| - 1;
      assert LinkedAt(before, blockSize, ids, last);
      assert ids[last] in ids && SameBlock(before, after, ids[last]);
      LinkedPrefix(before, blockSize, ids, last);
      DataKept(before, after, id, blockSize, ids[..last]);
    }
  }

  lemma BlockOf(disk: Disk, blockSize: nat, ids: seq<Word32>, i: nat)
    requires Linked(disk, blockSize, ids) && i < |ids|
    ensures ids[i] in disk && |disk[ids[i]]| == blockSize
  {
    assert LinkedAt(disk, blockSize, ids, i);
  }

  lemma DataUnfold(disk: Disk, ids: seq<Word32>, i: nat)
    requires |ids| == i + 1 && ids[i] in disk && DataOff(i) <= |disk[ids[i]]|
    ensures Data(disk, ids) == Data(disk, ids[..i]) + disk[ids[i]][DataOff(i)..]
  {}

  /** The data up to and with the last block. */
  lemma DataOfLast(disk: Disk, blockSize: nat, ids: seq<Word32>, i: nat)
    requires Chain(disk, blockSize, ids) && |ids| == i + 1
    ensures DataOff(i) < blockSize
    ensures ids[i] in disk && |disk[ids[i]]| == blockSize
    ensures |Data(disk, ids[..i])| == Start(blockSize, i)
    ensures Data(disk, ids) == Data(disk, ids[..i]) + disk[ids[i]][DataOff(i)..]
  {
    LinkedPrefix(disk, blockSize, ids, i);
    DataLength(disk, blockSize, ids[..i]);
    BlockHoldsData(blockSize, i);
    BlockOf(disk, blockSize, ids, i);
    DataUnfold(disk, ids, i);
  }

  lemma SliceBehind<T>(head: seq<T>, block: seq<T>, all: seq<T>, from: nat, off: nat, n: nat)
    requires from <= off && off + n <= |block| && head + block[from..] <= all
    ensures var at := |head| + off - from;
      at + n <= |all| && all[at..at + n] == block[off..off + n]
  {
    var part, at := head + block[from..], |head| + off - from;
    assert part[at..at + n] == block[off..off + n];
    assert all[at..at + n] == part[at..at + n];
  }

  /** Bytes of one block, seen in the file. */
  lemma DataSlice(disk: Disk, blockSize: nat, ids: seq<Word32>, i: nat, off: nat, n: nat)
    requires Chain(disk, blockSize, ids) && i < |ids|
    requires DataOff(i) <= off && off + n <= blockSize
    ensures ids[i] in disk && |disk[ids[i]]| == blockSize
    ensures 0 <= Start(blockSize, i) + off - DataOff(i) <= |Data(disk, ids)| - n
    ensures var at := Start(blockSize, i) + off - DataOff(i); Data(disk, ids)[at..at + n] == disk[ids[i]][off..off + n]
  {
    hide Ctz, Start, Data, LinkedAt;
    var upto := ids[..i + 1];
    LinkedPrefix(disk, blockSize, ids, i + 1);
    DataOfLast(disk, blockSize, upto, i);
    DataPrefix(disk, ids, i + 1);
    SliceBehind(Data(disk, upto[..i]), disk[ids[i]], Data(disk, ids), DataOff(i), off, n);
  }

  /** pos lies in block i at offset off, or just behind its last byte. */
  ghost predicate At(blockSize: nat, pos: nat, i: nat, off: nat) {
    DataOff(i) <= off <= blockSize && pos == Start(blockSize, i) + off - DataOff(i)
  }

  /** lfs_ctz_index for a file: the block that holds a position, and where. */
  method Locate(blockSize: nat, pos: nat) returns (i: nat, off: nat)
    requires blockSize >= 104 && pos <= 0xffff_ffff && IndexCondition(blockSize, pos)
    ensures At(blockSize, pos, i, off) && off < blockSize && i + 2 < BLOCKS_MAX
  {
    OffsetExact(blockSize, pos);
    IndexExact(blockSize, pos);
    IndexSmall(blockSize, pos);
    i := Index(blockSize, pos);
    off := Offset(blockSize, pos, i);
  }

  /** The index does not grow beyond the blocks before a larger position. */
  lemma AtMonotone(blockSize: nat, pos: nat, i: nat, off: nat, n: nat)
    requires blockSize > 104 && n < BLOCKS_MAX && i < BLOCKS_MAX
    requires At(blockSize, pos, i, off) && pos < Start(blockSize, n)
    ensures i < n
  {
    if n <= i {
      AllPointersFit(blockSize);
      StartMonotone(blockSize, n, i);
    }
  }

  // ---------- extending a list ----------

  /** A list under construction: everything before pos is written, pos is in its last block. */
  ghost predicate Branch(disk: Disk, blockSize: nat, ids: seq<Word32>, pos: nat, off: nat) {
    && Chain(disk, blockSize, ids) && ids != []
    && ids[|ids| - 1] !in ids[..|ids| - 1]
    && At(blockSize, pos, |ids| - 1, off)
  }

  /** Programming at off changes only block id, there. */
  ghost predicate Programmed(before: Disk, after: Disk, blockSize: nat, id: Word32, off: nat, data: seq<Byte>) {
    && OnlyBlock(before, after, id) && id in before && |before[id]| == blockSize && off + |data| <= blockSize
    && after[id] == before[id][..off] + data + before[id][off + |data|..]
  }

  lemma BranchKept(before: Disk, after: Disk, blockSize: nat, ids: seq<Word32>, pos: nat, off: nat, data: seq<Byte>)
    requires Branch(before, blockSize, ids, pos, off)
    requires Programmed(before, after, blockSize, ids[|ids| - 1], off, data)
    ensures Branch(after, blockSize, ids, pos + |data|, off + |data|)
  {
    var i := |ids| - 1;
    var last, front := ids[i], ids[..i];
    LinkedPrefix(before, blockSize, ids, i);
    LinkedKept(before, after, last, blockSize, front);
    LastBlockKept(before, after, blockSize, ids, off);
    assert front + [last] == ids;
    LinkedAppend(after, blockSize, front, last);
  }

  /** Programming the last block where the branch ends appends to its bytes. */
  lemma BranchProg(before: Disk, after: Disk, blockSize: nat, ids: seq<Word32>, pos: nat, off: nat, data: seq<Byte>)
    requires Branch(before, blockSize, ids, pos, off)
    requires Programmed(before, after, blockSize, ids[|ids| - 1], off, data)
    ensures Branch(after, blockSize, ids, pos + |data|, off + |data|)
    ensures pos <= |Data(before, ids)| && pos + |data| <= |Data(after, ids)|
    ensures Data(after, ids)[..pos + |data|] == Data(before, ids)[..pos] + data
  {
    BranchKept(before, after, blockSize, ids, pos, off, data);
    FrontKept(before, after, blockSize, ids, |ids| - 1);
    ProgBytes(before, after, blockSize, ids, |ids| - 1, pos, off, data);
  }

  lemma ProgBytes(before: Disk, after: Disk, blockSize: nat, ids: seq<Word32>, i: nat, pos: nat, off: nat,
                  data: seq<Byte>)
    requires |ids| == i + 1 && LastData(before, before, blockSize, ids, i) && LastData(before, after, blockSize, ids, i)
    requires Programmed(before, after, blockSize, ids[i], off, data) && At(blockSize, pos, i, off)
    ensures pos <= |Data(before, ids)| && pos + |data| <= |Data(after, ids)|
    ensures Data(after, ids)[..pos + |data|] == Data(before, ids)[..pos] + data
  {
    AppendedBytes(Data(before, ids[..i]), before[ids[i]], after[ids[i]], DataOff(i), off, data);
  }

  /** The data of the list is that of the blocks before the last one as they were, and the last one's. */
  ghost predicate LastData(before: Disk, after: Disk, blockSize: nat, ids: seq<Word32>, i: nat)
    requires |ids| == i + 1
  {
    && ids[i] in after && |after[ids[i]]| == blockSize && DataOff(i) < blockSize
    && |Data(before, ids[..i])| == Start(blockSize, i)
    && Data(after, ids) == Data(before, ids[..i]) + after[ids[i]][DataOff(i)..]
  }

  /** A change of the last block leaves the data before it. */
  lemma FrontKept(before: Disk, after: Disk, blockSize: nat, ids: seq<Word32>, i: nat)
    requires Chain(before, blockSize, ids) && Chain(after, blockSize, ids) && |ids| == i + 1
    requires OnlyBlock(before, after, ids[i]) && ids[i] !in ids[..i]
    ensures LastData(before, before, blockSize, ids, i) && LastData(before, after, blockSize, ids, i)
  {
    DataOfLast(before, blockSize, ids, i);
    DataOfLast(after, blockSize, ids, i);
    LinkedPrefix(before, blockSize, ids, i);
    DataKept(before, after, ids[i], blockSize, ids[..i]);
  }

  /** The pointers of the last block lie before the bytes that are programmed. */
  lemma LastBlockKept(before: Disk, after: Disk, blockSize: nat, ids: seq<Word32>, off: nat)
    requires Linked(before, blockSize, ids) && |ids| > 0 && DataOff(|ids| - 1) <= off <= blockSize
    requires var last := ids[|ids| - 1];
      last in before && last in after && |after[last]| == blockSize && |before[last]| == blockSize
      && after[last][..off] == before[last][..off]
    ensures |ids| > 1 ==> PointsBack(after[ids[|ids| - 1]], ids[..|ids| - 1], |ids| - 1)
  {
    var i := |ids| - 1;
    if i > 0 {
      assert LinkedAt(before, blockSize, ids, i);
      var b, b' := before[ids[i]], after[ids[i]];
      forall s: nat | s <= Ctz(i) ensures PointsTo(b', ids[..i], i, s) {
        assert PointsTo(b, ids, i, s);
        assert b'[4 * s..4 * s + 4] == b'[..off][4 * s..4 * s + 4] == b[4 * s..4 * s + 4];
      }
    }
  }

  lemma AppendedBytes(head: seq<Byte>, b: Block, b': Block, from: nat, off: nat, data: seq<Byte>)
    requires from <= off && off + |data| <= |b| && b' == b[..off] + data + b[off + |data|..]
    ensures var pos := |head| + off - from;
      (head + b'[from..])[..pos + |data|] == (head + b[from..])[..pos] + data
  {}

  /** The first block of a file. */
  lemma BranchFirst(disk: Disk, blockSize: nat, id: Word32)
    requires blockSize > 104 && id in disk && |disk[id]| == blockSize
    ensures Branch(disk, blockSize, [id], 0, 0)
  {
    assert Linked(disk, blockSize, []);
    LinkedAppend(disk, blockSize, [], id);
    assert [] + [id] == [id];
  }

  /** A block behind the last one, with its pointers written, begins a branch where the list ends. */
  lemma BranchAppended(disk: Disk, blockSize: nat, ids: seq<Word32>, id: Word32)
    requires Chain(disk, blockSize, ids) && ids != [] && |ids| + 1 < BLOCKS_MAX
    requires id !in ids && id in disk && |disk[id]| == blockSize && PointsBack(disk[id], ids, |ids|)
    ensures Start(blockSize, |ids|) >= 0
    ensures Branch(disk, blockSize, ids + [id], Start(blockSize, |ids|), DataOff(|ids|))
    ensures |Data(disk, ids)| == Start(blockSize, |ids|)
    ensures Data(disk, ids + [id])[..Start(blockSize, |ids|)] == Data(disk, ids)
  {
    LinkedAppend(disk, blockSize, ids, id);
    DataLength(disk, blockSize, ids);
    var all := ids + [id];
    assert all[..|ids|] == ids;
    DataPrefix(disk, all, |ids|);
    BlockHoldsData(blockSize, |ids|);
  }

  /** id holds a copy of the first off bytes of the last block, which end at pos. */
  ghost predicate Copied(disk: Disk, blockSize: nat, ids: seq<Word32>, id: Word32, pos: nat, off: nat) {
    && Chain(disk, blockSize, ids) && ids != [] && At(blockSize, pos, |ids| - 1, off)
    && id !in ids && id in disk && |disk[id]| == blockSize
    && ids[|ids| - 1] in disk && |disk[ids[|ids| - 1]]| == blockSize
    && disk[id][..off] == disk[ids[|ids| - 1]][..off]
  }

  /** Such a copy begins a branch where those bytes end. */
  lemma BranchCopied(disk: Disk, blockSize: nat, ids: seq<Word32>, id: Word32, pos: nat, off: nat)
    requires Copied(disk, blockSize, ids, id, pos, off)
    ensures Branch(disk, blockSize, ids[..|ids| - 1] + [id], pos, off)
  {
    var i := |ids| - 1;
    var front := ids[..i];
    LinkedPrefix(disk, blockSize, ids, i);
    CopiedPointsBack(disk, blockSize, ids, id, off);
    LinkedAppend(disk, blockSize, front, id);
    var all := front + [id];
    assert all[..|all| - 1] == front;
  }

  lemma BranchCopiedData(disk: Disk, blockSize: nat, ids: seq<Word32>, id: Word32, pos: nat, off: nat)
    requires Copied(disk, blockSize, ids, id, pos, off)
    ensures pos <= |Data(disk, ids)| && pos <= |Data(disk, ids[..|ids| - 1] + [id])|
    ensures Data(disk, ids[..|ids| - 1] + [id])[..pos] == Data(disk, ids)[..pos]
  {
    var i := |ids| - 1;
    var front := ids[..i];
    var all := front + [id];
    BranchCopied(disk, blockSize, ids, id, pos, off);
    assert all[..i] == front;
    DataOfLast(disk, blockSize, ids, i);
    DataOfLast(disk, blockSize, all, i);
    CopiedBytes(Data(disk, front), disk[ids[i]], disk[id], DataOff(i), off);
  }

  lemma CopiedPointsBack(disk: Disk, blockSize: nat, ids: seq<Word32>, id: Word32, off: nat)
    requires Linked(disk, blockSize, ids) && ids != [] && DataOff(|ids| - 1) <= off <= blockSize
    requires id in disk && |disk[id]| == blockSize
    requires ids[|ids| - 1] in disk && |disk[ids[|ids| - 1]]| == blockSize
    requires disk[id][..off] == disk[ids[|ids| - 1]][..off]
    ensures |ids| > 1 ==> PointsBack(disk[id], ids[..|ids| - 1], |ids| - 1)
  {
    var i := |ids| - 1;
    if i > 0 {
      assert LinkedAt(disk, blockSize, ids, i);
      var b, b' := disk[ids[i]], disk[id];
      forall s: nat | s <= Ctz(i) ensures PointsTo(b', ids[..i], i, s) {
        assert PointsTo(b, ids, i, s);
        assert b'[4 * s..4 * s + 4] == b'[..off][4 * s..4 * s + 4] == b[4 * s..4 * s + 4];
      }
    }
  }

  lemma CopiedBytes(head: seq<Byte>, b: Block, b': Block, from: nat, off: nat)
    requires from <= off <= |b| == |b'| && b'[..off] == b[..off]
    ensures var pos := |head| + off - from;
      pos <= |head + b[from..]| && (head + b'[from..])[..pos] == (head + b[from..])[..pos]
  {
    var pos := |head| + off - from;
    forall k | 0 <= k < pos ensures (head + b'[from..])[k] == (head + b[from..])[k] {
      if k >= |head| {
        assert b'[..off][from + k - |head|] == b[..off][from + k - |head|];
      }
    }
  }

  /**
    lfs_ctz_extend: a new block behind `pos` bytes of a list. The last block is copied when it has
    room left, otherwise a block with fresh pointers follows it. Nothing before pos changes.
  */
  method Extend(dev: Device, head: Word32, pos: nat, ghost ids: seq<Word32>)
    returns (ok: bool, block: Word32, off: nat, ghost ids': seq<Word32>)
    requires dev.blockSize > 104 && pos <= POS_MAX && Chain(dev.blocks, dev.blockSize, ids)
    requires pos > 0 ==> IndexCondition(dev.blockSize, pos - 1)
    requires pos == 0 ==> ids == []
    requires pos > 0 ==> ids != [] && ids[|ids| - 1] == head && IsIndex(dev.blockSize, pos - 1, |ids| - 1)
    modifies dev
    ensures !ok ==> dev.blocks == old(dev.blocks) && dev.Full()
    ensures ok ==> OnlyBlock(old(dev.blocks), dev.blocks, block) && block !in old(dev.blocks)
    ensures ok ==> Branch(dev.blocks, dev.blockSize, ids', pos, off) && ids'[|ids'| - 1] == block && off < dev.blockSize
    ensures ok ==> pos <= |Data(old(dev.blocks), ids)| && pos <= |Data(dev.blocks, ids')|
    ensures ok ==> Data(dev.blocks, ids')[..pos] == Data(old(dev.blocks), ids)[..pos]
    ensures ok && pos == Start(dev.blockSize, |ids|) ==> ids' == ids + [block]
  {
    ids' := [];
    off := 0;
    ghost var before := dev.blocks;
    ok, block := dev.Alloc();
    if !ok {
      return;
    }
    ghost var mid := dev.blocks;
    NewNotIn(before, dev.blockSize, ids, block);
    LinkedKept(before, dev.blocks, block, dev.blockSize, ids);
    DataKept(before, dev.blocks, block, dev.blockSize, ids);
    if pos == 0 {
      ids' := [block];
      BranchFirst(dev.blocks, dev.blockSize, block);
      return;
    }
    var index, last := Locate(dev.blockSize, pos - 1);
    IndexUnique(dev.blockSize, pos - 1, index, |ids| - 1);
    assert LinkedAt(dev.blocks, dev.blockSize, ids, index);
    if last + 1 != dev.blockSize {
      off, ids' := ExtendCopy(dev, head, block, pos, last + 1, ids);
      assert pos < Start(dev.blockSize, index + 1);
    } else {
      assert pos == Start(dev.blockSize, index + 1);
      off, ids' := ExtendAppend(dev, head, block, pos, index + 1, ids);
    }
    OnlyBlockThen(before, mid, dev.blocks, block);
  }

  lemma NewNotIn(disk: Disk, blockSize: nat, ids: seq<Word32>, id: Word32)
    requires Linked(disk, blockSize, ids) && id !in disk
    ensures id !in ids
  {
    forall k: nat | k < |ids| ensures ids[k] != id {
      assert LinkedAt(disk, blockSize, ids, k);
    }
  }

  /** The last block is incomplete: copy what it holds. */
  method ExtendCopy(dev: Device, head: Word32, block: Word32, pos: nat, size: nat, ghost ids: seq<Word32>)
    returns (off: nat, ghost ids': seq<Word32>)
    requires Chain(dev.blocks, dev.blockSize, ids) && ids != [] && ids[|ids| - 1] == head
    requires block !in ids && block in dev.blocks && |dev.blocks[block]| == dev.blockSize
    requires At(dev.blockSize, pos, |ids| - 1, size) && size < dev.blockSize
    modifies dev
    ensures OnlyBlock(old(dev.blocks), dev.blocks, block)
    ensures Branch(dev.blocks, dev.blockSize, ids', pos, off) && ids'[|ids'| - 1] == block && off < dev.blockSize
    ensures pos <= |Data(old(dev.blocks), ids)| && pos <= |Data(dev.blocks, ids')|
    ensures Data(dev.blocks, ids')[..pos] == Data(old(dev.blocks), ids)[..pos]
  {
    ghost var before := dev.blocks;
    assert LinkedAt(before, dev.blockSize, ids, |ids| - 1);
    CopyBytes(dev, head, block, size);
    assert SameBlock(before, dev.blocks, head);
    LinkedKept(before, dev.blocks, block, dev.blockSize, ids);
    DataKept(before, dev.blocks, block, dev.blockSize, ids);
    off, ids' := size, ids[..|ids| - 1] + [block];
    BranchCopied(dev.blocks, dev.blockSize, ids, block, pos, size);
    BranchCopiedData(dev.blocks, dev.blockSize, ids, block, pos, size);
  }

  /** The last block is full: a block with pointers follows. */
  method ExtendAppend(dev: Device, head: Word32, block: Word32, pos: nat, index: nat, ghost ids: seq<Word32>)
    returns (off: nat, ghost ids': seq<Word32>)
    requires Chain(dev.blocks, dev.blockSize, ids) && |ids| == index > 0 && ids[|ids| - 1] == head
    requires index + 1 < BLOCKS_MAX
    requires block !in ids && block in dev.blocks && |dev.blocks[block]| == dev.blockSize
    requires pos == Start(dev.blockSize, index)
    modifies dev
    ensures OnlyBlock(old(dev.blocks), dev.blocks, block)
    ensures Branch(dev.blocks, dev.blockSize, ids', pos, off) && ids'[|ids'| - 1] == block && off < dev.blockSize
    ensures pos <= |Data(old(dev.blocks), ids)| && pos <= |Data(dev.blocks, ids')|
    ensures Data(dev.blocks, ids')[..pos] == Data(old(dev.blocks), ids)[..pos] && ids' == ids + [block]
  {
    ghost var before := dev.blocks;
    BlockHoldsData(dev.blockSize, index);
    WritePointers(dev, head, block, ids, index);
    LinkedKept(before, dev.blocks, block, dev.blockSize, ids);
    DataKept(before, dev.blocks, block, dev.blockSize, ids);
    BranchAppended(dev.blocks, dev.blockSize, ids, block);
    off, ids' := 4 * (Ctz(index) + 1), ids + [block];
  }
}
