/**
  An open file: reading, writing, seeking and flushing. Written bytes go to a branch of new blocks;
  a flush copies the rest of the old file behind them and makes the branch the file. To its user the
  file is a byte array with a position.
*/
module LfsFile {
  import opened Crc
  import opened SkipList
  import opened CtzIndex
  import opened FileData
  import opened PlainFile

  // ---------- the old file ----------

  /** The list of a file with its head and size. */
  ghost predicate Committed(disk: Disk, blockSize: nat, ids: seq<Word32>, head: Word32, size: nat) {
    && blockSize >= BLOCK_MIN && Chain(disk, blockSize, ids)
    && size <= POS_MAX && size <= |Data(disk, ids)|
    && (size == 0 ==> ids == [])
    && (size > 0 ==> ids != [] && ids[|ids| - 1] == head && IsIndex(blockSize, size - 1, |ids| - 1))
  }

  lemma CommittedKept(before: Disk, after: Disk, id: Word32, blockSize: nat, ids: seq<Word32>, head: Word32, size: nat)
    requires Committed(before, blockSize, ids, head, size) && OnlyBlock(before, after, id) && id !in ids
    ensures Committed(after, blockSize, ids, head, size) && Data(after, ids) == Data(before, ids)
  {
    LinkedKept(before, after, id, blockSize, ids);
    DataKept(before, after, id, blockSize, ids);
  }

  /** lfs_ctz_find: the block of a position and the offset in it. */
  method Find(disk: Disk, blockSize: nat, head: Word32, size: nat, pos: nat, ghost ids: seq<Word32>)
    returns (block: Word32, off: nat, ghost i: nat)
    requires Committed(disk, blockSize, ids, head, size) && (size > 0 ==> pos < size)
    ensures size == 0 ==> block == 0xffff_ffff && off == 0
    ensures size > 0 ==> i < |ids| && block == ids[i] && At(blockSize, pos, i, off) && off < blockSize
  {
    i := 0;
    if size == 0 {
      return 0xffff_ffff, 0, 0;
    }
    LargeBlocks(blockSize, size - 1); LargeBlocks(blockSize, pos);
    var current, last := Locate(blockSize, size - 1);
    IndexUnique(blockSize, size - 1, current, |ids| - 1);
    var target, offset := Locate(blockSize, pos);
    AtMonotone(blockSize, pos, target, offset, |ids|);
    ghost var hops;
    block, hops := FindIndex(disk, blockSize, head, current, target, ids);
    off, i := offset, target;
  }

  // ---------- reading ----------

  /** The part of an open file that reading uses. */
  datatype Reader = Reader(pos: nat, reading: bool, block: Word32, off: nat)

  ghost predicate CursorAt(blockSize: nat, ids: seq<Word32>, pos: nat, block: Word32, off: nat, i: nat) {
    i < |ids| && block == ids[i] && At(blockSize, pos, i, off)
  }

  /** A reader that has found its block is at the position in it. */
  ghost predicate ReaderOk(blockSize: nat, ids: seq<Word32>, r: Reader) {
    r.reading ==> exists i: nat :: CursorAt(blockSize, ids, r.pos, r.block, r.off, i)
  }

  /** One round of the loop of lfs_file_read. */
  method ReadSome(disk: Disk, blockSize: nat, head: Word32, size: nat, r0: Reader, n: nat, ghost ids: seq<Word32>)
    returns (data: seq<Byte>, r: Reader)
    requires Committed(disk, blockSize, ids, head, size) && ReaderOk(blockSize, ids, r0)
    requires 0 < n <= size - r0.pos
    ensures 0 < |data| <= n && r.pos == r0.pos + |data|
    ensures data == Data(disk, ids)[r0.pos..r.pos] && ReaderOk(blockSize, ids, r)
  {
    hide Ctz, Start, LinkedAt, Data;
    r := r0;
    ghost var i: nat;
    if !r.reading || r.off == blockSize {
      var block, off;
      block, off, i := Find(disk, blockSize, head, size, r.pos, ids);
      r := r.(block := block, off := off, reading := true);
    } else {
      i :| CursorAt(blockSize, ids, r.pos, r.block, r.off, i);
    }
    assert CursorAt(blockSize, ids, r.pos, r.block, r.off, i);
    var diff := Min(n, blockSize - r.off);
    DataSlice(disk, blockSize, ids, i, r.off, diff);
    data := disk[r.block][r.off..r.off + diff];
    r := r.(pos := r.pos + diff, off := r.off + diff);
    assert CursorAt(blockSize, ids, r.pos, r.block, r.off, i);
  }

  /** The loop of lfs_file_read. */
  method ReadBytes(disk: Disk, blockSize: nat, head: Word32, size: nat, r0: Reader, n: nat, ghost ids: seq<Word32>)
    returns (data: seq<Byte>, r: Reader)
    requires Committed(disk, blockSize, ids, head, size) && ReaderOk(blockSize, ids, r0)
    requires r0.pos + n <= size
    ensures r.pos == r0.pos + n && data == Data(disk, ids)[r0.pos..r.pos] && ReaderOk(blockSize, ids, r)
  {
    data, r := [], r0;
    while |data| < n
      invariant |data| <= n && r.pos == r0.pos + |data| && ReaderOk(blockSize, ids, r)
      invariant data == Data(disk, ids)[r0.pos..r.pos]
      decreases n - |data|
    {
      var some;
      ghost var pos := r.pos;
      some, r := ReadSome(disk, blockSize, head, size, r, n - |data|, ids);
      ghost var all := Data(disk, ids);
      assert all[r0.pos..pos] + all[pos..r.pos] == all[r0.pos..r.pos];
      data := data + some;
    }
  }

  // ---------- the branch that is written ----------

  /** The branch ends at pos, in `block`, which the old file does not use; the block is not empty. */
  ghost predicate WritingAt(disk: Disk, blockSize: nat, ids: seq<Word32>, wids: seq<Word32>, pos: nat,
                            block: Word32, off: nat)
  {
    && Branch(disk, blockSize, wids, pos, off) && wids[|wids| - 1] == block && block !in ids
    && off > DataOff(|wids| - 1) && pos <= |Data(disk, wids)|
  }

  /** The bytes before pos: in the branch, or in the old file as long as there is none. */
  ghost function Front(disk: Disk, ids: seq<Word32>, wids: seq<Word32>, writing: bool, pos: nat): (f: seq<Byte>)
    requires pos <= |Data(disk, if writing then wids else ids)|
    ensures |f| == pos
  {
    Data(disk, if writing then wids else ids)[..pos]
  }

  /** The bytes of an open file: a branch hides what the old file had before pos. */
  ghost function BytesOf(disk: Disk, ids: seq<Word32>, wids: seq<Word32>, size: nat, writing: bool, pos: nat): seq<Byte>
    requires size <= |Data(disk, ids)| && (writing ==> pos <= |Data(disk, wids)|)
  {
    if writing then Data(disk, wids)[..pos] + Rest(Data(disk, ids)[..size], pos) else Data(disk, ids)[..size]
  }

  /** Everything on the device is kept, but for the block that this file was writing. */
  ghost predicate Grown(before: Disk, writing: bool, block: Word32, after: Disk, writing': bool, block': Word32) {
    && (forall k: Word32 :: !(writing && k == block) ==> SameBlock(before, after, k))
    && (writing' ==> block' !in before || (writing && block' == block))
  }

  /** The block that the last byte before a position lies in, and the list up to it. */
  method FindBase(disk: Disk, blockSize: nat, head: Word32, size: nat, pos: nat, ghost ids: seq<Word32>)
    returns (block: Word32, ghost base: seq<Word32>)
    requires Committed(disk, blockSize, ids, head, size) && 0 < pos <= size
    ensures Chain(disk, blockSize, base) && base != [] && base[|base| - 1] == block
    ensures IsIndex(blockSize, pos - 1, |base| - 1)
    ensures pos <= |Data(disk, base)| && Data(disk, base)[..pos] == Data(disk, ids)[..pos]
  {
    hide Ctz, Start, LinkedAt, Data, Linked;
    ghost var i;
    var o;
    block, o, i := Find(disk, blockSize, head, size, pos - 1, ids);
    base := ids[..i + 1];
    LinkedPrefix(disk, blockSize, ids, i + 1);
    DataPrefix(disk, ids, i + 1);
    DataLength(disk, blockSize, base);
    AtIndex(blockSize, pos - 1, i, o);
  }

  lemma AtIndex(blockSize: nat, pos: nat, i: nat, off: nat)
    requires At(blockSize, pos, i, off) && off < blockSize
    ensures IsIndex(blockSize, pos, i)
  {}

  /** Every block that was taken is one of the list. */
  ghost predicate Listed(before: Disk, after: Disk, list: seq<Word32>) {
    forall k :: k in after && k !in before ==> k in list
  }

  /** On the way the branch grows, and every block that is taken goes into it. */
  ghost predicate Takes(before: Disk, writing: bool, wids: seq<Word32>,
                        after: Disk, writing': bool, wids': seq<Word32>)
  {
    && (writing ==> writing' && wids <= wids')
    && (if writing' then Listed(before, after, wids') else after.Keys == before.Keys)
  }

  lemma TakesNone(before: Disk, writing: bool, wids: seq<Word32>, after: Disk)
    requires after.Keys == before.Keys
    ensures Takes(before, writing, wids, after, writing, wids)
  {}

  lemma TakesOne(before: Disk, writing: bool, wids: seq<Word32>, after: Disk, block: Word32, wids': seq<Word32>)
    requires OnlyBlock(before, after, block) && block in wids' && (writing ==> wids <= wids')
    ensures Takes(before, writing, wids, after, true, wids')
  {}

  lemma TakesThen(d0: Disk, w0: bool, l0: seq<Word32>, d1: Disk, w1: bool, l1: seq<Word32>,
                  d2: Disk, w2: bool, l2: seq<Word32>)
    requires Takes(d0, w0, l0, d1, w1, l1) && Takes(d1, w1, l1, d2, w2, l2)
    ensures Takes(d0, w0, l0, d2, w2, l2)
  {}

  lemma TakesListed(d0: Disk, w0: bool, l0: seq<Word32>, d1: Disk, w1: bool, l1: seq<Word32>)
    requires Takes(d0, w0, l0, d1, w1, l1)
    ensures w1 ==> Listed(d0, d1, l1)
    ensures !w1 ==> forall list :: Listed(d0, d1, list)
  {}

  lemma ListedNone(before: Disk, list: seq<Word32>)
    ensures Listed(before, before, list)
  {}

  /** A new block for the branch, behind what has been written so far or behind the old file's bytes. */
  method NewBlock(dev: Device, head: Word32, size: nat, pos: nat, writing: bool, block0: Word32,
                  ghost ids: seq<Word32>, ghost wids: seq<Word32>)
    returns (ok: bool, block: Word32, off: nat, ghost wids': seq<Word32>)
    requires Committed(dev.blocks, dev.blockSize, ids, head, size) && pos <= POS_MAX
    requires writing ==> WritingAt(dev.blocks, dev.blockSize, ids, wids, pos, block0, dev.blockSize)
    requires !writing ==> pos <= size
    modifies dev
    ensures !ok ==> dev.blocks == old(dev.blocks) && dev.Full() && (writing ==> block == block0)
    ensures ok ==> OnlyBlock(old(dev.blocks), dev.blocks, block) && block !in old(dev.blocks) && block !in ids
    ensures ok ==> Branch(dev.blocks, dev.blockSize, wids', pos, off)
    ensures ok ==> wids'[|wids'| - 1] == block && off < dev.blockSize
    ensures ok ==> pos <= |Data(dev.blocks, wids')|
    ensures ok ==> Data(dev.blocks, wids')[..pos] == Front(old(dev.blocks), ids, wids, writing, pos)
    ensures ok && writing ==> wids' == wids + [block]
  {
    if pos > 0 { LargeBlocks(dev.blockSize, pos - 1); }
    hide Ctz, Popc, Start, Data, LinkedAt, SameBlock, IndexCondition, Linked, DataOff;
    block := block0;
    ghost var base := wids;
    ghost var before := dev.blocks;
    if !writing {
      base := [];
      if pos > 0 {
        block, base := FindBase(dev.blocks, dev.blockSize, head, size, pos, ids);
      }
    } else {
      WritingIndex(dev.blocks, dev.blockSize, ids, wids, pos, block0);
    }
    var nblock, noff;
    ok, nblock, noff, wids' := Extend(dev, block, pos, base);
    if ok {
      block, off := nblock, noff;
      NewNotIn(before, dev.blockSize, ids, block);
      assert Data(before, base)[..pos] == Front(before, ids, wids, writing, pos);
    } else {
      off := 0;
    }
  }

  /** When the branch has filled its block, the last byte lies in it. */
  lemma WritingIndex(disk: Disk, blockSize: nat, ids: seq<Word32>, wids: seq<Word32>, pos: nat, block: Word32)
    requires WritingAt(disk, blockSize, ids, wids, pos, block, blockSize)
    ensures pos > 0 && IsIndex(blockSize, pos - 1, |wids| - 1)
  {
    WritingIndexAt(disk, blockSize, ids, wids, pos, block, blockSize);
  }

  lemma WritingIndexAt(disk: Disk, blockSize: nat, ids: seq<Word32>, wids: seq<Word32>, pos: nat, block: Word32,
                       off: nat)
    requires WritingAt(disk, blockSize, ids, wids, pos, block, off)
    ensures pos > 0 && IsIndex(blockSize, pos - 1, |wids| - 1)
  {
    var i := |wids| - 1;
    AllPointersFit(blockSize);
    StartMonotone(blockSize, 0, i);
    assert Start(blockSize, i + 1) == Start(blockSize, i) + blockSize - DataOff(i);
  }

  /** What programming the last block of a branch does to the bytes of the file. */
  lemma FrontGrows(before: Disk, after: Disk, blockSize: nat, ids: seq<Word32>, wids: seq<Word32>, pos: nat, off: nat,
                   data: seq<Byte>, head: Word32, size: nat)
    requires Committed(before, blockSize, ids, head, size)
    requires Branch(before, blockSize, wids, pos, off) && wids[|wids| - 1] !in ids && data != []
    requires Programmed(before, after, blockSize, wids[|wids| - 1], off, data)
    ensures Committed(after, blockSize, ids, head, size) && Data(after, ids) == Data(before, ids)
    ensures WritingAt(after, blockSize, ids, wids, pos + |data|, wids[|wids| - 1], off + |data|)
    ensures pos <= |Data(before, wids)|
    ensures Data(after, wids)[..pos + |data|] == Data(before, wids)[..pos] + data
  {
    CommittedKept(before, after, wids[|wids| - 1], blockSize, ids, head, size);
    BranchProg(before, after, blockSize, wids, pos, off, data);
  }

  lemma GrownSame(disk: Disk, writing: bool, block: Word32)
    ensures Grown(disk, writing, block, disk, writing, block)
  {}

  lemma GrownClosed(d0: Disk, w0: bool, b0: Word32, d1: Disk, w1: bool, b1: Word32, b2: Word32)
    requires Grown(d0, w0, b0, d1, w1, b1)
    ensures Grown(d0, w0, b0, d1, false, b2)
  {}

  lemma GrownThen(d0: Disk, w0: bool, b0: Word32, d1: Disk, w1: bool, b1: Word32, d2: Disk, w2: bool, b2: Word32)
    requires Grown(d0, w0, b0, d1, w1, b1) && Grown(d1, w1, b1, d2, w2, b2)
    ensures Grown(d0, w0, b0, d2, w2, b2)
  {
    forall k: Word32 | !(w0 && k == b0) ensures SameBlock(d0, d2, k) {
      assert SameBlock(d0, d1, k);
      if k in d0 { assert SameBlock(d1, d2, k); }
    }
    if !(w0 && b2 == b0) { assert SameBlock(d0, d1, b2); }
  }

  ghost predicate ReadyAt(disk: Disk, blockSize: nat, ids: seq<Word32>, wids: seq<Word32>, head: Word32, size: nat,
                          pos: nat, block: Word32, off: nat, front: seq<Byte>)
  {
    && Committed(disk, blockSize, ids, head, size)
    && Branch(disk, blockSize, wids, pos, off) && wids[|wids| - 1] == block && block !in ids && off < blockSize
    && pos <= |Data(disk, wids)| && Data(disk, wids)[..pos] == front
  }

  /** A branch becomes the file. */
  lemma BranchCommitted(disk: Disk, blockSize: nat, ids: seq<Word32>, wids: seq<Word32>, pos: nat, block: Word32,
                        off: nat)
    requires blockSize >= BLOCK_MIN && WritingAt(disk, blockSize, ids, wids, pos, block, off) && pos <= POS_MAX
    ensures Committed(disk, blockSize, wids, block, pos)
  {
    WritingIndexAt(disk, blockSize, ids, wids, pos, block, off);
  }

  datatype Result<T> = Ok(value: T) | BadF | Inval | NoSpace

  class File {
    const dev: Device
    const mode: Mode
    var head: Word32
    var size: nat
    var pos: nat
    var block: Word32
    var off: nat
    var reading: bool
    var writing: bool
    var dirty: bool
    var erred: bool
    /** The blocks of the old file and of the branch. */
    ghost var ids: seq<Word32>
    ghost var wids: seq<Word32>

    ghost predicate Valid()
      reads this, dev
    {
      && pos <= POS_MAX
      && Committed(dev.blocks, dev.blockSize, ids, head, size)
      && !(reading && writing) && (writing ==> mode.writable)
      && (mode.append && writing ==> pos >= size)
      && ReaderOk(dev.blockSize, ids, Reader(pos, reading, block, off))
      && (writing ==> pos <= POS_MAX && WritingAt(dev.blocks, dev.blockSize, ids, wids, pos, block, off))
    }

    ghost function Contents(): seq<Byte>
      requires Valid()
      reads this, dev
    {
      BytesOf(dev.blocks, ids, wids, size, writing, pos)
    }

    /** The array and the position that the file stands for. */
    ghost function Abstract(): Plain
      requires Valid()
      reads this, dev
    {
      Plain(Contents(), pos)
    }

    /** lfs_file_open, once the directory entry has named the head and the size of the file. */
    constructor (dev: Device, mode: Mode, truncate: bool, head: Word32, size: nat, ghost ids: seq<Word32>)
      requires Committed(dev.blocks, dev.blockSize, ids, head, size)
      ensures Valid() && this.dev == dev && this.mode == mode && !reading && !writing && !erred
      ensures dirty == (truncate && size != 0)
      ensures Abstract() == Plain(if truncate then [] else Data(dev.blocks, ids)[..size], 0)
    {
      this.dev, this.mode := dev, mode;
      this.head, this.size, this.ids := head, size, ids;
      pos, reading, writing, dirty, erred := 0, false, false, false, false;
      block, off, wids := 0, 0, [];
      if truncate {
        if size != 0 {
          dirty := true;
        }
        this.head, this.size, this.ids := 0xffff_ffff, 0, [];
      }
    }

    /** A block would have to be taken, and there is none. */
    ghost predicate NoRoom()
      reads this, dev
    {
      dev.Full() && (writing ==> off == dev.blockSize)
    }

    /** Ready to program: a branch with room in its last block, behind the bytes `front`. */
    ghost predicate Ready(front: seq<Byte>)
      reads this, dev
    {
      ReadyAt(dev.blocks, dev.blockSize, ids, wids, head, size, pos, block, off, front)
    }

    /** The current block has room, or a new one is taken. */
    method EnsureRoom() returns (ok: bool)
      requires Valid() && mode.writable && !reading && (writing || pos <= size) && pos < POS_MAX
      modifies this, dev
      ensures unchanged(`head, `size, `pos, `ids, `reading, `dirty)
      ensures Data(dev.blocks, ids) == old(Data(dev.blocks, ids))
      ensures Grown(old(dev.blocks), old(writing), old(block), dev.blocks, writing, block)
      ensures Takes(old(dev.blocks), old(writing), old(wids), dev.blocks, writing, wids)
      ensures !ok ==> Valid() && writing == old(writing) && erred && NoRoom()
      ensures !ok ==> Before() == old(Before()) && Old() == old(Old())
      ensures ok ==> writing && erred == old(erred) && Ready(old(Front(dev.blocks, ids, wids, writing, pos)))
    {
      hide Ctz, Start, LinkedAt, Data;
      ok := true;
      ghost var w0, l0 := writing, wids;
      TakesNone(dev.blocks, w0, l0, dev.blocks);
      if !writing || off == dev.blockSize {
        ghost var before := dev.blocks;
        var b, o;
        ghost var w;
        ok, b, o, w := NewBlock(dev, head, size, pos, writing, block, ids, wids);
        block := b;
        if !ok {
          erred := true;
          return;
        }
        CommittedKept(before, dev.blocks, block, dev.blockSize, ids, head, size);
        off, wids, writing := o, w, true;
        TakesOne(before, w0, l0, dev.blocks, block, wids);
      }
    }

    /** Programs what fits into the current block. */
    method ProgSome(data: seq<Byte>, ghost front: seq<Byte>) returns (n: nat)
      requires Ready(front) && data != []
      modifies this, dev
      ensures unchanged(`head, `size, `ids, `wids, `reading, `writing, `dirty, `erred, `block)
      ensures 0 < n <= |data| && pos == old(pos) + n
      ensures Grown(old(dev.blocks), true, block, dev.blocks, true, block)
      ensures dev.blocks.Keys == old(dev.blocks).Keys
      ensures Committed(dev.blocks, dev.blockSize, ids, head, size)
      ensures Data(dev.blocks, ids) == old(Data(dev.blocks, ids))
      ensures WritingAt(dev.blocks, dev.blockSize, ids, wids, pos, block, off)
      ensures Data(dev.blocks, wids)[..pos] == front + data[..n]
    {
      hide Data, Start, Linked;
      ghost var before := dev.blocks;
      n := Min(|data|, dev.blockSize - off);
      BlockOf(before, dev.blockSize, wids, |wids| - 1);
      dev.Prog(block, off, data[..n]);
      FrontGrows(before, dev.blocks, dev.blockSize, ids, wids, pos, off, data[..n], head, size);
      pos, off := pos + n, off + n;
    }

    /** The bytes before the position, and those of the old file. */
    ghost function Before(): seq<Byte>
      requires Valid() && (writing || pos <= size)
      reads this, dev
    {
      Front(dev.blocks, ids, wids, writing, pos)
    }

    ghost function Old(): seq<Byte>
      requires Valid()
      reads this, dev
    {
      Data(dev.blocks, ids)[..size]
    }

    /** The contents are the bytes before the position and what the old file has behind it. */
    lemma Parts()
      requires Valid() && (writing || pos <= size)
      ensures |Before()| == pos && |Old()| == size && Contents() == Before() + Rest(Old(), pos)
    {}

    /** One round of the loop of lfs_file_write: what fits into the current block. */
    method WriteSome(data: seq<Byte>) returns (ok: bool, n: nat)
      requires Valid() && mode.writable && !reading && (writing || pos <= size) && (mode.append ==> pos >= size)
      requires data != [] && pos + |data| <= POS_MAX
      modifies this, dev
      ensures Valid() && unchanged(`head, `size, `ids, `reading, `dirty) && (writing || pos <= size)
      ensures Grown(old(dev.blocks), old(writing), old(block), dev.blocks, writing, block)
      ensures Takes(old(dev.blocks), old(writing), old(wids), dev.blocks, writing, wids)
      ensures ok ==> 0 < n <= |data| && writing
      ensures !ok ==> n == 0 && writing == old(writing) && erred && NoRoom()
      ensures pos == old(pos) + n && Old() == old(Old()) && Before() == old(Before()) + data[..n]
    {
      hide Takes;
      ghost var before, writing0, block0, wids0 := dev.blocks, writing, block, wids;
      n := 0;
      ok := EnsureRoom();
      if ok {
        ghost var ready := dev.blocks;
        n := ProgSome(data, old(Before()));
        TakesNone(ready, true, wids, dev.blocks);
        TakesThen(before, writing0, wids0, ready, true, wids, dev.blocks, true, wids);
        GrownThen(before, writing0, block0, ready, true, block, dev.blocks, true, block);
      }
    }

    /** The loop of lfs_file_write. */
    method WriteBytes(data: seq<Byte>) returns (ok: bool)
      requires Valid() && mode.writable && !reading && (writing || pos <= size) && (mode.append ==> pos >= size)
      requires pos + |data| <= POS_MAX
      modifies this, dev
      ensures Valid() && unchanged(`head, `size, `ids, `reading, `dirty) && (writing || pos <= size)
      ensures Grown(old(dev.blocks), old(writing), old(block), dev.blocks, writing, block)
      ensures Takes(old(dev.blocks), old(writing), old(wids), dev.blocks, writing, wids)
      ensures old(writing) || (ok && data != []) ==> writing
      ensures if ok then pos == old(pos) + |data| && !erred
              else erred && NoRoom() && old(pos) <= pos < old(pos) + |data|
      ensures Old() == old(Old()) && Before() == old(Before()) + data[..pos - old(pos)]
    {
      hide Committed, WritingAt, ReaderOk, Front, Grown, Takes;
      ghost var d0, w0, b0, l0, p0, front := dev.blocks, writing, block, wids, pos, Before();
      TakesNone(d0, w0, l0, d0);
      var done := 0;
      ok := true;
      GrownSame(d0, w0, b0);
      while done < |data|
        invariant Valid() && mode.writable && (writing || pos <= size) && done <= |data|
        invariant unchanged(`head, `size, `ids, `reading, `dirty)
        invariant Grown(d0, w0, b0, dev.blocks, writing, block) && Takes(d0, w0, l0, dev.blocks, writing, wids)
        invariant w0 || done > 0 ==> writing
        invariant pos == p0 + done && Old() == old(Old()) && Before() == front + data[..done]
      {
        ghost var d1, w1, b1, l1 := dev.blocks, writing, block, wids;
        var n;
        ok, n := WriteSome(data[done..]);
        GrownThen(d0, w0, b0, d1, w1, b1, dev.blocks, writing, block);
        TakesThen(d0, w0, l0, d1, w1, l1, dev.blocks, writing, wids);
        assert data[..done] + data[done..][..n] == data[..done + n];
        if !ok {
          return;
        }
        done := done + n;
      }
      erred := false;
    }

    /** Copies the next byte of the old file, as lfs_file_flush does through a second file object. */
    method CopyByte(orig0: Reader) returns (ok: bool, orig: Reader)
      requires Valid() && writing && pos < size && orig0.pos == pos && ReaderOk(dev.blockSize, ids, orig0)
      requires !mode.append
      modifies this, dev
      ensures Valid() && writing && unchanged(`head, `size, `ids, `reading, `dirty) && Old() == old(Old())
      ensures Grown(old(dev.blocks), old(writing), old(block), dev.blocks, writing, block)
      ensures Takes(old(dev.blocks), old(writing), old(wids), dev.blocks, writing, wids)
      ensures if ok then pos == old(pos) + 1 && !erred else pos == old(pos) && erred && NoRoom()
      ensures Before() == if ok then old(Before()) + [old(Old())[old(pos)]] else old(Before())
      ensures orig.pos == old(pos) + 1 && ReaderOk(dev.blockSize, ids, orig)
    {
      var data;
      data, orig := ReadBytes(dev.blocks, dev.blockSize, head, size, orig0, 1, ids);
      assert data == [Old()[pos]];
      ok := WriteBytes(data);
    }

    /** The rest of the old file is copied behind the branch. */
    method CopyRest() returns (ok: bool)
      requires Valid() && writing
      modifies this, dev
      ensures Valid() && writing && unchanged(`head, `size, `ids, `reading, `dirty) && Old() == old(Old())
      ensures Grown(old(dev.blocks), old(writing), old(block), dev.blocks, writing, block)
      ensures Takes(old(dev.blocks), old(writing), old(wids), dev.blocks, writing, wids)
      ensures old(pos) <= pos <= |old(Contents())| && Before() == old(Contents())[..pos]
      ensures if ok then pos >= size && erred == (old(erred) && old(pos) >= size) else pos < size && erred && NoRoom()
    {
      hide Committed, WritingAt, Front, Grown, BytesOf, Takes;
      Parts();
      ghost var c, front, d0, w0, b0, l0, p0 := Contents(), Before(), dev.blocks, writing, block, wids, pos;
      GrownSame(d0, w0, b0);
      TakesNone(d0, w0, l0, d0);
      var orig := Reader(pos, false, 0, 0);
      ok := true;
      while pos < size
        invariant Valid() && writing && unchanged(`head, `size, `ids, `reading, `dirty) && Old() == old(Old())
        invariant Grown(d0, w0, b0, dev.blocks, writing, block) && Takes(d0, w0, l0, dev.blocks, writing, wids)
        invariant p0 <= pos <= |c| && Before() == c[..pos]
        invariant erred == (old(erred) && pos == p0)
        invariant orig.pos == pos && ReaderOk(dev.blockSize, ids, orig)
        decreases size - pos
      {
        ghost var d1, w1, b1, l1 := dev.blocks, writing, block, wids;
        CopyNext(c, front, Old(), pos);
        ok, orig := CopyByte(orig);
        GrownThen(d0, w0, b0, d1, w1, b1, dev.blocks, writing, block);
        TakesThen(d0, w0, l0, d1, w1, l1, dev.blocks, writing, wids);
        if !ok {
          return;
        }
      }
    }

    /** The branch becomes the file. */
    method Adopt(position: nat)
      requires Valid() && writing && pos >= size && position <= POS_MAX && !reading
      modifies this
      ensures Valid() && !reading && !writing && dirty && pos == position && erred == old(erred)
      ensures Contents() == old(Before()) && head == old(block) && size == old(pos) && ids == old(wids)
      ensures unchanged(`block)
    {
      BranchCommitted(dev.blocks, dev.blockSize, ids, wids, pos, block, off);
      head, size, writing, dirty := block, pos, false, true;
      ids := wids;
      pos := position;
    }

    /**
      lfs_file_flush: contents and position stay. When the device is full the position is lost, but
      not the contents.
    */
    method Flush() returns (ok: bool)
      requires Valid()
      modifies this, dev
      ensures Valid() && Contents() == old(Contents())
      ensures Grown(old(dev.blocks), old(writing), old(block), dev.blocks, writing, block)
      ensures Listed(old(dev.blocks), dev.blocks, if writing then wids else ids)
      ensures if ok then !reading && !writing && pos == old(pos)
              else old(writing) && writing && pos < size && erred && NoRoom()
      ensures dirty == (old(dirty) || (ok && old(writing)))
      ensures ok && old(writing) ==> erred == (old(erred) && old(pos) >= old(size))
      ensures !old(writing) ==> unchanged(`head, `size, `ids, `wids, `dirty, `erred, `block, `off)
      ensures !old(writing) ==> dev.blocks == old(dev.blocks)
    {
      reading := false;
      ok := true;
      if writing {
        ok := FlushBranch();
      } else {
        GrownSame(dev.blocks, writing, block);
        ListedNone(dev.blocks, ids);
      }
    }

    method FlushBranch() returns (ok: bool)
      requires Valid() && writing
      modifies this, dev
      ensures Valid() && Contents() == old(Contents())
      ensures Grown(old(dev.blocks), old(writing), old(block), dev.blocks, writing, block)
      ensures Listed(old(dev.blocks), dev.blocks, if writing then wids else ids)
      ensures if ok then !reading && !writing && pos == old(pos) && dirty
              else dirty == old(dirty) && writing && pos < size && erred && NoRoom()
      ensures ok ==> erred == (old(erred) && old(pos) >= old(size))
    {
      hide Committed, WritingAt, Front, Grown, BytesOf, Takes, Listed;
      Parts();
      ghost var c, front := Contents(), Before();
      var position := pos;
      ok := CopyRest();
      TakesListed(old(dev.blocks), true, old(wids), dev.blocks, true, wids);
      Parts();
      RestSame(c, front, Old(), pos);
      PartSame(c, pos);
      if ok {
        CopyAll(c, front, Old(), pos);
        GrownClosed(old(dev.blocks), true, old(block), dev.blocks, true, block, block);
        Adopt(position);
      }
    }

    /** lfs_file_read */
    method Read(n: nat) returns (r: Result<seq<Byte>>)
      requires Valid()
      modifies this, dev
      ensures Valid() && Contents() == old(Contents()) && (r.Ok? || r.BadF? || r.NoSpace?)
      ensures Grown(old(dev.blocks), old(writing), old(block), dev.blocks, writing, block)
      ensures Listed(old(dev.blocks), dev.blocks, if writing then wids else ids)
      ensures r.BadF? <==> !mode.readable
      ensures r.BadF? ==> unchanged(this) && dev.blocks == old(dev.blocks)
      ensures r.NoSpace? ==> old(writing) && writing && pos < size && erred && NoRoom()
      ensures r.Ok? ==> !writing && dirty == (old(dirty) || old(writing))
      ensures !old(writing) ==> dev.blocks == old(dev.blocks) && unchanged(`head, `size, `ids, `dirty, `erred)
      ensures r.Ok? ==> r.value == ReadOf(old(Abstract()), n) && pos == old(pos) + |r.value|
    {
      GrownSame(dev.blocks, writing, block);
      ListedNone(dev.blocks, if writing then wids else ids);
      if !mode.readable {
        return BadF;
      }
      hide Committed, WritingAt, ReaderOk, BytesOf, Grown, Data, Listed;
      if writing {
        var ok := Flush();
        if !ok {
          return NoSpace;
        }
      }
      Idle();
      if pos >= size {
        return Ok([]);
      }
      var data := ReadSize(Min(n, size - pos));
      return Ok(data);
    }

    lemma Idle()
      requires Valid() && !writing
      ensures |Contents()| == size <= POS_MAX && Contents() == Old()
    {}

    method ReadSize(n: nat) returns (data: seq<Byte>)
      requires Valid() && !writing && pos + n <= size
      modifies this
      ensures Valid() && !writing && Contents() == old(Contents()) && pos == old(pos) + n
      ensures unchanged(`head, `size, `ids, `dirty, `erred)
      ensures data == Contents()[old(pos)..pos]
    {
      var r;
      hide Ctz, Start, LinkedAt, Data;
      ghost var all := Data(dev.blocks, ids);
      data, r := ReadBytes(dev.blocks, dev.blockSize, head, size, Reader(pos, reading, block, off), n, ids);
      assert all[..size][pos..pos + n] == all[pos..pos + n];
      pos, reading, block, off := r.pos, r.reading, r.block, r.off;
    }

    /** What lies behind the end is filled with zeros up to `position`. */
    method Fill(position: nat) returns (ok: bool)
      requires Valid() && mode.writable && !reading && !writing && size < position <= POS_MAX && pos == size
      modifies this, dev
      ensures Valid() && !reading && (writing || pos <= size) && unchanged(`head, `size, `ids, `dirty)
      ensures Old() == old(Contents())
      ensures Grown(old(dev.blocks), old(writing), old(block), dev.blocks, writing, block)
      ensures Takes(old(dev.blocks), old(writing), old(wids), dev.blocks, writing, wids)
      ensures if ok then pos == position && writing else size <= pos < position && erred && NoRoom()
      ensures Before() == Upto(old(Contents()), pos)
    {
      hide Committed, WritingAt, Grown, Takes;
      ghost var c, d0, w0, b0, l0 := Contents(), dev.blocks, writing, block, wids;
      GrownSame(d0, w0, b0);
      TakesNone(d0, w0, l0, d0);
      ok := true;
      while pos < position
        invariant Valid() && !reading && unchanged(`head, `size, `ids, `dirty) && Old() == c && size <= pos <= position
        invariant pos == size || writing
        invariant Grown(d0, w0, b0, dev.blocks, writing, block) && Takes(d0, w0, l0, dev.blocks, writing, wids)
        invariant Before() == Upto(c, pos)
        decreases position - pos
      {
        ghost var d1, w1, b1, l1 := dev.blocks, writing, block, wids;
        UptoNext(c, pos);
        ok := WriteBytes([0]);
        GrownThen(d0, w0, b0, d1, w1, b1, dev.blocks, writing, block);
        TakesThen(d0, w0, l0, d1, w1, l1, dev.blocks, writing, wids);
        if !ok {
          return;
        }
      }
    }

    /**
      lfs_file_write. When the device is full, some of the bytes up to the new position have been
      written and nothing else has changed.
    */
    method Write(data: seq<Byte>) returns (r: Result<nat>)
      requires Valid() && WritePos(mode, Abstract()) + |data| <= POS_MAX
      modifies this, dev
      ensures Valid() && (r.Ok? || r.BadF? || r.NoSpace?)
      ensures Grown(old(dev.blocks), old(writing), old(block), dev.blocks, writing, block)
      ensures Takes(old(dev.blocks), old(writing), old(wids), dev.blocks, writing, wids)
      ensures r.BadF? <==> !mode.writable
      ensures r.BadF? ==> unchanged(this) && dev.blocks == old(dev.blocks)
      ensures unchanged(`head, `size, `ids, `dirty)
      ensures var at := old(WritePos(mode, Abstract()));
              var full := Written(old(Contents()), at, data);
              && (r.Ok? ==> r.value == |data| && Abstract() == Plain(full, at + |data|) && !erred)
              && (r.NoSpace? ==> erred && NoRoom() && pos < at + |data|)
              && (r.NoSpace? ==> pos <= |full| && Contents() == PartWritten(old(Contents()), full, pos))
    {
      GrownSame(dev.blocks, writing, block);
      TakesNone(dev.blocks, writing, wids, dev.blocks);
      if !mode.writable {
        return BadF;
      }
      hide Committed, WritingAt, ReaderOk, BytesOf, Grown, Written, Takes;
      StartWriting();
      var ok := WriteAt(data);
      return if ok then Ok(|data|) else NoSpace;
    }

    /** Reads are dropped, and in append mode the position moves to the end. */
    method StartWriting()
      requires Valid() && mode.writable
      modifies this, dev
      ensures Valid() && !reading && Contents() == old(Contents()) && pos == old(WritePos(mode, Abstract()))
      ensures unchanged(`writing, `block, `head, `size, `ids, `wids, `dirty, `off) && dev.blocks == old(dev.blocks)
      ensures mode.append ==> pos >= size
    {
      if reading {
        var ok := Flush();
      }
      if mode.append && pos < size {
        pos := size;
      }
    }

    /** Filling, if there is anything to fill, and writing. */
    method WriteAt(data: seq<Byte>) returns (ok: bool)
      requires Valid() && mode.writable && !reading && pos + |data| <= POS_MAX && (mode.append ==> pos >= size)
      modifies this, dev
      ensures Valid() && Grown(old(dev.blocks), old(writing), old(block), dev.blocks, writing, block)
      ensures Takes(old(dev.blocks), old(writing), old(wids), dev.blocks, writing, wids)
      ensures unchanged(`head, `size, `ids, `dirty)
      ensures var full := Written(old(Contents()), old(pos), data);
        && (ok ==> Abstract() == Plain(full, old(pos) + |data|) && !erred)
        && (!ok ==> erred && NoRoom() && pos < old(pos) + |data|)
        && (!ok ==> pos <= |full| && Contents() == PartWritten(old(Contents()), full, pos))
    {
      hide Committed, WritingAt, ReaderOk, Front, BytesOf, Grown, Takes, Written, PartWritten, Upto, Rest;
      ghost var c, p, d0, w0, b0, l0 := Contents(), pos, dev.blocks, writing, block, wids;
      ok := MakeRoom();
      ghost var d, d1, w1, b1, l1 := Old(), dev.blocks, writing, block, wids;
      if !ok {
        WriteStopped(c, p, data, pos);
        return;
      }
      ok := WriteBytes(data);
      GrownThen(d0, w0, b0, d1, w1, b1, dev.blocks, writing, block);
      TakesThen(d0, w0, l0, d1, w1, l1, dev.blocks, writing, wids);
      Parts();
      WriteStopped(c, p, data, pos);
      assert Rest(d, pos) == Rest(c, pos);
      assert pos == p ==> Upto(c, p) + data[..pos - p] == Upto(c, pos);
    }

    /** The zeros up to the position, when it lies behind the end. */
    method MakeRoom() returns (ok: bool)
      requires Valid() && mode.writable && !reading && pos <= POS_MAX && (mode.append ==> pos >= size)
      modifies this, dev
      ensures Valid() && !reading && (writing || pos <= size) && unchanged(`head, `size, `ids, `dirty)
      ensures Grown(old(dev.blocks), old(writing), old(block), dev.blocks, writing, block)
      ensures Takes(old(dev.blocks), old(writing), old(wids), dev.blocks, writing, wids)
      ensures if ok then pos == old(pos) else pos < old(pos) && erred && NoRoom()
      ensures !ok ==> Contents() == Upto(old(Contents()), pos) + Rest(old(Contents()), pos)
      ensures mode.append ==> pos >= size
      ensures Before() == Upto(old(Contents()), pos)
      ensures forall x: nat :: x >= pos ==> Rest(Old(), x) == Rest(old(Contents()), x)
    {
      ok := true;
      if !writing && pos > size {
        var position := pos;
        pos := size;
        ok := Fill(position);
        Parts();
      } else {
        hide Committed, WritingAt, ReaderOk, Front, BytesOf, Grown, Takes;
        GrownSame(dev.blocks, writing, block);
        TakesNone(dev.blocks, writing, wids, dev.blocks);
        Parts();
        forall x: nat | x >= pos ensures Rest(Old(), x) == Rest(Contents(), x) {
          RestSame(Contents(), Before(), Old(), x);
        }
      }
    }

    /** lfs_file_seek */
    method Seek(off: int, whence: Whence) returns (r: Result<nat>)
      requires Valid() && Signed32(off)
      modifies this, dev
      ensures Valid() && Contents() == old(Contents()) && (r.Ok? || r.Inval? || r.NoSpace?)
      ensures |old(Contents())| <= POS_MAX
      ensures Grown(old(dev.blocks), old(writing), old(block), dev.blocks, writing, block)
      ensures Listed(old(dev.blocks), dev.blocks, if writing then wids else ids)
      ensures r.Ok? ==> SeekOf(old(Abstract()), off, whence) == Number(r.value) && pos == r.value
      ensures r.NoSpace? ==> old(writing) && writing && pos < size && erred && NoRoom()
      ensures !r.NoSpace? ==> dirty == (old(dirty) || old(writing))
      ensures !old(writing) ==> dev.blocks == old(dev.blocks) && unchanged(`head, `size, `ids, `dirty, `erred)
      ensures r.Inval? ==> SeekOf(old(Abstract()), off, whence) == Invalid && pos == old(pos)
      ensures !r.NoSpace? ==> !writing
    {
      hide Committed, WritingAt, ReaderOk, BytesOf, Grown, Listed;
      Bounded();
      var ok := Flush();
      if !ok {
        return NoSpace;
      }
      Idle();
      match whence {
        case Set =>
          MoveTo(Wrapped(off));
        case Current =>
          if off < 0 && -off > pos {
            return Inval;
          }
          MoveTo(Wrapped(pos + off));
        case End =>
          if off < 0 && -off > size {
            return Inval;
          }
          MoveTo(Wrapped(size + off));
      }
      return Ok(pos);
    }

    method MoveTo(position: nat)
      requires Valid() && !reading && !writing && position <= POS_MAX
      modifies `pos
      ensures Valid() && pos == position && Contents() == old(Contents())
    {
      pos := position;
    }

    lemma Bounded()
      requires Valid()
      ensures |Contents()| <= POS_MAX
    {}

    /** One operation against the byte array. */
    method Do(op: Op) returns (out: Out)
      requires Valid() && Fits(mode, Abstract(), op)
      modifies this, dev
      ensures Valid()
      ensures out == Failed ==> NoRoom() && Interrupted(mode, old(Abstract()), op, Abstract())
      ensures out == Failed ==> op.Write? || old(writing)
      ensures !op.Write? && !old(writing) ==> dev.blocks == old(dev.blocks) && !writing && unchanged(`dirty, `erred)
      ensures Listed(old(dev.blocks), dev.blocks, if writing then wids else ids)
      ensures out != Failed ==> (Abstract(), out) == Step(mode, old(Abstract()), op)
    {
      hide Committed, WritingAt, ReaderOk, BytesOf, Grown, Takes, Listed;
      match op {
        case Read(n) =>
          var r := Read(n);
          out := match r case Ok(data) => Bytes(data) case BadF => BadFile case _ => Failed;
        case Write(data) =>
          var r := Write(data);
          TakesListed(old(dev.blocks), old(writing), old(wids), dev.blocks, writing, wids);
          assert Listed(old(dev.blocks), dev.blocks, if writing then wids else ids);
          out := match r case Ok(n) => Number(n) case BadF => BadFile case _ => Failed;
        case Seek(off, whence) =>
          var r := Seek(off, whence);
          out := match r case Ok(n) => Number(n) case Inval => Invalid case _ => Failed;
        case Flush =>
          var ok := Flush();
          out := if ok then Number(0) else Failed;
      }
    }

    /** Any run of operations, up to the first for which the device had no room. */
    method Run(ops: seq<Op>) returns (outs: seq<Out>)
      requires Valid() && AllFit(mode, Abstract(), ops)
      modifies this, dev
      ensures Valid()
      ensures NoWrites(ops) && !old(writing) ==> |outs| == |ops| && dev.blocks == old(dev.blocks)
      ensures |outs| <= |Outs(mode, old(Abstract()), ops)| == |ops|
      ensures outs == Outs(mode, old(Abstract()), ops)[..|outs|]
      ensures var last := old(After(mode, Abstract(), ops, |outs|));
        if |outs| == |ops| then Abstract() == last else NoRoom() && Interrupted(mode, last, ops[|outs|], Abstract())
    {
      hide Committed, WritingAt, ReaderOk, BytesOf, Grown, Fits, Step, Interrupted;
      ghost var start := Abstract();
      outs := [];
      ghost var all := Outs(mode, Abstract(), ops);
      OutsLength(mode, Abstract(), ops);
      assert ops[0..] == ops;
      while |outs| < |ops|
        invariant Valid() && |outs| <= |ops| && AllFit(mode, Abstract(), ops[|outs|..])
        invariant all == outs + Outs(mode, Abstract(), ops[|outs|..])
        invariant Abstract() == After(mode, start, ops, |outs|)
        invariant NoWrites(ops) && !old(writing) ==> !writing && dev.blocks == old(dev.blocks)
        decreases |ops| - |outs|
      {
        ghost var rest := ops[|outs|..];
        AfterNext(mode, start, ops, |outs|);
        var out := Do(ops[|outs|]);
        if out == Failed {
          return;
        }
        assert rest[0] == ops[|outs|] && rest[1..] == ops[|outs| + 1..];
        outs := outs + [out];
      }
    }
  }

  /** A file that is named by a directory stays what it is while others, and its own branch, are written. */
  lemma OldFileKept(before: Disk, blockSize: nat, ids: seq<Word32>, head: Word32, size: nat, writing: bool,
                    block: Word32,
                    after: Disk, writing': bool, block': Word32)
    requires Committed(before, blockSize, ids, head, size) && Grown(before, writing, block, after, writing', block')
    requires writing ==> block !in ids
    ensures Committed(after, blockSize, ids, head, size) && Data(after, ids) == Data(before, ids)
  {
    ListKept(before, blockSize, ids, writing, block, after, writing', block');
  }

  lemma {:induction false} ListKept(before: Disk, blockSize: nat, ids: seq<Word32>, writing: bool, block: Word32,
                                    after: Disk, writing': bool, block': Word32)
    requires Linked(before, blockSize, ids) && Grown(before, writing, block, after, writing', block')
    requires writing ==> block !in ids
    ensures Linked(after, blockSize, ids) && Data(after, ids) == Data(before, ids)
    decreases |ids|
  {
    forall k: nat | k < |ids| ensures LinkedAt(after, blockSize, ids, k) {
      assert LinkedAt(before, blockSize, ids, k);
      assert ids[k] in ids && SameBlock(before, after, ids[k]);
    }
    if ids != [] {
      var last := |ids| - 1;
      assert LinkedAt(before, blockSize, ids, last);
      assert ids[last] in ids && SameBlock(before, after, ids[last]);
      LinkedPrefix(before, blockSize, ids, last);
      ListKept(before, blockSize, ids[..last], writing, block, after, writing', block');
    }
  }
}
