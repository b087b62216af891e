/**
  The reversed skip list in which a file's blocks hang together: block i > 0 points to the blocks
  i - 1, i - 2, i - 4, .., i - 2^ctz(i). Finding a block, extending the list and walking it.
*/
module SkipList {
  import opened Gf2Poly
  import opened CtzIndex
  import opened Crc
  import opened LfsCrc

  type Block = seq<Byte>
  type Disk = map<Word32, Block>

  /** Pointer s of block id. */
  function Pointer(disk: Disk, id: Word32, s: nat): Word32
    requires id in disk && 4 * s + 4 <= |disk[id]|
  {
    FromLe32(disk[id][4 * s..4 * s + 4])
  }

  /** Block k of the list is ids[k]. */
  ghost predicate LinkedAt(disk: Disk, blockSize: nat, ids: seq<Word32>, k: nat)
    requires k < |ids|
  {
    && ids[k] in disk && |disk[ids[k]]| == blockSize
    && (k > 0 ==> PointsBack(disk[ids[k]], ids, k))
  }

  /** The pointers of block k lead to k - 2^s for every s up to ctz(k). */
  ghost predicate PointsBack(block: Block, ids: seq<Word32>, k: nat)
    requires 0 < k <= |ids|
  {
    && DataOff(k) <= |block|
    && forall s: nat :: s <= Ctz(k) ==> PointsTo(block, ids, k, s)
  }

  ghost predicate PointsTo(block: Block, ids: seq<Word32>, k: nat, s: nat) {
    Pow2(s) <= k <= |ids| && 4 * s + 4 <= |block| && FromLe32(block[4 * s..4 * s + 4]) == ids[k - Pow2(s)]
  }

  ghost predicate Linked(disk: Disk, blockSize: nat, ids: seq<Word32>) {
    forall k: nat :: k < |ids| ==> LinkedAt(disk, blockSize, ids, k)
  }

  /** The bytes of a pointer: slot s of block k names block k - 2^s, low byte first, before the data. */
  lemma PointerBytes(disk: Disk, blockSize: nat, ids: seq<Word32>, k: nat, s: nat)
    requires Linked(disk, blockSize, ids) && 0 < k < |ids| && s <= Ctz(k)
    ensures ids[k] in disk && |disk[ids[k]]| == blockSize && Pow2(s) <= k && 4 * s + 4 <= DataOff(k) <= blockSize
    ensures var b: seq<nat> := disk[ids[k]];
      ids[k - Pow2(s)] == b[4 * s] + 0x100 * b[4 * s + 1] + 0x1_0000 * b[4 * s + 2] + 0x100_0000 * b[4 * s + 3]
  {
    hide Ctz, Pow2;
    assert LinkedAt(disk, blockSize, ids, k);
    assert PointsTo(disk[ids[k]], ids, k, s);
  }

  // ---------- trailing zeros and powers ----------

  lemma {:induction false} PowerOfCtz(k: nat)
    requires k > 0
    ensures Pow2(Ctz(k)) <= k
  {
    if k % 2 == 0 { PowerOfCtz(k / 2); }
  }

  lemma CtzOfDouble(h: nat)
    requires h > 0
    ensures Ctz(2 * h) == 1 + Ctz(h)
  {
    assert (2 * h) / 2 == h && (2 * h) % 2 == 0;
  }

  /** Leaving a block by its longest pointer arrives at one with longer pointers. */
  lemma {:induction false} CtzAfterLongest(k: nat)
    requires k > 0 && k > Pow2(Ctz(k))
    ensures Ctz(k - Pow2(Ctz(k))) > Ctz(k)
  {
    var h := k / 2;
    if k % 2 == 0 {
      assert k == 2 * h;
      CtzOfDouble(h);
      CtzAfterLongest(h);
      CtzOfDouble(h - Pow2(Ctz(h)));
    } else {
      assert k - 1 == 2 * h && Pow2(0) == 1;
      CtzOfDouble(h);
    }
  }

  /** Leaving it by a shorter one arrives at a block whose longest pointer is of that length. */
  lemma {:induction false} CtzAfterShorter(k: nat, s: nat)
    requires k > 0 && s < Ctz(k)
    ensures k > Pow2(s) && Ctz(k - Pow2(s)) == s
    decreases s
  {
    PowerOfCtz(k); Pow2Monotone(s + 1, Ctz(k));
    var h := k / 2;
    assert k == 2 * h && Ctz(k) == 1 + Ctz(h);
    if s > 0 {
      CtzAfterShorter(h, s - 1);
      CtzOfDouble(h - Pow2(s - 1));
    }
  }

  /** The pointers of block k, one by one. */
  lemma FollowPointer(disk: Disk, blockSize: nat, ids: seq<Word32>, k: nat, s: nat)
    requires Linked(disk, blockSize, ids) && 0 < k < |ids| && s <= Ctz(k)
    ensures ids[k] in disk && 4 * s + 4 <= |disk[ids[k]]| && Pow2(s) <= k
    ensures Pointer(disk, ids[k], s) == ids[k - Pow2(s)]
  {
    assert LinkedAt(disk, blockSize, ids, k);
    assert PointsTo(disk[ids[k]], ids, k, s);
  }

  // ---------- finding ----------

  /** Bound on the hops left: twice the length of the distance, less what the block's pointers save. */
  ghost function HopBound(current: nat, distance: nat): nat {
    if distance == 0 || current == 0 then 0
    else if Ctz(current) < Len(distance) then 2 * Len(distance) - Ctz(current) else Len(distance)
  }

  function Min(a: nat, b: nat): nat {
    if a < b then a else b
  }

  /** How far a hop goes: as far as the distance and the block's pointers allow. */
  function Skip(current: nat, distance: nat): nat
    requires current > 0 && distance > 0
  {
    Min(Len(distance) - 1, Ctz(current))
  }

  lemma SkipFits(current: nat, distance: nat)
    requires 0 < distance <= current
    ensures Skip(current, distance) <= Ctz(current) && Pow2(Skip(current, distance)) <= distance
    ensures Len(distance - Pow2(Skip(current, distance))) <= Len(distance)
    ensures Ctz(current) + 1 >= Len(distance) ==> Len(distance - Pow2(Skip(current, distance))) < Len(distance)
  {
    var len, skip := Len(distance), Skip(current, distance);
    LenSpec(distance);
    Pow2Monotone(skip, len - 1);
    var rest := distance - Pow2(skip);
    LenBelow(rest, len);
    LenBelow(rest, len - 1);
  }

  lemma CtzGrows(current: nat, distance: nat)
    requires 0 < distance <= current && current > Pow2(Skip(current, distance))
    ensures Ctz(current - Pow2(Skip(current, distance))) >= Skip(current, distance)
    ensures Ctz(current) + 1 < Len(distance) ==> Ctz(current - Pow2(Skip(current, distance))) > Ctz(current)
  {
    SkipFits(current, distance);
    var skip := Skip(current, distance);
    if skip < Ctz(current) { CtzAfterShorter(current, skip); } else { CtzAfterLongest(current); }
  }

  /** One hop: it does not pass the target and uses up a hop of the bound. */
  lemma Hop(current: nat, distance: nat)
    requires 0 < distance <= current
    ensures var skip := Skip(current, distance);
      && Pow2(skip) <= distance
      && HopBound(current - Pow2(skip), distance - Pow2(skip)) < HopBound(current, distance)
  {
    SkipFits(current, distance);
    var step := Pow2(Skip(current, distance));
    if distance > step {
      CtzGrows(current, distance);
    }
  }

  /** Following the pointer of a hop. */
  lemma HopFollows(disk: Disk, blockSize: nat, ids: seq<Word32>, current: nat, target: nat, skip: nat)
    requires Linked(disk, blockSize, ids) && target < current < |ids| && skip == Skip(current, current - target)
    ensures ids[current] in disk && 4 * skip + 4 <= |disk[ids[current]]|
    ensures Pow2(skip) <= current - target && Pointer(disk, ids[current], skip) == ids[current - Pow2(skip)]
    ensures HopBound(current - Pow2(skip), current - Pow2(skip) - target) < HopBound(current, current - target)
  {
    Hop(current, current - target);
    SkipFits(current, current - target);
    FollowPointer(disk, blockSize, ids, current, skip);
  }

  /** lfs_ctz_find, from block index to block index. */
  method FindIndex(disk: Disk, blockSize: nat, head0: Word32, current0: nat, target: nat, ghost ids: seq<Word32>)
    returns (head: Word32, ghost hops: nat)
    requires Linked(disk, blockSize, ids) && |ids| == current0 + 1 && ids[current0] == head0
    requires target <= current0
    ensures head == ids[target]
    ensures hops <= 2 * Len(current0 - target)
  {
    head, hops := head0, 0;
    var current := current0;
    ghost var bound := HopBound(current0, current0 - target);
    assert bound <= 2 * Len(current0 - target);
    while current > target
      invariant target <= current <= current0 && head == ids[current]
      invariant hops + HopBound(current, current - target) <= bound
    {
      var skip := Min(Npw2(current - target + 1) - 1, Ctz(current));
      HopFollows(disk, blockSize, ids, current, target, skip);
      head := Pointer(disk, head, skip);
      current := current - Pow2(skip);
      hops := hops + 1;
    }
  }

  // ---------- the device ----------

  /** A device on which reads, erases and programs succeed, with the blocks that are in use. */
  class Device {
    const blockSize: nat
    const blockCount: Word32
    var blocks: Disk

    constructor (blockSize: nat, blockCount: Word32)
      ensures this.blockSize == blockSize && this.blockCount == blockCount && blocks == map[]
    {
      this.blockSize := blockSize;
      this.blockCount := blockCount;
      blocks := map[];
    }

    /** No block is left. */
    ghost predicate Full()
      reads this
    {
      forall id: Word32 :: id < blockCount ==> id in blocks
    }

    /** Some block that is not in use, erased; or none if there is no such block. */
    method Alloc() returns (ok: bool, id: Word32)
      modifies this
      ensures ok ==> id < blockCount && id !in old(blocks) && blocks == old(blocks)[id := seq(blockSize, _ => 0xff)]
      ensures !ok ==> blocks == old(blocks) && Full()
    {
      if free: Word32 :| 0 <= free < blockCount && free !in blocks {
        blocks := blocks[free := seq(blockSize, _ => 0xff)];
        return true, free;
      }
      return false, 0;
    }

    method Prog(id: Word32, off: nat, data: seq<Byte>)
      requires id in blocks && off + |data| <= |blocks[id]|
      modifies this
      ensures blocks == old(blocks)[id := old(blocks)[id][..off] + data + old(blocks)[id][off + |data|..]]
    {
      blocks := blocks[id := blocks[id][..off] + data + blocks[id][off + |data|..]];
    }
  }

  /** Block id is in use, and apart from it the blocks are as they were. */
  ghost predicate OnlyBlock(before: Disk, after: Disk, id: Word32) {
    after.Keys == before.Keys + {id} && forall k: Word32 :: k != id ==> SameBlock(before, after, k)
  }

  ghost predicate SameBlock(before: Disk, after: Disk, k: Word32) {
    k in before ==> k in after && after[k] == before[k]
  }

  lemma OnlyBlockThen(before: Disk, mid: Disk, after: Disk, id: Word32)
    requires OnlyBlock(before, mid, id) && OnlyBlock(mid, after, id)
    ensures OnlyBlock(before, after, id)
  {
    forall k: Word32 | k != id ensures SameBlock(before, after, k) {
      assert SameBlock(before, mid, k) && SameBlock(mid, after, k);
    }
  }

  lemma LinkedKept(before: Disk, after: Disk, id: Word32, blockSize: nat, ids: seq<Word32>)
    requires Linked(before, blockSize, ids) && OnlyBlock(before, after, id) && id !in ids
    ensures Linked(after, blockSize, ids)
  {
    forall k: nat | k < |ids| ensures LinkedAt(after, blockSize, ids, k) {
      assert LinkedAt(before, blockSize, ids, k);
      assert ids[k] in ids && SameBlock(before, after, ids[k]);
    }
  }

  lemma LinkedPrefix(disk: Disk, blockSize: nat, ids: seq<Word32>, n: nat)
    requires Linked(disk, blockSize, ids) && n <= |ids|
    ensures Linked(disk, blockSize, ids[..n])
  {
    forall k: nat | k < n ensures LinkedAt(disk, blockSize, ids[..n], k) {
      assert LinkedAt(disk, blockSize, ids, k);
      if k > 0 {
        forall s: nat | s <= Ctz(k) ensures PointsTo(disk[ids[k]], ids[..n], k, s) {
          assert PointsTo(disk[ids[k]], ids, k, s);
        }
      }
    }
  }

  /** A list grows by a block that points back into it. */
  lemma LinkedAppend(disk: Disk, blockSize: nat, ids: seq<Word32>, id: Word32)
    requires Linked(disk, blockSize, ids) && id in disk && |disk[id]| == blockSize
    requires |ids| > 0 ==> PointsBack(disk[id], ids, |ids|)
    ensures Linked(disk, blockSize, ids + [id])
  {
    var all := ids + [id];
    forall k: nat | k < |all| ensures LinkedAt(disk, blockSize, all, k) {
      if k < |ids| { assert LinkedAt(disk, blockSize, ids, k); }
      var b := disk[all[k]];
      if k > 0 {
        forall s: nat | s <= Ctz(k) ensures PointsTo(b, all, k, s) {
          assert PointsTo(b, ids, k, s);
        }
      }
    }
  }

  // ---------- extending ----------

  /** Copies the first n bytes of a block, one at a time. */
  method CopyBytes(dev: Device, from: Word32, to: Word32, n: nat)
    requires from in dev.blocks && to in dev.blocks && from != to
    requires n <= |dev.blocks[from]| && n <= |dev.blocks[to]|
    modifies dev
    ensures OnlyBlock(old(dev.blocks), dev.blocks, to)
    ensures |dev.blocks[to]| == |old(dev.blocks)[to]|
    ensures dev.blocks[to][..n] == old(dev.blocks)[from][..n]
  {
    ghost var before := dev.blocks;
    for i := 0 to n
      invariant OnlyBlock(before, dev.blocks, to) && from in dev.blocks && dev.blocks[from] == before[from]
      invariant |dev.blocks[to]| == |before[to]|
      invariant dev.blocks[to][..i] == before[from][..i]
    {
      var data := dev.blocks[from][i];
      ghost var b, mid := dev.blocks[to], dev.blocks;
      assert SameBlock(before, mid, from);
      dev.Prog(to, i, [data]);
      OnlyBlockThen(before, mid, dev.blocks, to);
      assert dev.blocks[to][..i + 1] == b[..i] + [data];
      assert before[from][..i + 1] == before[from][..i] + [data];
    }
  }

  /** The first n pointers of a new block k have been written. */
  ghost predicate PointersWritten(block: Block, ids: seq<Word32>, k: nat, n: nat) {
    4 * n <= |block| && forall s: nat :: s < n ==> PointsTo(block, ids, k, s)
  }

  /** Programming pointer n keeps the ones before it. */
  lemma PointerWritten(b: Block, b': Block, ids: seq<Word32>, k: nat, n: nat, head: Word32)
    requires PointersWritten(b, ids, k, n) && 4 * n + 4 <= |b|
    requires b' == b[..4 * n] + Le32(head) + b[4 * n + 4..]
    requires Pow2(n) <= k <= |ids| && head == ids[k - Pow2(n)]
    ensures PointersWritten(b', ids, k, n + 1)
  {
    LeRoundTrip(head);
    assert b'[4 * n..4 * n + 4] == Le32(head);
    forall s: nat | s < n + 1 ensures PointsTo(b', ids, k, s) {
      if s < n {
        assert PointsTo(b, ids, k, s);
        assert b'[4 * s..4 * s + 4] == b[4 * s..4 * s + 4];
      }
    }
  }

  /** The loop that writes the pointers of a new block: slot i takes the block that is 2^i behind. */
  method WritePointers(dev: Device, head0: Word32, nblock: Word32, ghost ids: seq<Word32>, index: nat)
    requires |ids| == index > 0 && ids[index - 1] == head0 && nblock !in ids
    requires Linked(dev.blocks, dev.blockSize, ids)
    requires nblock in dev.blocks && |dev.blocks[nblock]| == dev.blockSize && DataOff(index) <= dev.blockSize
    modifies dev
    ensures OnlyBlock(old(dev.blocks), dev.blocks, nblock)
    ensures |dev.blocks[nblock]| == dev.blockSize && PointsBack(dev.blocks[nblock], ids, index)
  {
    ghost var before := dev.blocks;
    var head := head0;
    var skips := Ctz(index) + 1;
    PowerOfCtz(index);
    for i := 0 to skips
      invariant OnlyBlock(before, dev.blocks, nblock) && |dev.blocks[nblock]| == dev.blockSize
      invariant PointersWritten(dev.blocks[nblock], ids, index, i)
      invariant i < skips ==> Pow2(i) <= index && head == ids[index - Pow2(i)]
    {
      ghost var b, mid := dev.blocks[nblock], dev.blocks;
      dev.Prog(nblock, 4 * i, Le32(head));
      OnlyBlockThen(before, mid, dev.blocks, nblock);
      PointerWritten(b, dev.blocks[nblock], ids, index, i, head);
      if i != skips - 1 {
        LinkedKept(before, dev.blocks, nblock, dev.blockSize, ids);
        CtzAfterShorter(index, i);
        FollowPointer(dev.blocks, dev.blockSize, ids, index - Pow2(i), i);
        Pow2Monotone(i + 1, skips - 1);
        head := Pointer(dev.blocks, head, i);
      }
    }
  }

  // ---------- walking ----------

  function Reversed(ids: seq<Word32>): seq<Word32> {
    if ids == [] then [] else [ids[|ids| - 1]] + Reversed(ids[..|ids| - 1])
  }

  lemma ReversedStep(ids: seq<Word32>, i: nat)
    requires i < |ids|
    ensures Reversed(ids[..i + 1]) == [ids[i]] + Reversed(ids[..i]) && Reversed(ids[..0]) == []
  {
    assert ids[..i + 1][..i] == ids[..i];
  }

  /** The first two pointers. */
  lemma OneBack(index: nat)
    requires index > 0
    ensures Pow2(0) == 1 && Pow2(1) == 2 && (index % 2 == 0 ==> index >= 2 && Ctz(index) >= 1)
  {}

  /** lfs_ctz_traverse, with the blocks handed to the callback gathered in a list. */
  method Traverse(disk: Disk, blockSize: nat, head0: Word32, index0: nat, ghost ids: seq<Word32>)
    returns (visited: seq<Word32>)
    requires Linked(disk, blockSize, ids) && |ids| == index0 + 1 && ids[index0] == head0
    ensures visited == Reversed(ids)
  {
    hide Linked, Reversed, Ctz, Pow2, Pointer;
    visited := [];
    var head, index := head0, index0;
    assert ids[..index + 1] == ids;
    while true
      invariant 0 <= index <= index0 && head == ids[index]
      invariant visited + Reversed(ids[..index + 1]) == Reversed(ids)
      decreases index
    {
      visited := visited + [head];
      ReversedStep(ids, index);
      if index == 0 {
        return;
      }
      OneBack(index);
      FollowPointer(disk, blockSize, ids, index, 0);
      var count := 2 - index % 2;
      var heads0 := Pointer(disk, head, 0);
      if count == 2 {
        FollowPointer(disk, blockSize, ids, index, 1);
        visited := visited + [heads0];
        ReversedStep(ids, index - 1);
        head := Pointer(disk, head, 1);
      } else {
        head := heads0;
      }
      index := index - count;
    }
  }

  /** Every block is visited exactly once. */
  lemma {:induction false} ReversedVisitsOnce(ids: seq<Word32>)
    ensures |Reversed(ids)| == |ids|
    ensures forall k :: 0 <= k < |ids| ==> Reversed(ids)[k] == ids[|ids| - 1 - k]
  {
    if ids != [] { ReversedVisitsOnce(ids[..|ids| - 1]); }
  }
}
