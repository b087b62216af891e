/**
  Metadata pairs: a directory lives in two blocks that are rewritten in turn. Fetch picks the newer
  valid block; commit erases the older one and writes header, spliced entries and checksum into it.
*/
module MetadataPair {
  import opened Crc
  import opened LfsCrc

  type Block = seq<Byte>

  /** struct lfs_disk_dir; the top bit of size says that the directory continues in tail. */
  datatype Header = Header(rev: Word32, size: Word32, tail0: Word32, tail1: Word32)

  const HEADER_LEN := 16
  const INIT: Word32 := 0xffff_ffff

  function HeaderBytes(h: Header): (bs: seq<Byte>)
    ensures |bs| == HEADER_LEN
  {
    Le32(h.rev) + Le32(h.size) + Le32(h.tail0) + Le32(h.tail1)
  }

  function ParseHeader(b: Block): Header
    requires |b| >= HEADER_LEN
  {
    Header(FromLe32(b[..4]), FromLe32(b[4..8]), FromLe32(b[8..12]), FromLe32(b[12..16]))
  }

  lemma HeaderRoundTrip(h: Header, b: Block)
    requires |b| >= HEADER_LEN && b[..HEADER_LEN] == HeaderBytes(h)
    ensures ParseHeader(b) == h
  {
    var hb := HeaderBytes(h);
    assert b[..4] == hb[..4] == Le32(h.rev);
    assert b[4..8] == hb[4..8] == Le32(h.size);
    assert b[8..12] == hb[8..12] == Le32(h.tail0);
    assert b[12..16] == hb[12..16] == Le32(h.tail1);
    LeRoundTrip(h.rev); LeRoundTrip(h.size); LeRoundTrip(h.tail0); LeRoundTrip(h.tail1);
  }

  /** The number in four bytes, the low one first. */
  function Word(b0: Byte, b1: Byte, b2: Byte, b3: Byte): Word32 {
    b0 + 0x100 * b1 + 0x1_0000 * b2 + 0x100_0000 * b3
  }

  /** Where the four fields lie. */
  lemma HeaderLayout(b: Block)
    requires |b| >= HEADER_LEN
    ensures var h := ParseHeader(b);
      && h.rev == Word(b[0], b[1], b[2], b[3]) && h.size == Word(b[4], b[5], b[6], b[7])
      && h.tail0 == Word(b[8], b[9], b[10], b[11]) && h.tail1 == Word(b[12], b[13], b[14], b[15])
      && b[..HEADER_LEN] == HeaderBytes(h)
  {
    FieldAt(b, 0); FieldAt(b, 4); FieldAt(b, 8); FieldAt(b, 12);
    hide FromLe32, Le32, Word;
    assert b[..HEADER_LEN] == b[..4] + b[4..8] + b[8..12] + b[12..16];
  }

  lemma FieldAt(b: Block, i: nat)
    requires i + 4 <= |b|
    ensures FromLe32(b[i..i + 4]) == Word(b[i], b[i + 1], b[i + 2], b[i + 3])
    ensures Le32(FromLe32(b[i..i + 4])) == b[i..i + 4]
  {
    LeUnique(b[i..i + 4]);
  }

  /** 0x7fffffff & size */
  function EndOf(size: Word32): nat {
    if size >= 0x8000_0000 then size - 0x8000_0000 else size
  }

  /** The checks that fetch makes on one block. */
  predicate BlockValid(b: Block) {
    && |b| >= HEADER_LEN + 4
    && var end := EndOf(ParseHeader(b).size);
       HEADER_LEN + 4 <= end <= |b| && CrcOf(INIT, b[..end]) == 0
  }

  /** lfs_scmp: the difference as a signed 32-bit number. */
  function Scmp(a: Word32, b: Word32): int {
    var d := if a >= b then a - b else a - b + 0x1_0000_0000;
    if d >= 0x8000_0000 then d - 0x1_0000_0000 else d
  }

  /** The signed number that differs from a - b by a multiple of 2^32. */
  lemma ScmpIs(a: Word32, b: Word32)
    ensures -0x8000_0000 <= Scmp(a, b) < 0x8000_0000 && (Scmp(a, b) - (a - b)) % 0x1_0000_0000 == 0
  {}

  /** A valid block: its size is within it, and the checksum of so many bytes, its own four included, is zero. */
  lemma ValidIs(b: Block)
    ensures BlockValid(b) <==>
      |b| >= 20 && var end := Word(b[4], b[5], b[6], b[7]) % 0x8000_0000;
                   20 <= end <= |b| && Register(0xffff_ffff, b[..end]) == 0
  {
    hide Register, CrcOf, ParseHeader, EndOf, Word;
    if |b| >= 20 {
      EndIs(b);
      var end := EndOf(ParseHeader(b).size);
      if end <= |b| { CrcIsRegister(INIT, b[..end]); }
    }
  }

  lemma EndIs(b: Block)
    requires |b| >= HEADER_LEN
    ensures EndOf(ParseHeader(b).size) == Word(b[4], b[5], b[6], b[7]) % 0x8000_0000
  {
    hide ParseHeader, HeaderBytes, Word;
    HeaderLayout(b);
  }

  function Next(rev: Word32): Word32 {
    if rev == 0xffff_ffff then 0 else rev + 1
  }

  datatype Fetched = Corrupt | Found(first: nat, second: nat, header: Header)

  /** What fetch returns for the blocks x and y, in this order. */
  function FetchOf(blocks: seq<Block>, x: nat, y: nat): Fetched
    requires x < |blocks| && y < |blocks|
  {
    var vx, vy := BlockValid(blocks[x]), BlockValid(blocks[y]);
    if vx && !(vy && Scmp(ParseHeader(blocks[y]).rev, ParseHeader(blocks[x]).rev) >= 0)
    then Found(x, y, ParseHeader(blocks[x]))
    else if vy then Found(y, x, ParseHeader(blocks[y]))
    else Corrupt
  }

  // ---------- what makes a pair safe ----------

  /** Block a holds h and is the newer one: b is invalid or less than half the revisions behind. */
  ghost predicate PairOk(blocks: seq<Block>, a: nat, b: nat, h: Header) {
    && a < |blocks| && b < |blocks| && a != b
    && BlockValid(blocks[a]) && ParseHeader(blocks[a]) == h
    && (BlockValid(blocks[b]) ==> Scmp(h.rev, ParseHeader(blocks[b]).rev) > 0)
  }

  /** Fetch finds y if it is valid and x is not newer, and otherwise x if that is valid. */
  lemma FetchSound(blocks: seq<Block>, x: nat, y: nat)
    requires x < |blocks| && y < |blocks|
    ensures var f := FetchOf(blocks, x, y);
      var one, other := blocks[x], blocks[y];
      if BlockValid(other) && !(BlockValid(one) && Scmp(ParseHeader(other).rev, ParseHeader(one).rev) < 0)
      then f == Found(y, x, ParseHeader(other))
      else if BlockValid(one) then f == Found(x, y, ParseHeader(one)) else f == Corrupt
  {}

  /** The newer block is found whatever the order of the pair. */
  lemma FetchFindsNewer(blocks: seq<Block>, a: nat, b: nat, h: Header)
    requires PairOk(blocks, a, b, h)
    ensures FetchOf(blocks, a, b) == FetchOf(blocks, b, a) == Found(a, b, h)
  {}

  /**
    Two valid blocks are told apart whatever the order exactly when their revisions differ,
    and by other than half the range, where either seems older than the other.
  */
  lemma OrderMatters(blocks: seq<Block>, x: nat, y: nat)
    requires x < |blocks| && y < |blocks| && x != y && BlockValid(blocks[x]) && BlockValid(blocks[y])
    ensures FetchOf(blocks, x, y) == FetchOf(blocks, y, x) <==>
              var d := Scmp(ParseHeader(blocks[x]).rev, ParseHeader(blocks[y]).rev); d != 0 && d != -0x8000_0000
  {}

  lemma NextIsNewer(rev: Word32)
    ensures Scmp(Next(rev), rev) == 1 && Scmp(Next(Next(rev)), rev) == 2
  {}

  // ---------- splicing ----------

  /** Replace oldlen bytes at oldoff by newdata. */
  datatype Region = Region(oldoff: nat, oldlen: nat, newdata: seq<Byte>)

  /** Regions in order, apart, and between from and end. */
  ghost predicate Ordered(regions: seq<Region>, from: nat, end: nat)
    decreases |regions|
  {
    if regions == [] then from <= end
    else from <= regions[0].oldoff && Ordered(regions[1..], regions[0].oldoff + regions[0].oldlen, end)
  }

  lemma {:induction false} OrderedEnd(regions: seq<Region>, from: nat, end: nat)
    requires Ordered(regions, from, end)
    ensures from <= end
    ensures regions != [] ==> regions[0].oldoff + regions[0].oldlen <= end
    decreases |regions|
  {
    if regions != [] { OrderedEnd(regions[1..], regions[0].oldoff + regions[0].oldlen, end); }
  }

  /** The bytes from..end of the old block with the regions replaced. */
  ghost function Spliced(b: Block, regions: seq<Region>, from: nat, end: nat): seq<Byte>
    requires Ordered(regions, from, end) && end <= |b|
    decreases |regions|
  {
    OrderedEnd(regions, from, end);
    if regions == [] then b[from..end]
    else
      var r := regions[0];
      b[from..r.oldoff] + r.newdata + Spliced(b, regions[1..], r.oldoff + r.oldlen, end)
  }

  /** How many bytes the regions add. */
  function Growth(regions: seq<Region>): int
    decreases |regions|
  {
    if regions == [] then 0 else |regions[0].newdata| - regions[0].oldlen + Growth(regions[1..])
  }

  lemma {:induction false} SplicedLength(b: Block, regions: seq<Region>, from: nat, end: nat)
    requires Ordered(regions, from, end) && end <= |b|
    ensures |Spliced(b, regions, from, end)| == end - from + Growth(regions)
    decreases |regions|
  {
    OrderedEnd(regions, from, end);
    if regions != [] { SplicedLength(b, regions[1..], regions[0].oldoff + regions[0].oldlen, end); }
  }

  /** A byte outside the regions is copied. */
  lemma SplicedCopy(b: Block, regions: seq<Region>, from: nat, end: nat)
    requires Ordered(regions, from, end) && end <= |b|
    requires regions != [] ==> regions[0].oldoff != from
    requires Spliced(b, regions, from, end) != []
    ensures from < end && Ordered(regions, from + 1, end)
    ensures Spliced(b, regions, from, end) == [b[from]] + Spliced(b, regions, from + 1, end)
  {
    OrderedEnd(regions, from, end);
    if regions != [] {
      var r := regions[0];
      var head, rest := b[from + 1..r.oldoff], r.newdata + Spliced(b, regions[1..], r.oldoff + r.oldlen, end);
      assert b[from..r.oldoff] == [b[from]] + head;
      assert Spliced(b, regions, from, end) == ([b[from]] + head) + rest;
      assert Spliced(b, regions, from + 1, end) == head + rest;
    } else {
      assert b[from..end] == [b[from]] + b[from + 1..end];
    }
  }

  lemma SplicedRegion(b: Block, regions: seq<Region>, from: nat, end: nat)
    requires Ordered(regions, from, end) && end <= |b|
    requires regions != [] && regions[0].oldoff == from
    ensures Ordered(regions[1..], from + regions[0].oldlen, end)
    ensures Spliced(b, regions, from, end)
         == regions[0].newdata + Spliced(b, regions[1..], from + regions[0].oldlen, end)
  {
    var r := regions[0];
    OrderedEnd(regions, from, end);
    var rest := Spliced(b, regions[1..], from + r.oldlen, end);
    assert Spliced(b, regions, from, end) == b[from..from] + r.newdata + rest;
  }

  // ---------- the image that a commit writes ----------

  ghost function Body(h: Header, b: Block, regions: seq<Region>, end: nat): seq<Byte>
    requires Ordered(regions, HEADER_LEN, end) && end <= |b|
  {
    HeaderBytes(h) + Spliced(b, regions, HEADER_LEN, end)
  }

  function WithCrc(body: seq<Byte>): seq<Byte> {
    body + Le32(CrcOf(INIT, body))
  }

  /** An erased block of n bytes with a prefix written. */
  function Partial(prefix: seq<Byte>, n: nat): (b: Block)
    requires |prefix| <= n
    ensures |b| == n
  {
    prefix + seq(n - |prefix|, _ => 0xff)
  }

  /** A complete image is valid and carries its header. */
  lemma ImageValid(h: Header, body: seq<Byte>, n: nat)
    requires |body| >= HEADER_LEN && body[..HEADER_LEN] == HeaderBytes(h)
    requires EndOf(h.size) == |body| + 4 <= n
    ensures BlockValid(Partial(WithCrc(body), n)) && ParseHeader(Partial(WithCrc(body), n)) == h
  {
    var image := WithCrc(body);
    var b := Partial(image, n);
    assert b[..HEADER_LEN] == body[..HEADER_LEN];
    HeaderRoundTrip(h, b);
    assert b[..|body| + 4] == image;
    CrcAppend(INIT, body, Le32(CrcOf(INIT, body)));
    ResidueZero(CrcOf(INIT, body), Le32(CrcOf(INIT, body)));
  }

  // ---------- the device and the two operations ----------

  /** A block device that records every state it goes through; power may be cut in any of them. */
  class Disk {
    var blocks: seq<Block>
    ghost var trace: seq<seq<Block>>

    ghost predicate Valid()
      reads this
    {
      |trace| > 0 && trace[|trace| - 1] == blocks
    }

    method Erase(b: nat)
      requires Valid() && b < |blocks|
      modifies this
      ensures Valid() && blocks == old(blocks)[b := Partial([], |old(blocks)[b]|)]
      ensures trace == old(trace) + [blocks]
    {
      blocks := blocks[b := Partial([], |blocks[b]|)];
      trace := trace + [blocks];
    }

    /** Bytes are programmed one at a time. */
    method Prog(b: nat, off: nat, data: seq<Byte>)
      requires Valid() && b < |blocks| && off + |data| <= |blocks[b]|
      modifies this
      ensures Valid() && blocks == Programmed(old(blocks), b, off, data)
      ensures trace == old(trace) + States(old(blocks), b, off, data, |data|)
    {
      ghost var before, t0 := blocks, trace;
      assert before[b] == before[b][..off] + data[..0] + before[b][off..];
      for i := 0 to |data|
        invariant Valid() && blocks == Programmed(before, b, off, data[..i])
        invariant trace == t0 + States(before, b, off, data, i)
      {
        NextProgrammed(before, b, off, data, i);
        blocks := blocks[b := blocks[b][off + i := data[i]]];
        trace := trace + [blocks];
        assert States(before, b, off, data, i + 1) == States(before, b, off, data, i) + [blocks];
      }
      assert data[..|data|] == data;
    }
  }

  /** The device with some bytes of block b replaced. */
  function Programmed(blocks: seq<Block>, b: nat, off: nat, data: seq<Byte>): (r: seq<Block>)
    requires b < |blocks| && off + |data| <= |blocks[b]|
    ensures |r| == |blocks| && |r[b]| == |blocks[b]|
  {
    blocks[b := blocks[b][..off] + data + blocks[b][off + |data|..]]
  }

  /** The device after 1, 2, .., n of the bytes. */
  ghost function States(blocks: seq<Block>, b: nat, off: nat, data: seq<Byte>, n: nat): seq<seq<Block>>
    requires b < |blocks| && off + |data| <= |blocks[b]| && n <= |data|
  {
    seq(n, k requires 0 <= k < n => Programmed(blocks, b, off, data[..k + 1]))
  }

  lemma NextProgrammed(blocks: seq<Block>, b: nat, off: nat, data: seq<Byte>, i: nat)
    requires b < |blocks| && off + |data| <= |blocks[b]| && i < |data|
    ensures var now := Programmed(blocks, b, off, data[..i]);
      Programmed(blocks, b, off, data[..i + 1]) == now[b := now[b][off + i := data[i]]]
  {
    var block := blocks[b];
    var now, next := block[..off] + data[..i] + block[off + i..], block[..off] + data[..i + 1] + block[off + i + 1..];
    assert next == now[off + i := data[i]];
  }

  /** lfs_dir_t: the pair, newest block first, and the header in memory. */
  class Dir {
    var pair0: nat
    var pair1: nat
    var d: Header
  }

  /** lfs_dir_fetch. */
  method Fetch(disk: Disk, dir: Dir, x: nat, y: nat) returns (ok: bool)
    requires x < |disk.blocks| && y < |disk.blocks|
    requires |disk.blocks[x]| >= HEADER_LEN && |disk.blocks[y]| >= HEADER_LEN
    modifies dir
    ensures var f := FetchOf(disk.blocks, x, y);
            ok == f.Found? && (ok ==> dir.pair0 == f.first && dir.pair1 == f.second && dir.d == f.header)
  {
    hide CrcOf;
    ok := false;
    for i := 0 to 2
      invariant i == 0 ==> !ok
      invariant i == 1 ==> ok == BlockValid(disk.blocks[x])
      invariant i == 1 && ok ==> dir.pair0 == x && dir.pair1 == y && dir.d == ParseHeader(disk.blocks[x])
      invariant i == 2 ==> var f := FetchOf(disk.blocks, x, y);
                  ok == f.Found? && (ok ==> dir.pair0 == f.first && dir.pair1 == f.second && dir.d == f.header)
    {
      var here, other := if i == 0 then x else y, if i == 0 then y else x;
      var block := disk.blocks[here];
      var test := ParseHeader(block);
      if ok && Scmp(test.rev, dir.d.rev) < 0 {
        continue;
      }
      if EndOf(test.size) < HEADER_LEN + 4 || EndOf(test.size) > |block| {
        continue;
      }
      var crc := Update(INIT, block[..HEADER_LEN]);
      crc := Update(crc, block[HEADER_LEN..EndOf(test.size)]);
      CrcAppend(INIT, block[..HEADER_LEN], block[HEADER_LEN..EndOf(test.size)]);
      assert block[..HEADER_LEN] + block[HEADER_LEN..EndOf(test.size)] == block[..EndOf(test.size)];
      if crc != 0 {
        continue;
      }
      ok := true;
      dir.pair0, dir.pair1, dir.d := here, other, test;
    }
  }

  // ---------- commit ----------

  ghost predicate Committable(blocks: seq<Block>, a: nat, b: nat, d: Header, regions: seq<Region>) {
    && a < |blocks| && b < |blocks| && a != b
    && HEADER_LEN + 4 <= EndOf(d.size) <= |blocks[a]|
    && Ordered(regions, HEADER_LEN, EndOf(d.size) - 4)
    && HEADER_LEN + 4 <= EndOf(d.size) + Growth(regions) <= |blocks[b]|
    && EndOf(d.size) + Growth(regions) < 0x8000_0000
  }

  /** The header that a commit writes: next revision, new size, flag bit kept. */
  function NewHeader(d: Header, regions: seq<Region>): Header
    requires 0 <= EndOf(d.size) + Growth(regions) < 0x8000_0000
  {
    d.(rev := Next(d.rev), size := d.size + Growth(regions))
  }

  /** What the header of d becomes: the next revision, the size grown, the flag bit and the tail as they were. */
  ghost predicate Succeeds(h: Header, d: Header, growth: int) {
    && h.rev == (d.rev + 1) % 0x1_0000_0000
    && h.size % 0x8000_0000 == d.size % 0x8000_0000 + growth && h.size / 0x8000_0000 == d.size / 0x8000_0000
    && h.tail0 == d.tail0 && h.tail1 == d.tail1
  }

  lemma NewHeaderSucceeds(d: Header, regions: seq<Region>)
    requires 0 <= EndOf(d.size) + Growth(regions) < 0x8000_0000
    ensures Succeeds(NewHeader(d, regions), d, Growth(regions))
  {}

  /** The block has this header, these entries and behind them the checksum of both. */
  ghost predicate Holds(block: Block, h: Header, entries: seq<Byte>) {
    var end := HEADER_LEN + |entries|;
    && end + 4 <= |block| && h.size % 0x8000_0000 == end + 4
    && block[..HEADER_LEN] == HeaderBytes(h) && block[HEADER_LEN..end] == entries
    && block[end..end + 4] == Le32(Register(0xffff_ffff, block[..end]))
  }

  /** Header, spliced entries of the block at a, checksum. */
  ghost function NewImage(blocks: seq<Block>, a: nat, b: nat, d: Header, regions: seq<Region>): seq<Byte>
    requires Committable(blocks, a, b, d, regions)
  {
    WithCrc(Body(NewHeader(d, regions), blocks[a], regions, EndOf(d.size) - 4))
  }

  /** The block that the image makes. */
  lemma ImageHolds(blocks: seq<Block>, a: nat, b: nat, d: Header, regions: seq<Region>, n: nat)
    requires Committable(blocks, a, b, d, regions) && |NewImage(blocks, a, b, d, regions)| <= n
    ensures Holds(Partial(NewImage(blocks, a, b, d, regions), n), NewHeader(d, regions),
                  Spliced(blocks[a], regions, HEADER_LEN, EndOf(d.size) - 4))
  {
    hide CrcOf, Spliced, Ordered, Register;
    NewImageLength(blocks, a, b, d, regions);
    var h, entries := NewHeader(d, regions), Spliced(blocks[a], regions, HEADER_LEN, EndOf(d.size) - 4);
    var body := HeaderBytes(h) + entries;
    var block := Partial(WithCrc(body), n);
    CrcIsRegister(INIT, body);
    assert block[..|body|] == body;
    assert block[..HEADER_LEN] == body[..HEADER_LEN] && block[HEADER_LEN..|body|] == body[HEADER_LEN..];
  }

  lemma NewImageLength(blocks: seq<Block>, a: nat, b: nat, d: Header, regions: seq<Region>)
    requires Committable(blocks, a, b, d, regions)
    ensures |NewImage(blocks, a, b, d, regions)| == EndOf(NewHeader(d, regions).size) <= |blocks[b]|
    ensures EndOf(NewHeader(d, regions).size) == EndOf(d.size) + Growth(regions)
  {
    SplicedLength(blocks[a], regions, HEADER_LEN, EndOf(d.size) - 4);
  }

  /** The device with the first k bytes of the image in the erased block b. */
  ghost function Written(blocks: seq<Block>, b: nat, image: seq<Byte>, k: nat): seq<Block>
    requires b < |blocks| && k <= |image| <= |blocks[b]|
  {
    blocks[b := Partial(image[..k], |blocks[b]|)]
  }

  /** The states that show 0, 1, .., n bytes of the image. */
  ghost function Cuts(blocks: seq<Block>, b: nat, image: seq<Byte>, n: nat): (states: seq<seq<Block>>)
    requires b < |blocks| && n <= |image| <= |blocks[b]|
    ensures |states| == n + 1 && forall k: nat :: k <= n ==> states[k] == Written(blocks, b, image, k)
  {
    seq(n + 1, k requires 0 <= k <= n => Written(blocks, b, image, k))
  }

  /** The trace has gained exactly these states. */
  ghost predicate Gained(before: seq<seq<Block>>, after: seq<seq<Block>>, blocks: seq<Block>, b: nat,
                         image: seq<Byte>, n: nat)
    requires b < |blocks| && n <= |image| <= |blocks[b]|
  {
    after == before + Cuts(blocks, b, image, n)
  }

  lemma WrittenProgrammed(blocks: seq<Block>, b: nat, image: seq<Byte>, off: nat, k: nat)
    requires b < |blocks| && off + k <= |image| <= |blocks[b]|
    ensures Programmed(Written(blocks, b, image, off), b, off, image[off..off + k])
         == Written(blocks, b, image, off + k)
  {
    var n := |blocks[b]|;
    var was := Partial(image[..off], n);
    assert was[..off] + image[off..off + k] + was[off + k..] == Partial(image[..off + k], n);
  }

  /** Programming the next bytes of the image. */
  method Append(disk: Disk, b: nat, off: nat, data: seq<Byte>, ghost blocks: seq<Block>, ghost image: seq<Byte>,
                ghost t0: seq<seq<Block>>)
    requires disk.Valid() && b < |blocks| && |image| <= |blocks[b]|
    requires off + |data| <= |image| && data == image[off..off + |data|]
    requires disk.blocks == Written(blocks, b, image, off) && Gained(t0, disk.trace, blocks, b, image, off)
    modifies disk
    ensures disk.Valid() && disk.blocks == Written(blocks, b, image, off + |data|)
    ensures Gained(t0, disk.trace, blocks, b, image, off + |data|)
  {
    ghost var t1 := disk.trace;
    disk.Prog(b, off, data);
    WrittenProgrammed(blocks, b, image, off, |data|);
    MoreCuts(t0, t1, blocks, b, image, off, data);
  }

  /** The state after k + 1 bytes of a part of the image. */
  lemma StateIsCut(blocks: seq<Block>, b: nat, image: seq<Byte>, off: nat, data: seq<Byte>, k: nat)
    requires b < |blocks| && off + |data| <= |image| <= |blocks[b]| && data == image[off..off + |data|] && k < |data|
    ensures Programmed(Written(blocks, b, image, off), b, off, data[..k + 1]) == Written(blocks, b, image, off + k + 1)
  {
    assert data[..k + 1] == image[off..off + (k + 1)];
    WrittenProgrammed(blocks, b, image, off, k + 1);
  }

  lemma MoreCuts(t0: seq<seq<Block>>, t1: seq<seq<Block>>, blocks: seq<Block>, b: nat, image: seq<Byte>,
                 off: nat, data: seq<Byte>)
    requires b < |blocks| && off + |data| <= |image| <= |blocks[b]| && Gained(t0, t1, blocks, b, image, off)
    requires data == image[off..off + |data|]
    ensures Gained(t0, t1 + States(Written(blocks, b, image, off), b, off, data, |data|),
                   blocks, b, image, off + |data|)
  {
    hide Programmed, Partial;
    var states := States(Written(blocks, b, image, off), b, off, data, |data|);
    var cuts, all := Cuts(blocks, b, image, off), Cuts(blocks, b, image, off + |data|);
    assert all == cuts + states by {
      forall i | 0 <= i < |all| ensures all[i] == (cuts + states)[i] {
        if i > off { StateIsCut(blocks, b, image, off, data, i - off - 1); }
      }
    }
    assert t0 + (cuts + states) == (t0 + cuts) + states;
  }

  /** What the copying loop of commit keeps: the rest of the body is the rest of the splice. */
  ghost predicate Copying(body: seq<Byte>, source: Block, regions: seq<Region>, end: nat, i: nat, oldoff: nat,
                          newoff: nat)
    requires end <= |source|
  {
    && i <= |regions| && newoff <= |body|
    && Ordered(regions[i..], oldoff, end)
    && body[newoff..] == Spliced(source, regions[i..], oldoff, end)
  }

  lemma CopyRegion(body: seq<Byte>, source: Block, regions: seq<Region>, end: nat, i: nat, oldoff: nat, newoff: nat)
    requires end <= |source| && Copying(body, source, regions, end, i, oldoff, newoff)
    requires i < |regions| && regions[i].oldoff == oldoff
    ensures newoff + |regions[i].newdata| <= |body|
    ensures regions[i].newdata == body[newoff..newoff + |regions[i].newdata|]
    ensures Copying(body, source, regions, end, i + 1, oldoff + regions[i].oldlen, newoff + |regions[i].newdata|)
  {
    var data, rest := regions[i].newdata, regions[i + 1..];
    assert regions[i..][1..] == rest;
    SplicedRegion(source, regions[i..], oldoff, end);
    var tail := Spliced(source, rest, oldoff + regions[i].oldlen, end);
    NextBytes(body, newoff, data, tail);
  }

  lemma CopyByte(body: seq<Byte>, source: Block, regions: seq<Region>, end: nat, i: nat, oldoff: nat, newoff: nat)
    requires end <= |source| && Copying(body, source, regions, end, i, oldoff, newoff)
    requires newoff < |body| && (i < |regions| ==> regions[i].oldoff != oldoff)
    ensures oldoff < end && [source[oldoff]] == body[newoff..newoff + 1]
    ensures Copying(body, source, regions, end, i, oldoff + 1, newoff + 1)
  {
    SplicedCopy(source, regions[i..], oldoff, end);
    NextBytes(body, newoff, [source[oldoff]], Spliced(source, regions[i..], oldoff + 1, end));
  }

  lemma NextBytes(body: seq<Byte>, off: nat, data: seq<Byte>, rest: seq<Byte>)
    requires off <= |body| && body[off..] == data + rest
    ensures off + |data| <= |body| && data == body[off..off + |data|] && body[off + |data|..] == rest
  {
    var tail, k := body[off..], |data|;
    assert tail[..k] == data && tail[k..] == rest;
    assert tail[..k] == body[off..off + k] && tail[k..] == body[off + k..];
  }

  lemma NextCrc(body: seq<Byte>, off: nat, k: nat)
    requires off + k <= |body|
    ensures CrcOf(CrcOf(INIT, body[..off]), body[off..off + k]) == CrcOf(INIT, body[..off + k])
  {
    assert body[..off] + body[off..off + k] == body[..off + k];
    CrcAppend(INIT, body[..off], body[off..off + k]);
  }

  method TotalGrowth(regions: seq<Region>) returns (growth: int)
    ensures growth == Growth(regions)
  {
    growth := 0;
    for i := 0 to |regions|
      invariant growth + Growth(regions[i..]) == Growth(regions)
    {
      assert regions[i..][1..] == regions[i + 1..];
      growth := growth + |regions[i].newdata| - regions[i].oldlen;
    }
  }

  /** The body is on the device up to off, and crc is its checksum so far. */
  ghost predicate Emitted(disk: Disk, before: seq<Block>, b: nat, body: seq<Byte>, off: nat, crc: Word32,
                          t0: seq<seq<Block>>)
    reads disk
  {
    && disk.Valid() && b < |before| && |body| + 4 <= |before[b]| && off <= |body|
    && disk.blocks == Written(before, b, WithCrc(body), off)
    && Gained(t0, disk.trace, before, b, WithCrc(body), off)
    && crc == CrcOf(INIT, body[..off])
  }

  /** Checksum and program the next bytes of the body. */
  method Emit(disk: Disk, b: nat, off: nat, data: seq<Byte>, crc0: Word32,
              ghost before: seq<Block>, ghost body: seq<Byte>, ghost t0: seq<seq<Block>>)
    returns (crc: Word32)
    requires Emitted(disk, before, b, body, off, crc0, t0)
    requires off + |data| <= |body| && data == body[off..off + |data|]
    modifies disk
    ensures Emitted(disk, before, b, body, off + |data|, crc, t0)
  {
    hide Written, Gained, CrcOf, Partial;
    crc := Update(crc0, data);
    NextCrc(body, off, |data|);
    assert WithCrc(body)[off..off + |data|] == body[off..off + |data|];
    Append(disk, b, off, data, before, WithCrc(body), t0);
  }

  /** One round of the loop. */
  method CopyNext(disk: Disk, b: nat, source: Block, regions: seq<Region>, end: nat,
                  i: nat, oldoff: nat, newoff: nat, crc: Word32,
                  ghost before: seq<Block>, ghost body: seq<Byte>, ghost t0: seq<seq<Block>>)
    returns (i': nat, oldoff': nat, newoff': nat, crc': Word32)
    requires end <= |source| && newoff < |body|
    requires Copying(body, source, regions, end, i, oldoff, newoff)
    requires Emitted(disk, before, b, body, newoff, crc, t0)
    modifies disk
    ensures Copying(body, source, regions, end, i', oldoff', newoff')
    ensures Emitted(disk, before, b, body, newoff', crc', t0)
    ensures i' == i + 1 || (i' == i && newoff' == newoff + 1)
  {
    hide Emitted, Copying;
    if i < |regions| && regions[i].oldoff == oldoff {
      CopyRegion(body, source, regions, end, i, oldoff, newoff);
      crc' := Emit(disk, b, newoff, regions[i].newdata, crc, before, body, t0);
      i', oldoff', newoff' := i + 1, oldoff + regions[i].oldlen, newoff + |regions[i].newdata|;
    } else {
      CopyByte(body, source, regions, end, i, oldoff, newoff);
      crc' := Emit(disk, b, newoff, [source[oldoff]], crc, before, body, t0);
      i', oldoff', newoff' := i, oldoff + 1, newoff + 1;
    }
  }

  /** The loop of commit: regions replace old bytes, everything else is copied one byte at a time. */
  method CopyEntries(disk: Disk, b: nat, source: Block, regions: seq<Region>, end: nat, newEnd: nat, crc0: Word32,
                     ghost before: seq<Block>, ghost body: seq<Byte>, ghost t0: seq<seq<Block>>)
    returns (crc: Word32)
    requires disk.Valid() && end <= |source| && newEnd == |body| >= HEADER_LEN
    requires b < |before| && |body| + 4 <= |before[b]|
    requires disk.blocks == Written(before, b, WithCrc(body), HEADER_LEN)
    requires Gained(t0, disk.trace, before, b, WithCrc(body), HEADER_LEN)
    requires Copying(body, source, regions, end, 0, HEADER_LEN, HEADER_LEN) && crc0 == CrcOf(INIT, body[..HEADER_LEN])
    modifies disk
    ensures disk.Valid() && disk.blocks == Written(before, b, WithCrc(body), |body|)
    ensures Gained(t0, disk.trace, before, b, WithCrc(body), |body|)
    ensures crc == CrcOf(INIT, body)
  {
    crc := crc0;
    var i: nat, oldoff: nat, newoff: nat := 0, HEADER_LEN, HEADER_LEN;
    while newoff < newEnd
      invariant Copying(body, source, regions, end, i, oldoff, newoff)
      invariant Emitted(disk, before, b, body, newoff, crc, t0)
      decreases |regions| - i, newEnd - newoff
    {
      i, oldoff, newoff, crc := CopyNext(disk, b, source, regions, end, i, oldoff, newoff, crc, before, body, t0);
    }
    assert body[..|body|] == body;
  }

  /** The checksum read back agrees, so that the block is not relocated. */
  method ReadBack(disk: Disk, b: nat, len: nat, crc: Word32, ghost before: seq<Block>, ghost body: seq<Byte>)
    returns (agrees: bool)
    requires b < |before| && len == |body| && len + 4 <= |before[b]| && crc == CrcOf(INIT, body)
    requires disk.blocks == Written(before, b, WithCrc(body), len + 4)
    ensures agrees
  {
    ghost var image := WithCrc(body);
    assert image[..len + 4] == image;
    assert disk.blocks[b][..len] == body;
    var ncrc := Update(INIT, disk.blocks[b][..len]);
    agrees := ncrc == crc;
  }

  /** The parts of an image: header, entries and checksum. */
  lemma BodyParts(d: Header, source: Block, regions: seq<Region>, end: nat)
    requires end <= |source| && Ordered(regions, HEADER_LEN, end)
    ensures var body := Body(d, source, regions, end);
      var image := WithCrc(body);
      && |body| >= HEADER_LEN && |image| == |body| + 4
      && image[..HEADER_LEN] == body[..HEADER_LEN] == HeaderBytes(d)
      && image[|body|..|body| + 4] == Le32(CrcOf(INIT, body))
      && Copying(body, source, regions, end, 0, HEADER_LEN, HEADER_LEN)
  {
    hide CrcOf;
    var body := Body(d, source, regions, end);
    var image := WithCrc(body);
    assert image[..HEADER_LEN] == body[..HEADER_LEN];
    assert body[..HEADER_LEN] == HeaderBytes(d);
    assert image[|body|..|body| + 4] == Le32(CrcOf(INIT, body));
    assert body[HEADER_LEN..] == Spliced(source, regions, HEADER_LEN, end);
  }

  lemma ErasedIsCut(t0: seq<seq<Block>>, blocks: seq<Block>, b: nat, image: seq<Byte>)
    requires b < |blocks| && |image| <= |blocks[b]|
    ensures var erased := blocks[b := Partial([], |blocks[b]|)];
      erased == Written(blocks, b, image, 0) && Gained(t0, t0 + [erased], blocks, b, image, 0)
  {
    assert image[..0] == [];
    assert Cuts(blocks, b, image, 0) == [Written(blocks, b, image, 0)];
  }

  /** Erasing a block and programming header, entries and checksum. */
  method WriteBlock(disk: Disk, b: nat, d: Header, source: Block, regions: seq<Region>, end: nat)
    requires disk.Valid() && b < |disk.blocks| && end <= |source| && Ordered(regions, HEADER_LEN, end)
    requires EndOf(d.size) == |Body(d, source, regions, end)| + 4 <= |disk.blocks[b]|
    modifies disk
    ensures disk.Valid()
    ensures var image := WithCrc(Body(d, source, regions, end));
      && disk.blocks == Written(old(disk.blocks), b, image, |image|)
      && Gained(old(disk.trace), disk.trace, old(disk.blocks), b, image, |image|)
  {
    ghost var before, t0 := disk.blocks, disk.trace;
    ghost var body := Body(d, source, regions, end);
    ghost var image := WithCrc(body);
    BodyParts(d, source, regions, end);
    hide Written, Partial, CrcOf, Spliced, Gained, Body, WithCrc, Copying;
    disk.Erase(b);
    ErasedIsCut(t0, before, b, image);
    Append(disk, b, 0, HeaderBytes(d), before, image, t0);
    var crc := Update(INIT, HeaderBytes(d));
    crc := CopyEntries(disk, b, source, regions, end, EndOf(d.size) - 4, crc, before, body, t0);
    Append(disk, b, EndOf(d.size) - 4, Le32(crc), before, image, t0);
    var agrees := ReadBack(disk, b, EndOf(d.size) - 4, crc, before, body);
    assert agrees;
  }

  /** lfs_dir_commit on a device without bad blocks. */
  method Commit(disk: Disk, dir: Dir, regions: seq<Region>)
    requires disk.Valid() && Committable(disk.blocks, dir.pair0, dir.pair1, dir.d, regions)
    modifies disk, dir
    ensures disk.Valid()
    ensures dir.pair0 == old(dir.pair1) && dir.pair1 == old(dir.pair0)
    ensures dir.d == NewHeader(old(dir.d), regions)
    ensures dir.d.rev == (old(dir.d.rev) + 1) % 0x1_0000_0000
    ensures dir.d.size % 0x8000_0000 == old(dir.d.size) % 0x8000_0000 + Growth(regions)
    ensures (dir.d.size >= 0x8000_0000) == (old(dir.d.size) >= 0x8000_0000)
    ensures dir.d.tail0 == old(dir.d.tail0) && dir.d.tail1 == old(dir.d.tail1)
    ensures var image := NewImage(old(disk.blocks), old(dir.pair0), old(dir.pair1), old(dir.d), regions);
      && |image| <= |old(disk.blocks)[dir.pair0]|
      && disk.blocks == Written(old(disk.blocks), dir.pair0, image, |image|)
      && Gained(old(disk.trace), disk.trace, old(disk.blocks), dir.pair0, image, |image|)
    ensures Holds(disk.blocks[dir.pair0], dir.d,
                  Spliced(old(disk.blocks)[dir.pair1], regions, HEADER_LEN, EndOf(old(dir.d.size)) - 4))
  {
    CommitLeaves(disk.blocks, dir.pair0, dir.pair1, dir.d, regions);
    hide *;
    ghost var h := NewHeader(dir.d, regions);
    var end := EndOf(dir.d.size) - 4;
    dir.d := dir.d.(rev := Next(dir.d.rev));
    dir.pair0, dir.pair1 := dir.pair1, dir.pair0;
    var growth := TotalGrowth(regions);
    dir.d := dir.d.(size := dir.d.size + growth);
    assert dir.d == h;
    WriteBlock(disk, dir.pair0, dir.d, disk.blocks[dir.pair1], regions, end);
  }

  /** What the writing of the image of a commit comes to. */
  lemma CommitLeaves(blocks: seq<Block>, a: nat, b: nat, d: Header, regions: seq<Region>)
    requires Committable(blocks, a, b, d, regions)
    ensures a < |blocks| && b < |blocks| && a != b && HEADER_LEN + 4 <= EndOf(d.size) <= |blocks[a]|
    ensures Ordered(regions, HEADER_LEN, EndOf(d.size) - 4) && 0 <= d.size + Growth(regions) < 0x1_0000_0000
    ensures var h, image := NewHeader(d, regions), NewImage(blocks, a, b, d, regions);
      && h == d.(rev := Next(d.rev)).(size := d.size + Growth(regions))
      && h.rev == (d.rev + 1) % 0x1_0000_0000
      && h.size % 0x8000_0000 == d.size % 0x8000_0000 + Growth(regions)
      && (h.size >= 0x8000_0000) == (d.size >= 0x8000_0000)
      && image == WithCrc(Body(h, blocks[a], regions, EndOf(d.size) - 4))
      && EndOf(h.size) == |Body(h, blocks[a], regions, EndOf(d.size) - 4)| + 4 == |image| <= |blocks[b]|
      && var after := Written(blocks, b, image, |image|);
         Holds(after[b], h, Spliced(blocks[a], regions, HEADER_LEN, EndOf(d.size) - 4))
  {
    NewImageLength(blocks, a, b, d, regions);
    NewHeaderSucceeds(d, regions);
    ImageHolds(blocks, a, b, d, regions, |blocks[b]|);
    var image := NewImage(blocks, a, b, d, regions);
    assert image[..|image|] == image;
    hide Holds, Spliced, Partial, CrcOf, Ordered, Growth;
  }

  // ---------- power loss ----------

  /** After k bytes the block looks just as it does after all of them. */
  ghost predicate BlockHolds(blocks: seq<Block>, b: nat, image: seq<Byte>, k: nat)
    requires b < |blocks| && k <= |image| <= |blocks[b]|
  {
    Partial(image[..k], |blocks[b]|) == Partial(image, |blocks[b]|)
  }

  /** The assumption on the checksum: a block with only part of header and entries fails its checks. */
  ghost predicate TornFails(blocks: seq<Block>, b: nat, image: seq<Byte>)
    requires b < |blocks| && 4 <= |image| <= |blocks[b]|
  {
    forall k: nat :: k < |image| - 4 && !BlockHolds(blocks, b, image, k)
      ==> !BlockValid(Partial(image[..k], |blocks[b]|))
  }

  /**
    With only part of the checksum it fails them in any case, unless the missing bytes are those of an erased
    block.
  */
  lemma TornChecksum(h: Header, body: seq<Byte>, n: nat, k: nat)
    requires |body| >= HEADER_LEN && body[..HEADER_LEN] == HeaderBytes(h) && EndOf(h.size) == |body| + 4 <= n
    requires |body| <= k <= |body| + 4
    ensures BlockValid(Partial(WithCrc(body)[..k], n)) ==> Partial(WithCrc(body)[..k], n) == Partial(WithCrc(body), n)
  {
    hide CrcOf;
    var image := WithCrc(body);
    var block := Partial(image[..k], n);
    assert block[..HEADER_LEN] == body[..HEADER_LEN];
    HeaderRoundTrip(h, block);
    var end := |body| + 4;
    var last := block[|body|..end];
    assert block[..end] == body + last;
    CrcAppend(INIT, body, last);
    ResidueZero(CrcOf(INIT, body), last);
    if BlockValid(block) {
      assert block[..end] == image;
      assert block == block[..end] + block[end..];
    }
  }

  /** A pair on the device, newer block first, with the header of the newer block. */
  datatype PairState = PairState(blocks: seq<Block>, a: nat, b: nat, header: Header) {
    ghost predicate Ok() {
      PairOk(blocks, a, b, header)
    }

    /** Fetch, given the blocks in either order, finds this pair. */
    ghost predicate Fetched() {
      && a < |blocks| && b < |blocks|
      && FetchOf(blocks, a, b) == Found(a, b, header)
      && FetchOf(blocks, b, a) == Found(a, b, header)
    }
  }

  /** A commit of header d and regions to the pair s; d is the fetched header up to tail and flag. */
  ghost predicate Attempt(s: PairState, d: Header, regions: seq<Region>) {
    && Committable(s.blocks, s.a, s.b, d, regions)
    && d.rev == s.header.rev
    && var image := NewImage(s.blocks, s.a, s.b, d, regions);
       4 <= |image| <= |s.blocks[s.b]| && TornFails(s.blocks, s.b, image)
  }

  /** t keeps the pair of s untouched. */
  ghost predicate KeptOld(s: PairState, t: PairState) {
    && t.a == s.a && t.b == s.b && t.header == s.header
    && s.a < |s.blocks| && t.a < |t.blocks| && t.blocks[t.a] == s.blocks[s.a]
  }

  /** t holds all of the new contents. */
  ghost predicate TookNew(s: PairState, t: PairState, d: Header, regions: seq<Region>) {
    && Committable(s.blocks, s.a, s.b, d, regions)
    && t.a == s.b && t.b == s.a && Succeeds(t.header, d, Growth(regions))
    && |t.blocks| == |s.blocks| && |t.blocks[t.a]| == |s.blocks[s.b]|
    && Holds(t.blocks[t.a], t.header, Spliced(s.blocks[s.a], regions, HEADER_LEN, EndOf(d.size) - 4))
  }

  /** Power may be lost after any byte: the pair is the old one or the new one, and sound. */
  lemma CutIsAtomic(s: PairState, d: Header, regions: seq<Region>, k: nat)
    requires s.Ok() && Attempt(s, d, regions)
    requires k <= |NewImage(s.blocks, s.a, s.b, d, regions)|
    ensures var image := NewImage(s.blocks, s.a, s.b, d, regions);
            var blocks := Written(s.blocks, s.b, image, k);
            var kept, took := PairState(blocks, s.a, s.b, s.header), PairState(blocks, s.b, s.a, NewHeader(d, regions));
            (if BlockHolds(s.blocks, s.b, image, k) then took.Ok() && TookNew(s, took, d, regions)
             else kept.Ok() && KeptOld(s, kept))
  {
    hide CrcOf, Spliced, Ordered, Growth;
    var image := NewImage(s.blocks, s.a, s.b, d, regions);
    NewImageLength(s.blocks, s.a, s.b, d, regions);
    var body := Body(NewHeader(d, regions), s.blocks[s.a], regions, EndOf(d.size) - 4);
    if BlockHolds(s.blocks, s.b, image, k) {
      NewHeaderSucceeds(d, regions);
      ImageHolds(s.blocks, s.a, s.b, d, regions, |s.blocks[s.b]|);
      ImageValid(NewHeader(d, regions), body, |s.blocks[s.b]|);
      NextIsNewer(d.rev);
    } else if k >= |body| {
      TornChecksum(NewHeader(d, regions), body, |s.blocks[s.b]|, k);
    }
  }

  /** One commit, completed or cut after k bytes, and a fetch of the pair in one order or the other. */
  ghost predicate CutStep(s: PairState, t: PairState, d: Header, regions: seq<Region>, k: nat) {
    && Attempt(s, d, regions)
    && k <= |NewImage(s.blocks, s.a, s.b, d, regions)|
    && t.blocks == Written(s.blocks, s.b, NewImage(s.blocks, s.a, s.b, d, regions), k)
    && (FetchOf(t.blocks, s.a, s.b) == Found(t.a, t.b, t.header)
       || FetchOf(t.blocks, s.b, s.a) == Found(t.a, t.b, t.header))
  }

  lemma CutStepSafe(s: PairState, t: PairState, d: Header, regions: seq<Region>, k: nat)
    requires s.Ok() && CutStep(s, t, d, regions, k)
    ensures t.Ok() && t.Fetched() && (KeptOld(s, t) || TookNew(s, t, d, regions))
  {
    CutIsAtomic(s, d, regions, k);
    var image := NewImage(s.blocks, s.a, s.b, d, regions);
    if BlockHolds(s.blocks, s.b, image, k) {
      FetchFindsNewer(t.blocks, s.b, s.a, NewHeader(d, regions));
    } else {
      FetchFindsNewer(t.blocks, s.a, s.b, s.header);
    }
  }

  datatype Commitment = Commitment(d: Header, regions: seq<Region>, cut: nat)

  ghost predicate StepBy(s: PairState, c: Commitment, t: PairState) {
    CutStep(s, t, c.d, c.regions, c.cut)
  }

  ghost predicate OldOrNew(s: PairState, c: Commitment, t: PairState) {
    KeptOld(s, t) || TookNew(s, t, c.d, c.regions)
  }

  /** Commits, each followed by a fetch, with power cut at will. */
  ghost predicate Run(states: seq<PairState>, commits: seq<Commitment>) {
    && |states| == |commits| + 1
    && states[0].Ok()
    && forall i :: 0 <= i < |commits| ==> StepBy(states[i], commits[i], states[i + 1])
  }

  lemma {:induction false} RunKeepsOk(states: seq<PairState>, commits: seq<Commitment>, i: nat)
    requires Run(states, commits) && i < |states|
    ensures states[i].Ok()
    decreases i
  {
    if i > 0 {
      var j := i - 1;
      RunKeepsOk(states, commits, j);
      assert StepBy(states[j], commits[j], states[j + 1]);
      CutStepSafe(states[j], states[i], commits[j].d, commits[j].regions, commits[j].cut);
    }
  }

  /** In every run, every fetch finds the last contents completely written, or all of the next. */
  lemma RunSafe(states: seq<PairState>, commits: seq<Commitment>, i: nat)
    requires Run(states, commits) && i < |commits|
    ensures states[i + 1].Fetched() && OldOrNew(states[i], commits[i], states[i + 1])
  {
    RunKeepsOk(states, commits, i);
    assert StepBy(states[i], commits[i], states[i + 1]);
    CutStepSafe(states[i], states[i + 1], commits[i].d, commits[i].regions, commits[i].cut);
  }

  /** The states that the trace of a commit gains are all of these cuts, and a fetch there finds old or new. */
  lemma TraceSafe(s: PairState, d: Header, regions: seq<Region>, t0: seq<seq<Block>>, t1: seq<seq<Block>>, i: nat)
    requires s.Ok() && Attempt(s, d, regions)
    requires var image := NewImage(s.blocks, s.a, s.b, d, regions); Gained(t0, t1, s.blocks, s.b, image, |image|)
    requires |t0| <= i < |t1|
    ensures var image := NewImage(s.blocks, s.a, s.b, d, regions);
            i - |t0| <= |image| && t1[i] == Written(s.blocks, s.b, image, i - |t0|)
    ensures var kept, took := PairState(t1[i], s.a, s.b, s.header), PairState(t1[i], s.b, s.a, NewHeader(d, regions));
            (KeptOld(s, kept) && kept.Fetched()) || (TookNew(s, took, d, regions) && took.Fetched())
  {
    var image := NewImage(s.blocks, s.a, s.b, d, regions);
    var k: nat := i - |t0|;
    assert t1[i] == Cuts(s.blocks, s.b, image, |image|)[k];
    CutIsAtomic(s, d, regions, k);
    if BlockHolds(s.blocks, s.b, image, k) {
      FetchFindsNewer(t1[i], s.b, s.a, NewHeader(d, regions));
    } else {
      FetchFindsNewer(t1[i], s.a, s.b, s.header);
    }
  }

  /**
    A fresh pair of blocks with whatever they held: the revision counts on from the first block,
    so that the first commit, into the second block, makes a sound pair.
  */
  lemma FirstCommit(blocks: seq<Block>, x: nat, y: nat, d: Header, regions: seq<Region>)
    requires Committable(blocks, x, y, d, regions) && |blocks[x]| >= HEADER_LEN
    requires d.rev == Next(ParseHeader(blocks[x]).rev)
    ensures var image := NewImage(blocks, x, y, d, regions);
      && |image| <= |blocks[y]|
      && PairOk(Written(blocks, y, image, |image|), y, x, NewHeader(d, regions))
  {
    hide CrcOf, Spliced, Ordered, Growth;
    NewImageLength(blocks, x, y, d, regions);
    var image := NewImage(blocks, x, y, d, regions);
    assert image[..|image|] == image;
    ImageValid(NewHeader(d, regions), Body(NewHeader(d, regions), blocks[x], regions, EndOf(d.size) - 4), |blocks[y]|);
    NextIsNewer(ParseHeader(blocks[x]).rev);
  }
}
