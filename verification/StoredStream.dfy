/** Any bytes put into stored blocks, and the decoder, which gives them back. */
module StoredStream {
  import opened Crc
  import opened DeflateBits
  import opened InflateSpec
  import opened InflateStrict
  import opened Inflate
  import opened KnownStream

  // ---------- stored blocks (section 3.2.4 of RFC 1951) ----------

  /** Last or not, the length and its complement, and the bytes. */
  function StoredBlock(last: bool, bytes: seq<Byte>): (b: seq<Byte>)
    requires |bytes| < 0x1_0000
    ensures |b| == 5 + |bytes|
  {
    var n := |bytes|;
    [if last then 1 else 0, n % 256, n / 256, 255 - n % 256, 255 - n / 256] + bytes
  }

  /** As many bytes to a block as it takes. */
  function InBlocks(bytes: seq<Byte>): seq<Byte> {
    if |bytes| < 0x1_0000 then StoredBlock(true, bytes)
    else StoredBlock(false, bytes[..0xffff]) + InBlocks(bytes[0xffff..])
  }

  ghost predicate BlockAt(data: seq<Byte>, at: nat, last: bool, bytes: seq<Byte>) {
    |bytes| < 0x1_0000 && at + 5 + |bytes| <= |data| && data[at..at + 5 + |bytes|] == StoredBlock(last, bytes)
  }

  // ---------- how they are decoded ----------

  function AtBlock(at: nat, last: bool, out: seq<Byte>): State {
    State(8 * at, last, Between, out)
  }

  lemma BlockHeader(data: seq<Byte>, at: nat, last: bool, bytes: seq<Byte>, out: seq<Byte>)
    requires BlockAt(data, at, last, bytes)
    ensures StrictStep(data, AtBlock(at, false, out), State(8 * (at + 5), last, Stored(|bytes|), out))
  {
    hide BitsLe, BlockAt, StrictStep, Aligned;
    HeaderFields(data, at, last, bytes);
    AlignedThere(at);
    StoredHeader(data, AtBlock(at, false, out), State(8 * (at + 5), last, Stored(|bytes|), out), 8 * (at + 1), |bytes|);
  }

  lemma AlignedThere(at: nat)
    ensures Aligned(8 * at + 3) == 8 * (at + 1)
  {}

  lemma StoredHeader(data: seq<Byte>, s: State, t: State, q: nat, n: nat)
    requires s.phase == Between && !s.last && s.pos + 3 <= 8 * |data| && q == Aligned(s.pos + 3) && q + 32 <= 8 * |data|
    requires BitsLe(data, s.pos, 1) == (if t.last then 1 else 0) && BitsLe(data, s.pos + 1, 2) == 0
    requires BitsLe(data, q, 16) == n && BitsLe(data, q + 16, 16) == 0xffff - n
    requires t.phase == Stored(n) && t.pos == q + 32 && t.out == s.out
    ensures StrictStep(data, s, t)
  {
    hide BitsLe, Aligned, Split, Dynamic;
    assert HeaderStep(data, s, t);
  }

  lemma HeaderFields(data: seq<Byte>, at: nat, last: bool, bytes: seq<Byte>)
    requires BlockAt(data, at, last, bytes)
    ensures at + 5 <= |data| && BitsLe(data, 8 * at, 1) == (if last then 1 else 0) && BitsLe(data, 8 * at + 1, 2) == 0
    ensures BitsLe(data, 8 * (at + 1), 16) == |bytes| && BitsLe(data, 8 * (at + 1) + 16, 16) == 0xffff - |bytes|
  {
    hide BitsLe;
    var n := |bytes|;
    HeaderBytesAre(data, at, last, bytes);
    hide BlockAt;
    FirstField(data, at, if last then 1 else 0);
    LengthField(data, at + 1, n);
    ComplementField(data, at + 3, n);
  }

  lemma HeaderBytesAre(data: seq<Byte>, at: nat, last: bool, bytes: seq<Byte>)
    requires BlockAt(data, at, last, bytes)
    ensures at + 5 <= |data| && data[at] == if last then 1 else 0
    ensures data[at + 1] == |bytes| % 256 && data[at + 2] == |bytes| / 256
    ensures data[at + 3] == 255 - |bytes| % 256 && data[at + 4] == 255 - |bytes| / 256
  {
    var b := data[at..at + 5 + |bytes|];
    assert data[at] == b[0] && data[at + 1] == b[1] && data[at + 2] == b[2];
    assert data[at + 3] == b[3] && data[at + 4] == b[4];
  }

  lemma FirstField(data: seq<Byte>, at: nat, b: nat)
    requires at + 2 <= |data| && data[at] == b < 2
    ensures BitsLe(data, 8 * at, 1) == b && BitsLe(data, 8 * at + 1, 2) == 0
  {
    hide BitsLe;
    Field(data, at, 0, 1, b); Field(data, at, 1, 2, 0);
  }

  lemma LengthField(data: seq<Byte>, at: nat, n: nat)
    requires at + 2 <= |data| && n < 0x1_0000 && data[at] == n % 256 && data[at + 1] == n / 256
    ensures BitsLe(data, 8 * at, 16) == n
  {
    hide BitsLe;
    Field(data, at, 0, 16, n);
  }

  lemma ComplementField(data: seq<Byte>, at: nat, n: nat)
    requires at + 2 <= |data| && n < 0x1_0000 && data[at] == 255 - n % 256 && data[at + 1] == 255 - n / 256
    ensures BitsLe(data, 8 * at, 16) == 0xffff - n
  {
    hide BitsLe;
    Field(data, at, 0, 16, 0xffff - n);
  }

  lemma {:induction false} Bytes(data: seq<Byte>, s: State, k: nat, at: nat, n: nat)
    requires s.phase.Stored? && n <= s.phase.left && at + n <= |data| && s.pos == 8 * at
    requires StrictRuns(data, START, s, k)
    ensures StrictRuns(data, START, Copied(data, s, at, n), k + n)
    decreases n
  {
    hide Step, StrictRuns;
    if n == 0 {
      CopiedNone(data, s, at);
    } else {
      Bytes(data, s, k, at, n - 1);
      CopiedStep(data, s, at, n);
      ThenSteps(data, Copied(data, s, at, n - 1), k + n - 1, Copied(data, s, at, n));
    }
  }

  /** One block. */
  lemma OneBlock(data: seq<Byte>, at: nat, last: bool, bytes: seq<Byte>, out: seq<Byte>, k: nat)
    requires BlockAt(data, at, last, bytes) && StrictRuns(data, START, AtBlock(at, false, out), k)
    ensures StrictRuns(data, START, AtBlock(at + 5 + |bytes|, last, out + bytes), k + |bytes| + 2)
  {
    hide StrictRuns, StrictStep, Step, Copied, StoredBlock;
    var n := |bytes|;
    var s, t := State(8 * (at + 5), last, Stored(n), out), State(8 * (at + 5 + n), last, Stored(0), out + bytes);
    BlockHeader(data, at, last, bytes, out);
    FirstOf(data, AtBlock(at, false, out), k, s);
    Bytes(data, s, k + 1, at + 5, n);
    BlockBytes(data, at, last, bytes);
    CopiedIs(data, s, at + 5, n, t);
    StoredEnds(data, t);
    ThenSteps(data, t, k + 1 + n, AtBlock(at + 5 + n, last, out + bytes));
  }

  lemma BlockBytes(data: seq<Byte>, at: nat, last: bool, bytes: seq<Byte>)
    requires BlockAt(data, at, last, bytes)
    ensures data[at + 5..at + 5 + |bytes|] == bytes
  {
    assert data[at + 5..at + 5 + |bytes|] == data[at..at + 5 + |bytes|][5..];
  }

  lemma FirstOf(data: seq<Byte>, m: State, k: nat, t: State)
    requires StrictRuns(data, START, m, k) && StrictStep(data, m, t)
    ensures StrictRuns(data, START, t, k + 1)
  {
    hide StrictStep;
    assert StrictRuns(data, START, m, k + 1 - 1) && StrictStep(data, m, t);
  }

  /** All blocks from one place on. */
  lemma {:induction false} AllBlocks(data: seq<Byte>, at: nat, bytes: seq<Byte>, out: seq<Byte>, k: nat)
    returns (j: nat)
    requires at <= |data| && data[at..] == InBlocks(bytes) && StrictRuns(data, START, AtBlock(at, false, out), k)
    ensures StrictRuns(data, START, AtBlock(|data|, true, out + bytes), j)
    decreases |bytes|
  {
    hide StrictRuns, AtBlock;
    if |bytes| < 0x1_0000 {
      assert data[at..at + 5 + |bytes|] == data[at..];
      OneBlock(data, at, true, bytes, out, k);
      j := k + |bytes| + 2;
    } else {
      var first, rest := bytes[..0xffff], bytes[0xffff..];
      var next := at + 5 + |first|;
      BlockBefore(data, at, first, rest);
      OneBlock(data, at, false, first, out, k);
      j := AllBlocks(data, next, rest, out + first, k + |first| + 2);
      assert out + first + rest == out + bytes;
    }
  }

  lemma BlockBefore(data: seq<Byte>, at: nat, first: seq<Byte>, rest: seq<Byte>)
    requires at <= |data| && |first| < 0x1_0000 && data[at..] == StoredBlock(false, first) + InBlocks(rest)
    ensures BlockAt(data, at, false, first) && data[at + 5 + |first|..] == InBlocks(rest)
  {
    hide StoredBlock, InBlocks;
    var b, n := StoredBlock(false, first), 5 + |first|;
    assert data[at..at + n] == data[at..][..n] == b;
    assert data[at + n..] == data[at..][n..];
  }

  /** What is put into stored blocks is what they are decoded to, and the decoder takes every step. */
  lemma StoredRoundTrip(data: seq<Byte>, bytes: seq<Byte>) returns (k: nat)
    requires data == InBlocks(bytes)
    ensures StrictRuns(data, START, State(8 * |data|, true, Between, bytes), k)
  {
    hide InBlocks;
    assert data[0..] == data;
    assert StrictRuns(data, START, AtBlock(0, false, []), 0);
    hide StrictRuns;
    k := AllBlocks(data, 0, bytes, [], 0);
    assert [] + bytes == bytes;
  }

  /** Put into blocks and read by calls of any sizes: the bytes, as far as the calls ask for them. */
  method ReadStored(bytes: seq<Byte>, sizes: seq<nat>) returns (ok: bool, total: seq<Byte>)
    ensures ok && total == bytes[..if Total(sizes) < |bytes| then Total(sizes) else |bytes|]
  {
    hide Runs, StrictRuns, Breaks, Step, InBlocks, Total;
    var data := InBlocks(bytes);
    ok, total := ReadAll(data, sizes);
    ghost var k := StoredRoundTrip(data, bytes);
    ghost var end := State(8 * |data|, true, Between, bytes);
    StrictIsRun(data, START, end, k);
    assert ok && total <= bytes;
    if |total| < Total(sizes) {
      WholeIsAll(data, total, end, k);
    }
  }

  lemma WholeIsAll(data: seq<Byte>, total: seq<Byte>, end: State, k: nat)
    requires Whole(data, total) && Runs(data, START, end, k) && Final(end)
    ensures total == end.out
  {
    hide Runs;
    var s: State, j: nat :| WholeAt(data, total, s, j);
    PrefixOfDecoding(data, s, j, end, k);
  }
}
