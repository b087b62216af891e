/**
  The streaming decoder. A call fills as much of the caller's buffer as it can and may stop at any
  byte; the next call goes on from there.
*/
module Inflate {
  import opened Gf2Poly
  import opened Crc
  import opened ByteNumber
  import opened DeflateBits
  import opened Huffman
  import opened HuffmanFixed
  import opened HuffmanWalk
  import opened BitReader
  import opened InflateSpec
  import opened InflateStrict
  import opened InflateWindow
  import opened InflateHeader

  datatype Mode = NewBlock | StoredBlock | HuffmanBlock | HuffmanRepeat

  lemma StepsNext(data: seq<Byte>, s: State, m: State, j: nat, t: State)
    requires Runs(data, s, m, j) && Step(data, m, t)
    ensures Runs(data, s, t, j + 1)
  {
    hide Step;
  }

  /** After n stored bytes have been copied from byte `at` on. */
  ghost function Copied(data: seq<Byte>, s: State, at: nat, n: nat): State
    requires s.phase.Stored? && n <= s.phase.left && at + n <= |data|
  {
    State(8 * (at + n), s.last, Stored(s.phase.left - n), s.out + data[at..at + n])
  }

  lemma CopiedIs(data: seq<Byte>, s: State, at: nat, n: nat, t: State)
    requires s.phase.Stored? && n <= s.phase.left && at + n <= |data| && t.pos == 8 * (at + n) && t.last == s.last
    requires t.phase == Stored(s.phase.left - n) && t.out == s.out + data[at..at + n]
    ensures t == Copied(data, s, at, n)
  {}

  lemma CopiedStep(data: seq<Byte>, s: State, at: nat, n: nat)
    requires s.phase.Stored? && 0 < n <= s.phase.left && at + n <= |data|
    ensures Step(data, Copied(data, s, at, n - 1), Copied(data, s, at, n))
  {
    var m := Copied(data, s, at, n - 1);
    assert m.pos % 8 == 0 && m.pos / 8 == at + n - 1;
    assert data[at..at + n] == data[at..at + (n - 1)] + [data[at + n - 1]];
    assert StoredStep(data, m, Copied(data, s, at, n));
  }

  lemma CopiedNone(data: seq<Byte>, s: State, at: nat)
    requires s.phase.Stored? && at <= |data| && s.pos == 8 * at
    ensures Copied(data, s, at, 0) == s
  {
    assert s.out + data[at..at] == s.out;
  }

  lemma {:induction false} CopiedSteps(data: seq<Byte>, s: State, at: nat, n: nat)
    requires s.phase.Stored? && n <= s.phase.left && at + n <= |data| && s.pos == 8 * at
    ensures Runs(data, s, Copied(data, s, at, n), n)
    decreases n
  {
    hide Step, Copied;
    if n == 0 {
      CopiedNone(data, s, at);
    } else {
      CopiedSteps(data, s, at, n - 1);
      CopiedStep(data, s, at, n);
      StepsNext(data, s, Copied(data, s, at, n - 1), n - 1, Copied(data, s, at, n));
    }
  }

  lemma {:induction false} StepsJoin(data: seq<Byte>, s: State, m: State, j: nat, t: State, k: nat)
    requires Runs(data, s, m, j) && Runs(data, m, t, k)
    ensures Runs(data, s, t, j + k)
    decreases k
  {
    hide Step;
    if k > 0 {
      var u :| Runs(data, m, u, k - 1) && Step(data, u, t);
      StepsJoin(data, s, m, j, u, k - 1);
    }
  }

  class Reader {
    const bits: Bits
    const lookBehind: array<Byte>
    const lcTree: array<Entry>
    const dcTree: array<Entry>
    var isLast: bool
    var mode: Mode
    var lbSize: nat
    var lbPos: nat
    var copyDist: nat
    var copyLen: nat

    /** All the output so far, the lengths of the codes in use and the number of steps of the format. */
    ghost var out: seq<Byte>
    ghost var lc: seq<nat>
    ghost var dc: seq<nat>
    ghost var steps: nat

    /** Where the decoder of the format would stand. */
    ghost function Abs(): State
      reads this, bits
    {
      State(if bits.Pos() >= 0 then bits.Pos() else 0, isLast,
            match mode
            case NewBlock => Between
            case StoredBlock => Stored(copyLen)
            case HuffmanBlock => Coded(lc, dc)
            case HuffmanRepeat => Copying(copyDist, copyLen, lc, dc),
            out)
    }

    ghost predicate Reached()
      reads this, bits
    {
      Runs(bits.data, START, Abs(), steps)
    }

    /** The parts apart from the trees and the run. */
    ghost predicate Sound()
      reads this, bits, lookBehind
    {
      && bits.Valid() && WindowOk(lookBehind[..], lbSize, lbPos, out)
      && lcTree.Length == 288 + 15 && dcTree.Length == 32 + 15 && lcTree != dcTree
      && (mode == StoredBlock ==> bits.bitlen == 0)
      && (mode == HuffmanRepeat ==> 0 < copyDist <= lbSize)
    }

    ghost predicate Coding()
      reads this, lcTree, dcTree
    {
      mode == HuffmanBlock || mode == HuffmanRepeat ==> Usable(lcTree[..], lc) && Usable(dcTree[..], dc)
    }

    ghost predicate Valid()
      reads this, bits, lookBehind, lcTree, dcTree
    {
      Sound() && Coding() && Reached()
    }

    constructor (data: seq<Byte>)
      ensures Valid() && bits.data == data && out == [] && fresh(bits) && fresh(lookBehind) && fresh(lcTree)
        && fresh(dcTree)
    {
      bits := new Bits(data);
      lookBehind := new Byte[WINDOW](_ => 0);
      lcTree, dcTree := new Entry[288 + 15](_ => 0), new Entry[32 + 15](_ => 0);
      isLast, mode := false, NewBlock;
      lbSize, lbPos, copyDist, copyLen := 0, 0, 0, 0;
      out, lc, dc, steps := [], [], [], 0;
    }

    /** One byte of output goes into the caller's buffer and into the window. */
    method Emit(buf: array<Byte>, at: nat, b: Byte)
      requires Sound() && at < buf.Length && buf != lookBehind
      modifies this`lbSize, this`lbPos, this`out, lookBehind, buf
      ensures bits.Valid() && WindowOk(lookBehind[..], lbSize, lbPos, out) && lbSize >= old(lbSize)
      ensures out == old(out) + [b] && buf[..at + 1] == old(buf[..at]) + [b]
      ensures forall k :: at < k < buf.Length ==> buf[k] == old(buf[k])
    {
      hide WindowOk;
      WindowPush(lookBehind[..], lbSize, lbPos, out, b);
      ghost var w := lookBehind[..];
      assert |w| == WINDOW by { WindowLength(w, lbSize, lbPos, out); }
      buf[at] := b;
      lookBehind[lbPos] := b;
      assert lookBehind[..] == w[lbPos := b];
      lbPos := if lbPos + 1 == 32768 then 0 else lbPos + 1;
      if lbSize < 32768 {
        lbSize := lbSize + 1;
      }
      out := out + [b];
      assert buf[..at + 1] == old(buf[..at]) + [b];
    }

    // ---------- headers ----------

    /** The state after a header. */
    ghost predicate AtHeader(data: seq<Byte>, s: State)
      reads this, bits
    {
      bits.data == data && Runs(data, START, s, steps) && s.phase == Between && !s.last && s.out == out
    }

    /** A stored block. */
    method StoredHeader(ghost s: State) returns (st: Status)
      requires Sound() && AtHeader(bits.data, s) && bits.Pos() == s.pos + 3
      requires isLast == (BitsLe(bits.data, s.pos, 1) == 1) && BitsLe(bits.data, s.pos + 1, 2) == 0
      modifies this`mode, this`copyLen, this`steps, bits
      ensures st.Good? ==> Valid() && mode == StoredBlock && bits.Pos() > old(bits.Pos())
      ensures !st.Good? ==> Refused(bits.data, s)
    {
      hide BitsLe, WindowOk, Runs, Step, Usable, Aligned, Refused;
      var len;
      st, len := ReadStoredLength(bits);
      if !st.Good? {
        StoredRefused(bits.data, s);
      } else {
        copyLen := len;
        mode := StoredBlock;
        StoredBegins(bits.data, s, Abs(), bits.rpos - 4);
        StepsNext(bits.data, START, s, steps, Abs());
        steps := steps + 1;
      }
    }

    /** A block with the fixed codes. */
    method FixedHeader(ghost s: State)
      requires Sound() && AtHeader(bits.data, s) && bits.Pos() == s.pos + 3 <= 8 * |bits.data|
      requires isLast == (BitsLe(bits.data, s.pos, 1) == 1) && BitsLe(bits.data, s.pos + 1, 2) == 1
      modifies this`mode, this`lc, this`dc, this`steps, lcTree, dcTree
      ensures Valid() && mode == HuffmanBlock
    {
      hide BitsLe, WindowOk, Runs, Step, Usable, FixedLiterals, FixedDistances;
      FixedTables(lcTree, dcTree);
      lc, dc := FixedLiterals(), FixedDistances();
      mode := HuffmanBlock;
      FixedBegins(bits.data, s, Abs());
      StepsNext(bits.data, START, s, steps, Abs());
      steps := steps + 1;
    }

    /** A block with codes of its own. */
    method DynamicHeader(ghost s: State) returns (st: Status)
      requires Sound() && AtHeader(bits.data, s) && bits.Pos() == s.pos + 3 <= 8 * |bits.data|
      requires isLast == (BitsLe(bits.data, s.pos, 1) == 1) && BitsLe(bits.data, s.pos + 1, 2) == 2
      modifies this`mode, this`lc, this`dc, this`steps, bits, lcTree, dcTree
      ensures st.Good? ==> Valid() && mode == HuffmanBlock && bits.Pos() > old(bits.Pos())
      ensures !st.Good? ==> Refused(bits.data, s)
    {
      hide BitsLe, WindowOk, Runs, Step, Usable, Dynamic, Split, NoSplit, Refused;
      ghost var l, d;
      st, l, d := ReadDynamic(bits, lcTree, dcTree);
      if !st.Good? {
        DynamicRefused(bits.data, s);
      } else {
        SplitIsDynamic(bits.data, s.pos + 3, l, d, bits.Pos());
        lc, dc := l, d;
        mode := HuffmanBlock;
        DynamicBegins(bits.data, s, Abs());
        StepsNext(bits.data, START, s, steps, Abs());
        steps := steps + 1;
      }
    }

    /** The three bits that begin a block, and what they call for. */
    method ReadHeader() returns (st: Status)
      requires Valid() && mode == NewBlock && !isLast
      modifies this`isLast, this`mode, this`copyLen, this`lc, this`dc, this`steps, bits, lcTree, dcTree
      ensures st.Good? ==> Valid() && (mode == StoredBlock || mode == HuffmanBlock) && bits.Pos() > old(bits.Pos())
      ensures !st.Good? ==> Refused(bits.data, old(Abs()))
    {
      hide BitsLe, WindowOk, Runs, Usable, Refused;
      ghost var s := Abs();
      var ok, kind := bits.GetBits(3);
      if !ok {
        HeaderRefused(bits.data, s);
        return EndOfFile;
      }
      HeaderBits(bits.data, s.pos, kind);
      isLast := kind % 2 == 1;
      kind := kind / 2;
      st := Good;
      if kind == 0 {
        st := StoredHeader(s);
      } else if kind == 1 {
        FixedHeader(s);
      } else if kind == 2 {
        st := DynamicHeader(s);
      } else {
        KindRefused(bits.data, s);
        st := ReservedBlockType;
      }
    }

    // ---------- stored blocks ----------

    /** n bytes go from the stream into the window, and from there into the buffer. */
    method TakeBytes(buf: array<Byte>, at: nat, copylen: nat) returns (ok: bool)
      requires Sound() && at + copylen <= buf.Length && buf != lookBehind && lbPos + copylen <= 32768
      modifies this`lbSize, this`lbPos, this`out, bits`rpos, lookBehind, buf
      ensures ok ==> WindowOk(lookBehind[..], lbSize, lbPos, out) && lbSize >= old(lbSize)
      ensures ok ==> bits.rpos == old(bits.rpos) + copylen <= |bits.data|
      ensures ok ==> out == old(out) + bits.data[old(bits.rpos)..bits.rpos]
      ensures ok ==> buf[..at] == old(buf[..at]) && buf[at..at + copylen] == bits.data[old(bits.rpos)..bits.rpos]
      ensures !ok ==> old(bits.rpos) + copylen > |bits.data|
    {
      hide WindowOk;
      ghost var w := lookBehind[..];
      WindowLength(w, lbSize, lbPos, out);
      var bytes := bits.ReadBytes(copylen);
      if |bytes| < copylen {
        return false;
      }
      WindowChunk(w, lbSize, lbPos, out, bytes);
      forall k | 0 <= k < copylen {
        lookBehind[lbPos + k] := bytes[k];
      }
      forall k | 0 <= k < copylen {
        buf[at + k] := bytes[k];
      }
      assert lookBehind[..] == w[..lbPos] + bytes + w[lbPos + copylen..];
      assert buf[at..at + copylen] == bytes;
      lbPos := (lbPos + copylen) % 32768;
      if lbSize < 32768 {
        lbSize := lbSize + copylen;
      }
      out := out + bytes;
      ok := true;
    }

    /** As many stored bytes as are left, fit into the buffer and fit into the window before its end. */
    method StoredChunk(buf: array<Byte>, at: nat) returns (st: Status, n: nat)
      requires Valid() && mode == StoredBlock && copyLen > 0 && at < buf.Length && buf != lookBehind
      modifies this`lbSize, this`lbPos, this`out, this`copyLen, this`steps, bits, lookBehind, buf
      ensures st.Good? ==> Valid() && at < n <= buf.Length && copyLen == old(copyLen) - (n - at)
      ensures st.Good? ==> bits.Pos() > old(bits.Pos())
      ensures st.Good? ==> buf[..at] == old(buf[..at]) && out == old(out) + buf[at..n]
      ensures !st.Good? ==> Breaks(bits.data, old(out), buf.Length - at)
    {
      hide Runs, Usable, WindowOk, Breaks, Step, Refused, StrictStep, Copied;
      ghost var s, from, before := Abs(), bits.rpos, steps;
      WindowLength(lookBehind[..], lbSize, lbPos, out);
      var copylen := copyLen;
      if copylen > buf.Length - at {
        copylen := buf.Length - at;
      }
      if copylen > 32768 - lbPos {
        copylen := 32768 - lbPos;
      }
      n := at + copylen;
      var ok := TakeBytes(buf, at, copylen);
      if !ok {
        StoredBreaks(bits.data, s, before, from, copylen);
        BreaksEarlier(bits.data, s.out, copylen, s.out, buf.Length - at);
        return EndOfFile, at;
      }
      CopiedSteps(bits.data, s, from, copylen);
      copyLen := copyLen - copylen;
      CopiedIs(bits.data, s, from, copylen, Abs());
      StepsJoin(bits.data, START, s, steps, Abs(), copylen);
      steps := steps + copylen;
      st := Good;
    }

    /** The stored bytes, until there are no more or the buffer is full. */
    method CopyStored(buf: array<Byte>, at: nat) returns (st: Status, n: nat)
      requires Valid() && mode == StoredBlock && at < buf.Length && buf != lookBehind
      modifies this`lbSize, this`lbPos, this`out, this`copyLen, this`mode, this`steps, bits, lookBehind, buf
      ensures st.Good? ==> Valid() && at <= n <= buf.Length && bits.Pos() >= old(bits.Pos())
      ensures st.Good? ==> mode == NewBlock || (mode == StoredBlock && n == buf.Length)
      ensures st.Good? ==> buf[..at] == old(buf[..at]) && out == old(out) + buf[at..n]
      ensures !st.Good? ==> Breaks(bits.data, old(out), buf.Length - at)
    {
      hide Runs, Usable, WindowOk, Step, Breaks;
      ghost var first, was := out, buf[..at];
      n, st := at, Good;
      while copyLen > 0
        invariant st.Good? && Valid() && mode == StoredBlock && at <= n <= buf.Length && bits.Pos() >= old(bits.Pos())
        invariant buf[..at] == was && out == first + buf[at..n]
        decreases copyLen
      {
        if n >= buf.Length {
          return;
        }
        ghost var i, before, was0 := n, buf[..n], out;
        st, n := StoredChunk(buf, n);
        if !st.Good? {
          BreaksEarlier(bits.data, was0, buf.Length - i, first, buf.Length - at);
          return;
        }
        Joined(before, buf[..n], at, i);
        assert buf[at..n] == before[at..] + buf[i..n];
      }
      StoredEnds(bits.data, Abs());
      StepsNext(bits.data, START, Abs(), steps, Abs().(phase := Between));
      steps := steps + 1;
      mode := NewBlock;
    }

    // ---------- coded blocks ----------

    /** The length and the distance of a match, behind its length symbol. */
    method ReadMatch(ghost s: State, sym: nat) returns (st: Status)
      requires Sound() && Coding() && mode == HuffmanBlock && Runs(bits.data, START, s, steps) && sym > 256
      requires s.phase == Coded(lc, dc) && s.out == out && s.last == isLast
      requires Decoded(lc, bits.data, s.pos, sym) && bits.Pos() == s.pos + lc[sym]
      modifies this`copyDist, this`copyLen, this`mode, this`steps, bits
      ensures st.Good? ==> Valid() && mode == HuffmanRepeat && bits.Pos() >= old(bits.Pos())
      ensures !st.Good? ==> Refused(bits.data, s)
    {
      hide Runs, WindowOk, Step, Decoded, Usable, DistanceAt, LengthAt, NoDistance, Refused;
      ghost var data, p: nat := bits.data, bits.Pos();
      var token := sym - 257;
      if token >= 29 {
        TokenRefused(data, s, sym);
        return ReservedLength;
      }
      var length, dist;
      ghost var q: nat, dsym;
      st, length := ReadLengthOf(bits, token);
      if !st.Good? {
        LengthRefused(data, s, sym);
        return;
      }
      q := bits.Pos();
      st, dist, dsym := ReadDistance(bits, dcTree, dc);
      if !st.Good? {
        DistanceRefused(data, s, sym, q, length);
        return;
      }
      if dist > lbSize {
        DistanceSize(data, dc, q, dsym, bits.Pos(), dist);
        WindowFull(lookBehind[..], lbSize, lbPos, out);
        FarRefused(data, s, sym, q, length, dsym, bits.Pos(), dist);
        return InvalidDistance;
      }
      WindowSize(lookBehind[..], lbSize, lbPos, out);
      copyDist, copyLen, mode := dist, length, HuffmanRepeat;
      MatchBegins(data, s, Abs(), p, sym, q, length, dsym, dist);
      StepsNext(data, START, s, steps, Abs());
      steps := steps + 1;
      st := Good;
    }

    /** One symbol: a byte, the end of the block, or the beginning of a match. */
    method ReadSymbol(buf: array<Byte>, at: nat) returns (st: Status, n: nat)
      requires Valid() && mode == HuffmanBlock && at < buf.Length && buf != lookBehind
      modifies this`lbSize, this`lbPos, this`out, this`copyDist, this`copyLen, this`mode, this`steps, bits,
        lookBehind, buf
      ensures st.Good? ==> Valid() && at <= n <= buf.Length && bits.Pos() > old(bits.Pos()) && mode != StoredBlock
      ensures st.Good? ==> n == at || mode == HuffmanBlock
      ensures st.Good? ==> buf[..at] == old(buf[..at]) && out == old(out) + buf[at..n]
      ensures !st.Good? ==> Refused(bits.data, old(Abs()))
    {
      hide Runs, WindowOk, Step, TableAt, Complete, CodeBits, Code, Refused;
      ghost var s, data := Abs(), bits.data;
      n := at;
      var ok, token := bits.GetHuffman(lcTree, lc);
      if !ok {
        SymbolRefused(data, s);
        return EndOfFile, at;
      }
      st := Good;
      if token < 256 {
        Emit(buf, at, token);
        n := at + 1;
        assert buf[at..n] == [buf[..n][at]];
        assert buf[..at] == buf[..n][..at];
        LiteralStep(data, s, Abs(), token);
        StepsNext(data, START, s, steps, Abs());
        steps := steps + 1;
      } else if token == 256 {
        mode := NewBlock;
        BlockEnds(data, s, Abs(), token);
        StepsNext(data, START, s, steps, Abs());
        steps := steps + 1;
      } else {
        st := ReadMatch(s, token);
      }
    }

    /** One byte of a match. */
    method CopyByte(buf: array<Byte>, at: nat)
      requires Valid() && mode == HuffmanRepeat && copyLen > 0 && at < buf.Length && buf != lookBehind
      modifies this`lbSize, this`lbPos, this`out, this`copyLen, this`steps, lookBehind, buf
      ensures Valid() && copyLen == old(copyLen) - 1
      ensures buf[..at + 1] == old(buf[..at]) + buf[at..at + 1] && out == old(out) + buf[at..at + 1]
    {
      hide Runs, WindowOk, Step, Usable;
      ghost var s := Abs();
      copyLen := copyLen - 1;
      WindowGet(lookBehind[..], lbSize, lbPos, out, copyDist);
      WindowLength(lookBehind[..], lbSize, lbPos, out);
      WindowSize(lookBehind[..], lbSize, lbPos, out);
      var from := (lbPos - copyDist) % 32768;
      var token := lookBehind[from];
      assert lookBehind[..][from] == token;
      Emit(buf, at, token);
      assert buf[at..at + 1] == [buf[..at + 1][at]];
      ByteCopied(bits.data, s, Abs());
      StepsNext(bits.data, START, s, steps, Abs());
      steps := steps + 1;
    }

    /** The bytes of a match, until it ends or the buffer is full. */
    method CopyMatch(buf: array<Byte>, at: nat) returns (n: nat)
      requires Valid() && mode == HuffmanRepeat && at <= buf.Length && buf != lookBehind
      modifies this`lbSize, this`lbPos, this`out, this`copyLen, this`mode, this`steps, lookBehind, buf
      ensures Valid() && at <= n <= buf.Length
      ensures mode == HuffmanBlock || (mode == HuffmanRepeat && n == buf.Length)
      ensures buf[..at] == old(buf[..at]) && out == old(out) + buf[at..n]
    {
      hide Runs, WindowOk, Step, Usable;
      ghost var first, was := out, buf[..at];
      n := at;
      while copyLen > 0
        invariant Valid() && mode == HuffmanRepeat && at <= n <= buf.Length
        invariant buf[..at] == was && out == first + buf[at..n]
        decreases copyLen
      {
        if n >= buf.Length {
          return;
        }
        ghost var i, before := n, buf[..n];
        CopyByte(buf, n);
        n := n + 1;
        assert buf[..n][..i] == before;
        Joined(before, buf[..n], at, i);
        assert buf[at..n] == before[at..] + buf[i..n];
      }
      MatchEnds(bits.data, Abs());
      StepsNext(bits.data, START, Abs(), steps, Abs().(phase := Coded(lc, dc)));
      steps := steps + 1;
      mode := HuffmanBlock;
    }

    // ---------- reading ----------

    /** A waiting copy comes before anything else. */
    ghost function Rank(): nat
      reads this
    {
      if mode == StoredBlock || mode == HuffmanRepeat then 1 else 0
    }

    /** One round of the loop of lib_deflate_read. */
    method Round(buf: array<Byte>, at: nat) returns (st: Status, n: nat)
      requires Valid() && buf != lookBehind && at < buf.Length && !(mode == NewBlock && isLast)
      modifies this, bits, lookBehind, lcTree, dcTree, buf
      ensures st.Good? ==> Valid() && at <= n <= buf.Length
      ensures st.Good? ==>
                bits.Pos() > old(bits.Pos()) || (bits.Pos() == old(bits.Pos()) && (n > at || Rank() < old(Rank())))
      ensures st.Good? ==> buf[..at] == old(buf[..at]) && out == old(out) + buf[at..n]
      ensures !st.Good? ==> Breaks(bits.data, old(out), buf.Length - at)
    {
      hide Runs, WindowOk, Step, Usable, Refused, Breaks;
      ghost var s, before := Abs(), steps;
      n, st := at, Good;
      if mode == NewBlock {
        st := ReadHeader();
        if !st.Good? {
          BreaksHere(bits.data, s, before, buf.Length - at);
          return;
        }
      }
      if mode == StoredBlock {
        st, n := CopyStored(buf, at);
      } else if mode == HuffmanBlock {
        s, before := Abs(), steps;
        st, n := ReadSymbol(buf, at);
        if !st.Good? {
          BreaksHere(bits.data, s, before, buf.Length - at);
        } else if mode == HuffmanRepeat {
          n := CopyMatch(buf, at);
        }
      } else {
        n := CopyMatch(buf, at);
      }
    }

    /**
      lib_deflate_read: puts the next bytes of the decoding into the buffer. It stops short of the
      end of the buffer only at the end of the stream, and fails only where the format goes on with
      nothing that the decoder accepts.
    */
    method Read(buf: array<Byte>) returns (st: Status, n: nat)
      requires Valid() && buf != lookBehind
      modifies this, bits, lookBehind, lcTree, dcTree, buf
      ensures st.Good? ==> Valid() && n <= buf.Length && out == old(out) + buf[..n]
      ensures st.Good? && n < buf.Length ==> Final(Abs())
      ensures !st.Good? ==> Breaks(bits.data, old(out), buf.Length)
    {
      hide Runs, WindowOk, Step, Usable, Breaks;
      ghost var first := out;
      n, st := 0, Good;
      while n < buf.Length
        invariant st.Good? && Valid() && n <= buf.Length && out == first + buf[..n]
        decreases 8 * |bits.data| - bits.Pos(), buf.Length - n, Rank()
      {
        if mode == NewBlock && isLast {
          return;
        }
        ghost var was, from, was0 := buf[..n], n, out;
        st, n := Round(buf, n);
        if !st.Good? {
          BreaksEarlier(bits.data, was0, buf.Length - from, first, buf.Length);
          return;
        }
        assert buf[..n] == was + buf[from..n];
      }
    }

    /** What has been put out is a prefix of the decoding of the stream, and all of it at its end. */
    lemma PutOutIsPrefix(final: State, k: nat)
      requires Valid() && Runs(bits.data, START, final, k) && Final(final)
      ensures out <= final.out && (Final(Abs()) ==> out == final.out)
    {
      PrefixOfDecoding(bits.data, Abs(), steps, final, k);
    }
  }

  // ---------- what is refused ----------

  lemma BreaksEarlier(data: seq<Byte>, out: seq<Byte>, room: nat, first: seq<Byte>, room': nat)
    requires Breaks(data, out, room) && first <= out && |out| + room <= |first| + room'
    ensures Breaks(data, first, room')
  {
    hide Runs, Refused;
    var s: State, k: nat :| BreaksAt(data, out, room, s, k);
    assert BreaksAt(data, first, room', s, k);
  }

  lemma BreaksHere(data: seq<Byte>, s: State, k: nat, room: nat)
    requires Runs(data, START, s, k) && Refused(data, s) && room > 0
    ensures Breaks(data, s.out, room)
  {
    hide Runs, Refused;
    assert BreaksAt(data, s.out, room, s, k);
  }

  /** The stream ends before the next `room` bytes of a stored block do. */
  lemma StoredBreaks(data: seq<Byte>, s: State, k: nat, at: nat, room: nat)
    requires Runs(data, START, s, k) && s.phase.Stored? && s.pos == 8 * at && room <= s.phase.left
    requires at <= |data| < at + room
    ensures Breaks(data, s.out, room)
  {
    hide Runs;
    var n := |data| - at;
    var t := Copied(data, s, at, n);
    CopiedSteps(data, s, at, n);
    StepsJoin(data, START, s, k, t, n);
    assert Refused(data, t);
    assert BreaksAt(data, s.out, room, t, k + n);
  }

  lemma HeaderRefused(data: seq<Byte>, s: State)
    requires s.phase == Between && !s.last && s.pos + 3 > 8 * |data|
    ensures Refused(data, s)
  {}

  lemma KindRefused(data: seq<Byte>, s: State)
    requires s.phase == Between && !s.last && s.pos + 3 <= 8 * |data| && BitsLe(data, s.pos + 1, 2) >= 3
    ensures Refused(data, s)
  {
    hide BitsLe, Split, Dynamic, Aligned, FixedLiterals, FixedDistances;
  }

  lemma StoredRefused(data: seq<Byte>, s: State)
    requires s.phase == Between && !s.last && s.pos + 3 <= 8 * |data| && BitsLe(data, s.pos + 1, 2) == 0
    requires var q := Aligned(s.pos + 3);
      q + 32 <= 8 * |data| ==> BitsLe(data, q, 16) + BitsLe(data, q + 16, 16) != 0xffff
    ensures Refused(data, s)
  {
    hide BitsLe, Aligned, Split, Dynamic, FixedLiterals, FixedDistances;
  }

  lemma DynamicRefused(data: seq<Byte>, s: State)
    requires s.phase == Between && !s.last && s.pos + 3 <= 8 * |data| && BitsLe(data, s.pos + 1, 2) == 2
    requires NoSplit(data, s.pos + 3)
    ensures Refused(data, s)
  {
    hide BitsLe, Split, Dynamic, Aligned, FixedLiterals, FixedDistances;
  }

  lemma SymbolRefused(data: seq<Byte>, s: State)
    requires s.phase.Coded? && !exists sym :: Decoded(s.phase.literals, data, s.pos, sym)
    ensures Refused(data, s)
  {
    hide Decoded, MatchAfter;
  }

  /** A symbol that no step takes. */
  ghost predicate NoSymbol(data: seq<Byte>, s: State, sym: nat) {
    forall t: State :: !SymbolBy(data, s, t, sym)
  }

  lemma OnlySymbol(data: seq<Byte>, s: State, sym: nat)
    requires s.phase.Coded? && Decoded(s.phase.literals, data, s.pos, sym) && NoSymbol(data, s, sym)
    ensures Refused(data, s)
  {
    hide CodeBits, Code, MatchAfter, Split;
    forall t: State ensures !StrictStep(data, s, t) {
      if SymbolStep(data, s, t) {
        var other: nat :| SymbolBy(data, s, t, other);
        DecodedOnce(s.phase.literals, data, s.pos, sym, other);
      }
    }
  }

  lemma TokenRefused(data: seq<Byte>, s: State, sym: nat)
    requires s.phase.Coded? && Decoded(s.phase.literals, data, s.pos, sym) && sym >= 257 + 29
    ensures Refused(data, s)
  {
    assert NoSymbol(data, s, sym) by { hide Decoded, MatchAfter; }
    OnlySymbol(data, s, sym);
  }

  /** No distance symbol leads to a match. */
  ghost predicate NoMatch(data: seq<Byte>, s: State, sym: nat)
    requires s.phase.Coded? && 257 <= sym < 257 + 29 && sym < |s.phase.literals|
  {
    forall t: State, dsym: nat :: !MatchAfter(data, s, t, sym, dsym)
  }

  lemma MatchRefused(data: seq<Byte>, s: State, sym: nat)
    requires s.phase.Coded? && Decoded(s.phase.literals, data, s.pos, sym) && 257 <= sym < 257 + 29
      && NoMatch(data, s, sym)
    ensures Refused(data, s)
  {
    assert NoSymbol(data, s, sym) by { hide CodeBits, Code, MatchAfter; }
    OnlySymbol(data, s, sym);
  }

  lemma LengthRefused(data: seq<Byte>, s: State, sym: nat)
    requires s.phase.Coded? && Decoded(s.phase.literals, data, s.pos, sym) && 257 <= sym < 257 + 29
    requires s.pos + s.phase.literals[sym] + LengthExtra(sym - 257) > 8 * |data|
    ensures Refused(data, s)
  {
    assert NoMatch(data, s, sym) by {
      hide CodeBits, Code, LengthExtra, LengthBase, DistanceExtra, DistanceBase, BitsLe;
    }
    MatchRefused(data, s, sym);
  }

  ghost predicate NoDistance(data: seq<Byte>, dc: seq<nat>, q: nat) {
    forall dsym: nat, end: nat, dist: nat :: !DistanceAt(data, dc, q, dsym, end, dist)
  }

  /** A match has a distance. */
  lemma MatchDistance(data: seq<Byte>, s: State, t: State, sym: nat, q: nat, length: nat, dsym: nat) returns (dist: nat)
    requires s.phase.Coded? && 257 <= sym < 257 + 29 && sym < |s.phase.literals| && MatchAfter(data, s, t, sym, dsym)
    requires LengthAt(data, s.pos + s.phase.literals[sym], sym - 257, q, length)
    ensures DistanceAt(data, s.phase.distances, q, dsym, t.pos, dist) && dist <= |s.out|
  {
    hide CodeBits, Code, LengthExtra, LengthBase, DistanceExtra, DistanceBase, BitsLe;
    var r := q + s.phase.distances[dsym];
    dist := DistanceBase(dsym) + BitsLe(data, r, DistanceExtra(dsym));
  }

  lemma DistanceRefused(data: seq<Byte>, s: State, sym: nat, q: nat, length: nat)
    requires s.phase.Coded? && Decoded(s.phase.literals, data, s.pos, sym) && 257 <= sym < 257 + 29
    requires LengthAt(data, s.pos + s.phase.literals[sym], sym - 257, q, length)
      && NoDistance(data, s.phase.distances, q)
    ensures Refused(data, s)
  {
    forall t: State, dsym: nat ensures !MatchAfter(data, s, t, sym, dsym) {
      hide CodeBits, Code, LengthAt, DistanceAt, MatchBy;
      if MatchAfter(data, s, t, sym, dsym) {
        var dist := MatchDistance(data, s, t, sym, q, length, dsym);
      }
    }
    hide MatchAfter, LengthAt, DistanceAt;
    MatchRefused(data, s, sym);
  }

  lemma DistanceOnce(data: seq<Byte>, dc: seq<nat>, q: nat, a: nat, end: nat, dist: nat, b: nat, end': nat, dist': nat)
    requires DistanceAt(data, dc, q, a, end, dist) && DistanceAt(data, dc, q, b, end', dist')
    ensures a == b && end == end' && dist == dist'
  {
    hide CodeBits, Code, DistanceExtra, DistanceBase, BitsLe;
    DecodedOnce(dc, data, q, a, b);
  }

  lemma FarRefused(data: seq<Byte>, s: State, sym: nat, q: nat, length: nat, dsym: nat, end: nat, dist: nat)
    requires s.phase.Coded? && Decoded(s.phase.literals, data, s.pos, sym) && 257 <= sym < 257 + 29
    requires LengthAt(data, s.pos + s.phase.literals[sym], sym - 257, q, length)
    requires DistanceAt(data, s.phase.distances, q, dsym, end, dist) && dist > |s.out|
    ensures Refused(data, s)
  {
    forall t: State, other: nat ensures !MatchAfter(data, s, t, sym, other) {
      hide CodeBits, Code, LengthAt, DistanceAt, MatchBy;
      if MatchAfter(data, s, t, sym, other) {
        var d := MatchDistance(data, s, t, sym, q, length, other);
        DistanceOnce(data, s.phase.distances, q, dsym, end, dist, other, t.pos, d);
      }
    }
    hide MatchAfter, LengthAt, DistanceAt;
    MatchRefused(data, s, sym);
  }

  /** Distances reach back by 32768 at most. */
  lemma DistanceSize(data: seq<Byte>, dc: seq<nat>, q: nat, dsym: nat, end: nat, dist: nat)
    requires DistanceAt(data, dc, q, dsym, end, dist)
    ensures dist <= 32768
  {
    hide CodeBits, Code, BitsLe, DistanceBase, DistanceExtra, Pow2;
    BitsLeBound(data, q + dc[dsym], DistanceExtra(dsym));
    FarthestDistance(dsym);
  }

  lemma FarthestDistance(i: nat)
    requires i < 30
    ensures DistanceBase(i) + Pow2(DistanceExtra(i)) <= 32769
  {
    DistanceTables(i);
    SmallDistancePowers();
  }

  /** What the window does not reach has not been put out. */
  lemma WindowFull(w: seq<Byte>, size: nat, pos: nat, out: seq<Byte>)
    requires WindowOk(w, size, pos, out)
    ensures size < 32768 ==> size == |out|
    ensures size <= 32768
  {}

  lemma LiteralStep(data: seq<Byte>, s: State, t: State, sym: nat)
    requires s.phase.Coded? && Decoded(s.phase.literals, data, s.pos, sym) && sym < 256
    requires t == State(s.pos + s.phase.literals[sym], s.last, s.phase, s.out + [sym])
    ensures Step(data, s, t)
  {
    hide CodeBits, Code;
    assert SymbolBy(data, s, t, sym);
  }

  lemma BlockEnds(data: seq<Byte>, s: State, t: State, sym: nat)
    requires s.phase.Coded? && Decoded(s.phase.literals, data, s.pos, sym) && sym == 256
    requires t == State(s.pos + s.phase.literals[sym], s.last, Between, s.out)
    ensures Step(data, s, t)
  {
    hide CodeBits, Code;
    assert SymbolBy(data, s, t, sym);
  }

  lemma ByteCopied(data: seq<Byte>, s: State, t: State)
    requires s.phase.Copying? && s.phase.left > 0 && 0 < s.phase.dist <= |s.out|
    requires t == s.(phase := s.phase.(left := s.phase.left - 1), out := s.out + [s.out[|s.out| - s.phase.dist]])
    ensures Step(data, s, t)
  {
    assert CopyStep(s, t);
  }

  lemma MatchEnds(data: seq<Byte>, s: State)
    requires s.phase.Copying? && s.phase.left == 0
    ensures Step(data, s, s.(phase := Coded(s.phase.literals, s.phase.distances)))
  {
    assert CopyStep(s, s.(phase := Coded(s.phase.literals, s.phase.distances)));
  }

  ghost predicate LengthAt(data: seq<Byte>, p: nat, i: nat, q: nat, length: nat)
    requires i < 29
  {
    q == p + LengthExtra(i) <= 8 * |data| && length == LengthBase(i) + BitsLe(data, p, LengthExtra(i))
  }

  ghost predicate DistanceAt(data: seq<Byte>, dc: seq<nat>, q: nat, dsym: nat, end: nat, dist: nat) {
    && Decoded(dc, data, q, dsym) && dsym < 30
    && var r := q + dc[dsym];
       end == r + DistanceExtra(dsym) <= 8 * |data| && dist == DistanceBase(dsym) + BitsLe(data, r, DistanceExtra(dsym))
  }

  /** The extra bits of a length. */
  method ReadLengthOf(bits: Bits, token: nat) returns (st: Status, length: nat)
    requires bits.Valid() && token < 29 && bits.Pos() <= 8 * |bits.data|
    modifies bits
    ensures st.Good? ==> bits.Valid() && bits.Pos() >= old(bits.Pos())
    ensures st.Good? ==> LengthAt(bits.data, old(bits.Pos()), token, bits.Pos(), length)
    ensures !st.Good? ==> old(bits.Pos()) + LengthExtra(token) > 8 * |bits.data|
  {
    hide BitsLe, LengthBase, LengthExtra;
    LengthTables(token);
    var ok, extra: nat := true, 0;
    if CLB[token] != 0 {
      ok, extra := bits.GetBits(CLB[token]);
      if !ok {
        return EndOfFile, 0;
      }
    } else {
      BitsNone(bits.data, bits.Pos());
    }
    return Good, extra + CLP[token];
  }

  /** A distance symbol and its extra bits. */
  method ReadDistance(bits: Bits, dcTree: array<Entry>, ghost dc: seq<nat>)
    returns (st: Status, dist: nat, ghost dsym: nat)
    requires bits.Valid() && Usable(dcTree[..], dc)
    modifies bits
    ensures st.Good? ==> bits.Valid() && bits.Pos() >= old(bits.Pos()) && dist > 0
    ensures st.Good? ==> DistanceAt(bits.data, dc, old(bits.Pos()), dsym, bits.Pos(), dist)
    ensures !st.Good? ==> NoDistance(bits.data, dc, old(bits.Pos()))
  {
    hide BitsLe, CodeBits, Code, TableAt, Complete, DistanceBase, DistanceExtra, NoDistance;
    ghost var q: nat := bits.Pos();
    dist, dsym := 0, 0;
    var ok, token := bits.GetHuffman(dcTree, dc);
    if !ok {
      NoDistanceCode(bits.data, dc, q);
      return EndOfFile, 0, 0;
    }
    if token >= 30 {
      NoDistanceSymbol(bits.data, dc, q, token);
      return ReservedLength, 0, 0;
    }
    dsym := token;
    DistanceTables(token);
    var extra: nat := 0;
    if DCB[token] != 0 {
      ok, extra := bits.GetBitsLong(DCB[token]);
      if !ok {
        NoDistanceSymbol(bits.data, dc, q, token);
        return EndOfFile, 0, dsym;
      }
    } else {
      BitsNone(bits.data, bits.Pos());
    }
    st, dist := Good, extra + DCP[token];
  }

  lemma NoDistanceCode(data: seq<Byte>, dc: seq<nat>, q: nat)
    requires !exists sym :: Decoded(dc, data, q, sym)
    ensures NoDistance(data, dc, q)
  {
    hide Decoded, DistanceExtra, DistanceBase, BitsLe;
  }

  lemma NoDistanceSymbol(data: seq<Byte>, dc: seq<nat>, q: nat, sym: nat)
    requires Decoded(dc, data, q, sym) && (sym < 30 ==> q + dc[sym] + DistanceExtra(sym) > 8 * |data|)
    ensures NoDistance(data, dc, q)
  {
    hide CodeBits, Code, DistanceExtra, DistanceBase, BitsLe;
    forall dsym: nat, end: nat, dist: nat ensures !DistanceAt(data, dc, q, dsym, end, dist) {
      if Decoded(dc, data, q, dsym) { DecodedOnce(dc, data, q, dsym, sym); }
    }
  }

  lemma WindowSize(w: seq<Byte>, size: nat, pos: nat, out: seq<Byte>)
    requires WindowOk(w, size, pos, out)
    ensures size <= |out|
  {}

  lemma MatchBegins(data: seq<Byte>, s: State, t: State, p: nat, sym: nat, q: nat, length: nat, dsym: nat, dist: nat)
    requires s.phase.Coded? && 257 <= sym < 257 + 29 && Decoded(s.phase.literals, data, s.pos, sym)
    requires p == s.pos + s.phase.literals[sym] && LengthAt(data, p, sym - 257, q, length) && dist <= |s.out|
    requires t.pos >= 0 && DistanceAt(data, s.phase.distances, q, dsym, t.pos, dist)
    requires t.last == s.last && t.out == s.out && t.phase == Copying(dist, length, s.phase.literals, s.phase.distances)
    ensures Step(data, s, t)
  {
    hide CodeBits, Code, BitsLe, LengthBase, LengthExtra, DistanceBase, DistanceExtra;
    assert MatchBy(data, s, t, p, sym - 257, dsym);
    assert MatchAfter(data, s, t, sym, dsym);
    assert SymbolBy(data, s, t, sym);
  }

  lemma Joined(before: seq<Byte>, after: seq<Byte>, at: nat, i: nat)
    requires at <= i == |before| <= |after| && after[..i] == before
    ensures after[..at] == before[..at] && after[at..] == before[at..] + after[i..]
  {}

  lemma StoredEnds(data: seq<Byte>, s: State)
    requires s.phase.Stored? && s.phase.left == 0
    ensures Step(data, s, s.(phase := Between))
  {
    assert StoredStep(data, s, s.(phase := Between));
  }

  lemma WindowChunk(w: seq<Byte>, size: nat, pos: nat, out: seq<Byte>, bytes: seq<Byte>)
    requires WindowOk(w, size, pos, out) && pos + |bytes| <= WINDOW
    ensures |w| == WINDOW
    ensures WindowOk(w[..pos] + bytes + w[pos + |bytes|..], if size < WINDOW then size + |bytes| else size,
                     (pos + |bytes|) % WINDOW, out + bytes)
  {
    WindowPushAll(w, w[..pos] + bytes + w[pos + |bytes|..], size, pos, out, bytes);
  }

  /** The rest of the byte is dropped; the length of a stored block and its complement follow. */
  method ReadStoredLength(bits: Bits) returns (st: Status, len: nat)
    requires bits.Valid()
    modifies bits
    ensures st.Good? ==> bits.Valid() && bits.bitlen == 0 && bits.rpos >= 4
    ensures st.Good? ==> Aligned(old(bits.Pos())) == 8 * (bits.rpos - 4)
    ensures st.Good? ==> bits.Pos() == 8 * bits.rpos > old(bits.Pos())
    ensures st.Good? ==> var at := 8 * (bits.rpos - 4);
      len == BitsLe(bits.data, at, 16) && BitsLe(bits.data, at, 16) + BitsLe(bits.data, at + 16, 16) == 0xffff
    ensures !st.Good? ==> var q := Aligned(old(bits.Pos()));
      q + 32 <= 8 * |bits.data| ==> BitsLe(bits.data, q, 16) + BitsLe(bits.data, q + 16, 16) != 0xffff
  {
    hide BitsLe, Aligned;
    AlignedIs(bits.Pos(), bits.rpos, bits.bitlen);
    bits.bitlen := 0;
    len := 0;
    var bytes := bits.ReadBytes(4);
    if |bytes| < 4 {
      return EndOfFile, 0;
    }
    len := Word(bytes[0], bytes[1]);
    var nlen: nat := Word(bytes[2], bytes[3]);
    WordIs(bits.data, bits.rpos - 4);
    WordIs(bits.data, bits.rpos - 2);
    if len + nlen != 0xffff {
      return InvalidCopyLength, 0;
    }
    st := Good;
  }

  /** The hard-coded tables of the fixed codes. */
  method FixedTables(lcTree: array<Entry>, dcTree: array<Entry>)
    requires lcTree.Length == 288 + 15 && dcTree.Length == 32 + 15 && lcTree != dcTree
    modifies lcTree, dcTree
    ensures Usable(lcTree[..], FixedLiterals()) && Usable(dcTree[..], FixedDistances())
  {
    hide Usable, FixedLiterals, FixedDistances, LiteralTable, DistanceTable, Range;
    PutLiterals(lcTree);
    dcTree[0] := 16 * 32 + 5;
    var n := PutRange(dcTree, 1, 0, 32);
    DistanceTableIsRange();
    assert dcTree[..33] == [dcTree[0]] + dcTree[1..33];
    assert dcTree[..1] == old(dcTree[..])[0 := 16 * 32 + 5][..1];
    assert lcTree[..][..291] == lcTree[..291] && dcTree[..][..33] == dcTree[..33];
    FixedUsable(lcTree[..], dcTree[..]);
  }

  lemma DistanceTableIsRange()
    ensures DistanceTable() == [16 * 32 + 5] + Range(0, 32)
  {}

  /** One group: the entry and a range of symbols. */
  method PutEntry(tree: array<Entry>, at: nat, entry: Entry, i: nat, j: nat) returns (n: nat)
    requires i <= j <= 288 && at + 1 + (j - i) <= tree.Length
    modifies tree
    ensures n == at + 1 + (j - i) && tree[..n] == old(tree[..at]) + ([entry] + Range(i, j))
  {
    hide Range;
    tree[at] := entry;
    n := PutRange(tree, at + 1, i, j);
    assert tree[..n] == tree[..at + 1] + tree[at + 1..n];
    assert tree[..at + 1] == tree[..at + 1][..at] + [tree[..at + 1][at]];
  }

  method PutLiterals(tree: array<Entry>)
    requires tree.Length == 288 + 15
    modifies tree
    ensures tree[..291] == LiteralTable()
  {
    hide Range, LiteralTable;
    var n := PutEntry(tree, 0, 16 * (280 - 256) + 7, 256, 280);
    n := PutEntry(tree, n, 16 * (144 - 0 + 288 - 280) + 1, 0, 144);
    ghost var two := tree[..n];
    n := PutRange(tree, n, 280, 288);
    assert tree[..n] == two + Range(280, 288);
    n := PutEntry(tree, n, 16 * (256 - 144) + 1, 144, 256);
    LiteralTableParts(tree[..n]);
  }

  /** The numbers i to j - 1 in a row. */
  method PutRange(tree: array<Entry>, at: nat, i: nat, j: nat) returns (n: nat)
    requires i <= j <= 288 && at + (j - i) <= tree.Length
    modifies tree
    ensures n == at + (j - i) && tree[..at] == old(tree[..at]) && tree[at..n] == Range(i, j)
  {
    n := at;
    var k := i;
    while k < j
      invariant i <= k <= j && n == at + (k - i)
      invariant tree[..at] == old(tree[..at]) && forall m :: at <= m < n ==> tree[m] == i + (m - at)
    {
      tree[n] := k;
      n := n + 1;
      k := k + 1;
    }
  }

  lemma LiteralTableParts(all: seq<nat>)
    requires all == [] + ([16 * 24 + 7] + Range(256, 280)) + ([16 * 152 + 1] + Range(0, 144)) + Range(280, 288)
                    + ([16 * 112 + 1] + Range(144, 256))
    ensures all == LiteralTable()
  {
    hide Range;
    var a, b, c, d, e := [16 * 24 + 7] + Range(256, 280), [16 * 152 + 1], Range(0, 144), Range(280, 288),
      [16 * 112 + 1] + Range(144, 256);
    assert [] + a == a;
    Regroup(a, b, c, d, e);
  }

  lemma Regroup(a: seq<nat>, b: seq<nat>, c: seq<nat>, d: seq<nat>, e: seq<nat>)
    ensures a + (b + c) + d + e == a + (b + (c + d) + e)
  {}

  lemma FixedUsable(l: seq<nat>, d: seq<nat>)
    requires |l| >= 291 && l[..291] == LiteralTable() && |d| >= 33 && d[..33] == DistanceTable()
    ensures Usable(l, FixedLiterals()) && Usable(d, FixedDistances())
  {
    assert |LiteralTable()| == 291 && |DistanceTable()| == 33;
    LiteralTableIs(FixedLiterals()); DistanceTableIs(FixedDistances());
    hide LiteralTable, DistanceTable, Usable, Groups, FixedLiterals, FixedDistances, Complete;
    BuiltIsUsable(l, FixedLiterals());
    BuiltIsUsable(d, FixedDistances());
  }

  lemma HeaderBits(data: seq<Byte>, p: nat, kind: nat)
    requires p + 3 <= 8 * |data| && kind == BitsLe(data, p, 3)
    ensures kind < 8 && kind / 2 == BitsLe(data, p + 1, 2) && (kind % 2 == 1) == (BitsLe(data, p, 1) == 1)
  {
    Three(data, p);
    BitsFirst(data, p, 3);
    BitsFirst(data, p, 1);
    BitsNone(data, p + 1);
  }

  lemma FixedBegins(data: seq<Byte>, s: State, t: State)
    requires s.phase == Between && !s.last && s.pos + 3 <= 8 * |data| && BitsLe(data, s.pos + 1, 2) == 1
    requires t == State(s.pos + 3, BitsLe(data, s.pos, 1) == 1, Coded(FixedLiterals(), FixedDistances()), s.out)
    ensures Step(data, s, t)
  {
    hide BitsLe, FixedLiterals, FixedDistances;
    assert HeaderStep(data, s, t);
  }

  lemma DynamicBegins(data: seq<Byte>, s: State, t: State)
    requires s.phase == Between && !s.last && s.pos + 3 <= 8 * |data| && BitsLe(data, s.pos + 1, 2) == 2
    requires t.phase.Coded? && Dynamic(data, s.pos + 3, t.phase.literals, t.phase.distances, t.pos)
    requires t.out == s.out && t.last == (BitsLe(data, s.pos, 1) == 1)
    ensures Step(data, s, t)
  {
    hide BitsLe, Dynamic;
    assert HeaderStep(data, s, t);
  }

  lemma StoredBegins(data: seq<Byte>, s: State, t: State, at: nat)
    requires s.phase == Between && !s.last && s.pos + 3 <= 8 * |data| && Aligned(s.pos + 3) == 8 * at
    requires BitsLe(data, s.pos + 1, 2) == 0 && at + 4 <= |data| && t.out == s.out
    requires t.last == (BitsLe(data, s.pos, 1) == 1) && t.pos == 8 * at + 32
    requires BitsLe(data, 8 * at, 16) + BitsLe(data, 8 * at + 16, 16) == 0xffff
      && t.phase == Stored(BitsLe(data, 8 * at, 16))
    ensures Step(data, s, t)
  {
    hide BitsLe, Aligned;
    assert HeaderStep(data, s, t);
  }

  function Word(low: nat, high: nat): nat {
    low + 256 * high
  }

  lemma AlignedIs(p: nat, rpos: nat, bitlen: nat)
    requires p == 8 * rpos - bitlen && bitlen < 8
    ensures Aligned(p) == 8 * rpos
  {}

  lemma WordIs(data: seq<Byte>, at: nat)
    requires at + 2 <= |data|
    ensures BitsLe(data, 8 * at, 16) == Word(data[at], data[at + 1])
  {
    hide BitsLe, Le, Cut;
    assert data[at..at + 2] == [data[at], data[at + 1]];
    LeTwo(data[at], data[at + 1]);
    WholeWord(Word(data[at], data[at + 1]));
    Window(data, at, 2, 0, 16);
  }

  lemma LeTwo(low: Byte, high: Byte)
    ensures Le([low, high]) == Word(low, high) < 0x1_0000
  {
    assert [low, high][1..] == [high];
    LeOne(high);
  }

  lemma WholeWord(v: nat)
    requires v < 0x1_0000
    ensures Cut(v, 0, 16) == v
  {
    Powers();
    assert Pow2(0) == 1;
    hide Pow2;
  }

  lemma WindowLength(w: seq<Byte>, size: nat, pos: nat, out: seq<Byte>)
    requires WindowOk(w, size, pos, out)
    ensures |w| == WINDOW && pos < WINDOW
  {
    SlotBelow(|out|);
  }

  function Total(sizes: seq<nat>): nat {
    if sizes == [] then 0 else Total(sizes[..|sizes| - 1]) + sizes[|sizes| - 1]
  }

  /** That is all of the output. */
  ghost predicate Whole(data: seq<Byte>, total: seq<Byte>) {
    exists s: State, k: nat :: WholeAt(data, total, s, k)
  }

  ghost predicate WholeAt(data: seq<Byte>, total: seq<Byte>, s: State, k: nat) {
    Runs(data, START, s, k) && Final(s) && s.out == total
  }

  /**
    Calls of any sizes, one after the other: together they put out a prefix of the decoding, and all of
    it if they ask for more than there is. They fail only on a stream that the decoder does not accept.
  */
  method ReadAll(data: seq<Byte>, sizes: seq<nat>) returns (ok: bool, total: seq<Byte>)
    ensures |total| <= Total(sizes)
    ensures ok ==> exists s, k :: Runs(data, START, s, k) && s.out == total
    ensures ok ==> forall final, k :: Runs(data, START, final, k) && Final(final) ==> total <= final.out
    ensures ok && |total| < Total(sizes) ==> Whole(data, total)
    ensures !ok ==> Breaks(data, total, Total(sizes) - |total|)
    ensures !ok ==> forall final, k :: StrictRuns(data, START, final, k) ==> !Final(final)
  {
    hide Runs, WindowOk, StrictRuns, Breaks, Whole, Total, Usable, Final;
    var reader := new Reader(data);
    total := [];
    var i := 0;
    TotalStep(sizes, 0);
    while i < |sizes|
      invariant i <= |sizes| && reader.Valid() && reader.out == total && reader.bits.data == data
      invariant fresh(reader) && fresh(reader.bits) && fresh(reader.lookBehind) && fresh(reader.lcTree)
        && fresh(reader.dcTree)
      invariant |total| <= Total(sizes[..i]) && (|total| < Total(sizes[..i]) ==> Whole(data, total))
    {
      var buf := new Byte[sizes[i]](_ => 0);
      var st, n := reader.Read(buf);
      if !st.Good? {
        NeverEnds(data, total, sizes[i]);
        TotalStep(sizes, i);
        TotalGrows(sizes, i + 1);
        BreaksEarlier(data, total, sizes[i], total, Total(sizes) - |total|);
        return false, total;
      }
      TotalStep(sizes, i);
      AfterCall(data, total, buf[..n], reader.Abs(), reader.steps);
      total := total + buf[..n];
      i := i + 1;
    }
    assert sizes[..|sizes|] == sizes;
    ok := true;
    PrefixOfAll(data, reader.Abs(), reader.steps);
  }

  lemma {:induction false} TotalGrows(sizes: seq<nat>, i: nat)
    requires i <= |sizes|
    ensures Total(sizes[..i]) <= Total(sizes)
    decreases |sizes| - i
  {
    if i < |sizes| {
      TotalStep(sizes, i);
      TotalGrows(sizes, i + 1);
    } else {
      assert sizes[..i] == sizes;
    }
  }

  lemma NeverEnds(data: seq<Byte>, out: seq<Byte>, room: nat)
    requires Breaks(data, out, room)
    ensures forall final, k :: StrictRuns(data, START, final, k) ==> !Final(final)
  {
    hide StrictRuns, Breaks;
    forall final, k: nat | StrictRuns(data, START, final, k) ensures !Final(final) {
      BrokenHasNoEnd(data, out, room, final, k);
    }
  }

  lemma PrefixOfAll(data: seq<Byte>, s: State, j: nat)
    requires Runs(data, START, s, j)
    ensures exists s', k :: Runs(data, START, s', k) && s'.out == s.out
    ensures forall final, k :: Runs(data, START, final, k) && Final(final) ==> s.out <= final.out
  {
    hide Runs;
    forall final, k: nat | Runs(data, START, final, k) && Final(final) ensures s.out <= final.out {
      PrefixOfDecoding(data, s, j, final, k);
    }
  }

  lemma TotalStep(sizes: seq<nat>, i: nat)
    requires i <= |sizes|
    ensures Total([]) == 0 && sizes[..0] == []
    ensures i < |sizes| ==> Total(sizes[..i + 1]) == Total(sizes[..i]) + sizes[i]
  {
    if i < |sizes| { assert sizes[..i + 1][..i] == sizes[..i]; }
  }

  /** Behind all of the output nothing comes; and a call that stops short has come to it. */
  lemma AfterCall(data: seq<Byte>, total: seq<Byte>, more: seq<Byte>, s: State, k: nat)
    requires Runs(data, START, s, k) && s.out == total + more
    ensures Whole(data, total) ==> more == []
    ensures Whole(data, total) || Final(s) ==> Whole(data, total + more)
  {
    hide Runs;
    if Whole(data, total) {
      var final: State, j: nat :| WholeAt(data, total, final, j);
      PrefixOfDecoding(data, s, k, final, j);
      assert more == [];
      assert WholeAt(data, total + more, final, j);
    } else if Final(s) {
      assert WholeAt(data, total + more, s, k);
    }
  }
}
