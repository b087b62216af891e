/** The header of a block with dynamic codes: the lengths of the codes, and their tables. */
module InflateHeader {
  import opened Gf2Poly
  import opened Crc
  import opened DeflateBits
  import opened Huffman
  import opened HuffmanWalk
  import opened BitReader
  import opened InflateSpec
  import opened InflateStrict

  datatype Status =
    | Good
    | EndOfFile
    | Unbalanced
    | InvalidCopyLength
    | ReservedBlockType
    | SetupError
    | ReservedLength
    | InvalidDistance

  /** One more symbol behind those that have been read. */
  lemma {:induction false} LengthsAppend(data: seq<Byte>, cl: seq<nat>, p: nat, have: seq<nat>, n: nat, q: nat,
                                         mid: seq<nat>,
                                         k: nat, r: nat, all: seq<nat>)
    requires LengthsRead(data, cl, p, have, n, q, mid, k) && LengthStep(data, cl, q, mid, n, r, all)
    ensures LengthsRead(data, cl, p, have, n, r, all, k + 1)
    decreases k
  {
    hide LengthStep;
    if k == 0 {
      assert LengthsRead(data, cl, r, all, n, r, all, 0);
    } else {
      var p': nat, have' :| LengthStep(data, cl, p, have, n, p', have')
        && LengthsRead(data, cl, p', have', n, q, mid, k - 1);
      LengthsAppend(data, cl, p', have', n, q, mid, k - 1, r, all);
    }
  }

  /** A table that can be walked. */
  ghost predicate Usable(tree: seq<nat>, lens: seq<nat>) {
    TableAt(tree, 0, lens, 0) && Complete(lens)
  }

  lemma BuiltIsUsable(tree: seq<nat>, lens: seq<nat>)
    requires |Groups(lens, 1, 0)| <= |tree| && tree[..|Groups(lens, 1, 0)|] == Groups(lens, 1, 0) && Complete(lens)
    ensures Usable(tree, lens)
  {
    hide Groups, Complete;
  }

  // ---------- lengths ----------

  /** n times the length v, from place i on. */
  method Fill(huffman: array<Byte>, i: nat, v: Byte, n: nat) returns (j: nat)
    requires i + n <= huffman.Length
    modifies huffman
    ensures j == i + n && huffman[..j] == old(huffman[..i]) + Repeated(v, n)
  {
    j := i;
    var repeat := n;
    while repeat > 0
      invariant 0 <= repeat <= n && j == i + n - repeat
      invariant huffman[..i] == old(huffman[..i]) && forall k :: i <= k < j ==> huffman[k] == v
      decreases repeat
    {
      huffman[j] := v;
      j := j + 1;
      repeat := repeat - 1;
    }
    assert huffman[..j] == huffman[..i] + huffman[i..j];
    assert forall k :: 0 <= k < n ==> huffman[i..j][k] == v;
    assert huffman[i..j] == Repeated(v, n);
  }

  ghost predicate Small(lens: seq<nat>) {
    forall k :: 0 <= k < |lens| ==> lens[k] < 16
  }

  lemma LengthMade(data: seq<Byte>, cl: seq<nat>, p: nat, have: seq<nat>, n: nat, q: nat, have': seq<nat>, sym: nat)
    requires LengthBy(data, cl, p, have, q, have', sym) && |have| < n && |have'| <= n
    ensures LengthStep(data, cl, p, have, n, q, have')
  {}

  /** Without a code there is no length. */
  lemma NothingComes(data: seq<Byte>, cl: seq<nat>, p: nat, have: seq<nat>, n: nat)
    requires !exists sym :: Decoded(cl, data, p, sym)
    ensures NoLength(data, cl, p, have, n)
  {}

  /** The symbol that comes next cannot be read on. */
  lemma SymbolStops(data: seq<Byte>, cl: seq<nat>, p: nat, have: seq<nat>, n: nat, sym: nat)
    requires Decoded(cl, data, p, sym) && sym >= 16
    requires p + cl[sym] + (if sym == 16 then 2 else if sym == 17 then 3 else 7) > 8 * |data|
      || (sym == 16 && have == []) || sym > 18
    ensures NoLength(data, cl, p, have, n)
  {
    hide BitsLe, CodeBits, Code, Repeated;
    forall q: nat, all: seq<nat> ensures !LengthStep(data, cl, p, have, n, q, all) {
      if LengthStep(data, cl, p, have, n, q, all) {
        var s: nat :| LengthBy(data, cl, p, have, q, all, s);
        DecodedOnce(cl, data, p, sym, s);
      }
    }
  }

  /** The repetition that comes next has no room. */
  lemma TooMany(data: seq<Byte>, cl: seq<nat>, p: nat, have: seq<nat>, n: nat, q: nat, all: seq<nat>, sym: nat)
    requires LengthBy(data, cl, p, have, q, all, sym) && |all| > n
    ensures NoLength(data, cl, p, have, n)
  {
    hide BitsLe, CodeBits, Code, Repeated;
    forall r: nat, other: seq<nat> ensures !LengthStep(data, cl, p, have, n, r, other) {
      if LengthStep(data, cl, p, have, n, r, other) {
        var s: nat :| LengthBy(data, cl, p, have, r, other, s);
        DecodedOnce(cl, data, p, sym, s);
      }
    }
  }

  /** A repetition, unless it runs over the end of the lengths that are being read. */
  method Repeat(huffman: array<Byte>, i: nat, num: nat, v: Byte, n: nat, ghost data: seq<Byte>, ghost cl: seq<nat>,
                ghost p: nat,
                ghost q: nat, ghost sym: nat)
    returns (st: Status, j: nat)
    requires i < num <= huffman.Length && n > 0 && v < 16 && Small(huffman[..i])
    requires LengthBy(data, cl, p, huffman[..i], q, huffman[..i] + Repeated(v, n), sym)
    modifies huffman
    ensures st.Good? ==> i < j <= num && Small(huffman[..j])
    ensures st.Good? ==> LengthStep(data, cl, p, old(huffman[..i]), num, q, huffman[..j])
    ensures !st.Good? ==> NoLength(data, cl, p, old(huffman[..i]), num)
  {
    hide LengthBy, NoLength;
    ghost var have: seq<nat> := huffman[..i];
    if i + n > num {
      TooMany(data, cl, p, have, num, q, have + Repeated(v, n), sym);
      return SetupError, i;
    }
    j := Fill(huffman, i, v, n);
    LengthMade(data, cl, p, have, num, q, huffman[..j], sym);
    st := Good;
  }

  /** One symbol of the code length code. */
  method ReadLength(bits: Bits, tree: array<Entry>, ghost cl: seq<nat>, huffman: array<Byte>, i: nat, num: nat)
    returns (st: Status, j: nat)
    requires bits.Valid() && Usable(tree[..], cl) && |cl| == 19
    requires i < num <= huffman.Length && Small(huffman[..i])
    modifies bits, huffman
    ensures st.Good? ==> bits.Valid() && i < j <= num && Small(huffman[..j]) && bits.Pos() > old(bits.Pos())
    ensures st.Good? ==> LengthStep(bits.data, cl, old(bits.Pos()), old(huffman[..i]), num, bits.Pos(), huffman[..j])
    ensures !st.Good? ==> NoLength(bits.data, cl, old(bits.Pos()), old(huffman[..i]), num)
  {
    hide BitsLe, CodeBits, Code, Complete, TableAt, Repeated, NoLength;
    ghost var data, p: nat, have: seq<nat> := bits.data, bits.Pos(), huffman[..i];
    var ok, len := bits.GetHuffman(tree, cl);
    if !ok {
      NothingComes(data, cl, p, have, num);
      return EndOfFile, i;
    }
    if len < 16 {
      huffman[i] := len;
      j := i + 1;
      assert huffman[..j] == have + [len];
      st := Good;
      LengthMade(data, cl, p, have, num, bits.Pos(), huffman[..j], len);
    } else {
      st, j := ReadRepeat(bits, cl, huffman, i, num, p, len);
    }
  }

  /** The symbols for repetitions. */
  method ReadRepeat(bits: Bits, ghost cl: seq<nat>, huffman: array<Byte>, i: nat, num: nat, ghost p: nat, len: nat)
    returns (st: Status, j: nat)
    requires bits.Valid() && Decoded(cl, bits.data, p, len) && bits.Pos() == p + cl[len] && len >= 16 && |cl| == 19
    requires i < num <= huffman.Length && Small(huffman[..i])
    modifies bits, huffman
    ensures st.Good? ==> bits.Valid() && i < j <= num && Small(huffman[..j]) && bits.Pos() > p
    ensures st.Good? ==> LengthStep(bits.data, cl, p, old(huffman[..i]), num, bits.Pos(), huffman[..j])
    ensures !st.Good? ==> NoLength(bits.data, cl, p, old(huffman[..i]), num)
  {
    hide BitsLe, CodeBits, Code, Repeated, NoLength;
    ghost var data, have: seq<nat> := bits.data, huffman[..i];
    var ok, repeat;
    if len == 16 {
      if i == 0 {
        SymbolStops(data, cl, p, have, num, len);
        return SetupError, i;
      }
      var prev := huffman[i - 1];
      assert have[i - 1] == prev;
      ok, repeat := bits.GetBits(2);
      if !ok {
        SymbolStops(data, cl, p, have, num, len);
        return EndOfFile, i;
      }
      st, j := Repeat(huffman, i, num, prev, 3 + repeat, data, cl, p, bits.Pos(), len);
    } else if len == 17 {
      ok, repeat := bits.GetBits(3);
      if !ok {
        SymbolStops(data, cl, p, have, num, len);
        return EndOfFile, i;
      }
      st, j := Repeat(huffman, i, num, 0, 3 + repeat, data, cl, p, bits.Pos(), len);
    } else if len == 18 {
      ok, repeat := bits.GetBits(7);
      if !ok {
        SymbolStops(data, cl, p, have, num, len);
        return EndOfFile, i;
      }
      st, j := Repeat(huffman, i, num, 0, 11 + repeat, data, cl, p, bits.Pos(), len);
    } else {
      SymbolStops(data, cl, p, have, num, len);
      return SetupError, i;
    }
  }

  /** The lengths of one of the two codes. */
  method ReadLengths(bits: Bits, tree: array<Entry>, ghost cl: seq<nat>, huffman: array<Byte>, num: nat)
    returns (st: Status, ghost k: nat)
    requires bits.Valid() && Usable(tree[..], cl) && |cl| == 19
    requires num <= huffman.Length
    modifies bits, huffman
    ensures st.Good? ==> bits.Valid() && Small(huffman[..num]) && bits.Pos() >= old(bits.Pos())
    ensures st.Good? ==> LengthsRead(bits.data, cl, old(bits.Pos()), [], num, bits.Pos(), huffman[..num], k)
    ensures !st.Good? ==> NoLengths(bits.data, cl, old(bits.Pos()), [], num)
  {
    hide LengthStep, Usable, LengthsRead, NoLength, NoLengths;
    ghost var p: nat := bits.Pos();
    var i := 0;
    st, k := Good, 0;
    LengthsNone(bits.data, cl, p, [], num);
    while i < num
      invariant i <= num && bits.Valid() && Small(huffman[..i]) && bits.Pos() >= p && st.Good?
      invariant LengthsRead(bits.data, cl, p, [], num, bits.Pos(), huffman[..i], k)
    {
      ghost var q: nat, mid: seq<nat> := bits.Pos(), huffman[..i];
      st, i := ReadLength(bits, tree, cl, huffman, i, num);
      if !st.Good? {
        NoWay(bits.data, cl, p, num, q, mid, k);
        return;
      }
      LengthsAppend(bits.data, cl, p, [], num, q, mid, k, bits.Pos(), huffman[..i]);
      k := k + 1;
    }
  }

  lemma LengthsNone(data: seq<Byte>, cl: seq<nat>, p: nat, have: seq<nat>, n: nat)
    ensures LengthsRead(data, cl, p, have, n, p, have, 0)
  {}

  // ---------- the whole header ----------

  /** blc_order */
  const BLC_ORDER: seq<nat> := [16, 17, 18, 0, 8, 7, 9, 6, 10, 5, 11, 4, 12, 3, 13, 2, 14, 1, 15]

  /** Each symbol stands in the order at its place. */
  lemma PlaceInOrder(sym: nat, k: nat)
    requires sym < 19 && k < 19
    ensures Place(sym) == k <==> BLC_ORDER[k] == sym
  {}

  lemma NextCodeLength(data: seq<Byte>, p: nat, n: nat)
    requires n < 19 && p + 3 * (n + 1) <= 8 * |data|
    ensures BLC_ORDER[n] < 19
    ensures CodeLengths(data, p, n + 1) == CodeLengths(data, p, n)[BLC_ORDER[n] := BitsLe(data, p + 3 * n, 3)]
  {
    hide BitsLe;
    forall sym: nat | sym < 19 ensures Place(sym) == n <==> BLC_ORDER[n] == sym { PlaceInOrder(sym, n); }
    hide Place;
  }

  /** The lengths in the order in which they are sent. */
  lemma SentInOrder(data: seq<Byte>, p: nat, n: nat, h: seq<nat>)
    requires n <= 19 && p + 3 * n <= 8 * |data| && |h| >= 19 && h[..19] == CodeLengths(data, p, n)
    ensures forall k: nat :: k < 19 ==>
      [h[16], h[17], h[18], h[0], h[8], h[7], h[9], h[6], h[10], h[5], h[11], h[4], h[12], h[3], h[13], h[2], h[14],
       h[1], h[15]][k] == if k < n then BitsLe(data, p + 3 * k, 3) else 0
  {
    hide BitsLe;
    var lens := CodeLengths(data, p, n);
    assert forall k: nat :: k < 19 ==> h[k] == h[..19][k] == lens[k];
  }

  /** The three-bit lengths of the code length code, in their order; those that are not sent are zero. */
  method ReadCodeLengths(bits: Bits, n: nat) returns (st: Status, huffman: array<Byte>)
    requires bits.Valid() && n <= 19
    modifies bits
    ensures fresh(huffman) && huffman.Length == 288
    ensures st.Good? ==> bits.Valid() && bits.Pos() == old(bits.Pos()) + 3 * n <= 8 * |bits.data|
    ensures st.Good? ==> huffman[..19] == CodeLengths(bits.data, old(bits.Pos()), n)
    ensures var p, h := old(bits.Pos()), huffman;
      st.Good? ==> forall k: nat :: k < 19 ==>
        [h[16], h[17], h[18], h[0], h[8], h[7], h[9], h[6], h[10], h[5], h[11], h[4], h[12], h[3], h[13], h[2], h[14],
         h[1], h[15]][k] == if k < n then BitsLe(bits.data, p + 3 * k, 3) else 0
    ensures st.Good? ==> forall k :: 0 <= k < 19 ==> huffman[k] < 8
    ensures !st.Good? ==> old(bits.Pos()) + 3 * n > 8 * |bits.data|
  {
    hide BitsLe, CodeLengths;
    huffman := new Byte[288](_ => 0);
    st := PutCodeLengths(bits, n, huffman);
    if st.Good? {
      ghost var h: seq<nat> := huffman[..];
      assert h[..19] == huffman[..19];
      SentInOrder(bits.data, old(bits.Pos()), n, h);
      SmallCodeLengths(bits.data, old(bits.Pos()), n, h);
    }
  }

  method PutCodeLengths(bits: Bits, n: nat, huffman: array<Byte>) returns (st: Status)
    requires bits.Valid() && n <= 19 && huffman.Length == 288 && forall k :: 0 <= k < 288 ==> huffman[k] == 0
    modifies bits, huffman
    ensures st.Good? ==> bits.Valid() && bits.Pos() == old(bits.Pos()) + 3 * n <= 8 * |bits.data|
    ensures st.Good? ==> huffman[..19] == CodeLengths(bits.data, old(bits.Pos()), n)
    ensures !st.Good? ==> old(bits.Pos()) + 3 * n > 8 * |bits.data|
  {
    hide BitsLe;
    ghost var p: nat := bits.Pos();
    st := Good;
    var i := 0;
    assert huffman[..19] == CodeLengths(bits.data, p, 0);
    hide CodeLengths;
    while i < n
      invariant i <= n && bits.Valid() && bits.Pos() == p + 3 * i <= 8 * |bits.data|
      invariant huffman[..19] == CodeLengths(bits.data, p, i)
    {
      var ok, value := bits.GetBits(3);
      if !ok {
        return EndOfFile;
      }
      Three(bits.data, p + 3 * i);
      NextCodeLength(bits.data, p, i);
      SetLength(huffman, BLC_ORDER[i], value);
      i := i + 1;
    }
  }

  method SetLength(huffman: array<Byte>, sym: nat, v: Byte)
    requires sym < 19 <= huffman.Length
    modifies huffman
    ensures huffman[..19] == old(huffman[..19])[sym := v]
  {
    huffman[sym] := v;
  }

  lemma SmallCodeLengths(data: seq<Byte>, p: nat, n: nat, h: seq<nat>)
    requires n <= 19 && p + 3 * n <= 8 * |data| && |h| >= 19 && h[..19] == CodeLengths(data, p, n)
    ensures forall k :: 0 <= k < 19 ==> h[k] < 8
  {
    hide BitsLe;
    forall sym: nat | sym < 19 ensures h[sym] < 8 {
      assert h[sym] == h[..19][sym] == SentLength(data, p, n, Place(sym));
      if Place(sym) < n { Three(data, p + 3 * Place(sym)); }
    }
  }

  lemma Three(data: seq<Byte>, p: nat)
    requires p + 3 <= 8 * |data|
    ensures BitsLe(data, p, 3) < 8
  {
    BitsLeBound(data, p, 3);
    assert Pow2(3) == 8;
  }

  /** A code and its table. */
  method BuildTable(lens: seq<nat>, tree: array<Entry>, ghost top: nat) returns (st: Status)
    requires |lens| <= 288 && top <= 15 && |lens| + top <= tree.Length && forall k :: 0 <= k < |lens| ==> lens[k] <= top
    modifies tree
    ensures st.Good? ==> Usable(tree[..], lens)
    ensures st.Good? <==> Complete(lens)
  {
    TableSize(lens, top);
    hide Groups, Complete, Usable;
    var ok := Build(lens, tree);
    if !ok {
      return Unbalanced;
    }
    BuiltIsUsable(tree[..], lens);
    st := Good;
  }

  /** blc_dc_lc & 31, (blc_dc_lc >> 5) & 31 and blc_dc_lc >> 10 */
  lemma Fields(data: seq<Byte>, p: nat, v: nat)
    requires p + 14 <= 8 * |data| && v == BitsLe(data, p, 14)
    ensures v % 32 == BitsLe(data, p, 5) && v / 32 % 32 == BitsLe(data, p + 5, 5) && v / 1024 == BitsLe(data, p + 10, 4)
    ensures BitsLe(data, p, 5) < 32 && BitsLe(data, p + 5, 5) < 32 && BitsLe(data, p + 10, 4) < 16
  {
    FourAndFive();
    hide BitsLe, Pow2;
    BitsLeBound(data, p, 5); BitsLeBound(data, p + 5, 5); BitsLeBound(data, p + 10, 4);
    BitsJoin(data, p, 5, 9, 32);
    BitsJoin(data, p + 5, 5, 4, 32);
    var a, b, c := BitsLe(data, p, 5), BitsLe(data, p + 5, 5), BitsLe(data, p + 10, 4);
    FieldSum(v, a, b, c);
  }

  lemma FourAndFive()
    ensures Pow2(5) == 32 && Pow2(4) == 16
  {}

  lemma FieldSum(v: nat, a: nat, b: nat, c: nat)
    requires v == a + 32 * (b + 32 * c) && a < 32 && b < 32
    ensures v % 32 == a && v / 32 == b + 32 * c && v / 32 % 32 == b && v / 1024 == c
  {
    assert v == a + 32 * b + 1024 * c;
  }

  lemma BitsFirst(data: seq<Byte>, p: nat, n: nat)
    requires 0 < n && p + n <= 8 * |data|
    ensures BitsLe(data, p, n) == Bit(data, p) + 2 * BitsLe(data, p + 1, n - 1)
  {}

  lemma {:induction false} BitsJoin(data: seq<Byte>, p: nat, m: nat, n: nat, d: nat)
    requires p + m + n <= 8 * |data| && d == Pow2(m)
    ensures BitsLe(data, p, m + n) == BitsLe(data, p, m) + d * BitsLe(data, p + m, n)
    decreases m
  {
    hide BitsLe, Bit;
    if m == 0 {
      assert d == 1;
      BitsNone(data, p);
    } else {
      BitsJoin(data, p + 1, m - 1, n, Pow2(m - 1));
      BitsFirst(data, p, m + n); BitsFirst(data, p, m);
      DoubleMul(d, Pow2(m - 1), BitsLe(data, p + m, n));
    }
  }

  lemma BitsNone(data: seq<Byte>, p: nat)
    requires p <= 8 * |data|
    ensures BitsLe(data, p, 0) == 0
  {}

  lemma DoubleMul(d: nat, e: nat, x: nat)
    requires d == 2 * e
    ensures d * x == 2 * (e * x)
  {}

  /** The lengths of both codes and their tables. */
  method ReadDynamic(bits: Bits, lcTree: array<Entry>, dcTree: array<Entry>)
    returns (st: Status, ghost lc: seq<nat>, ghost dc: seq<nat>)
    requires bits.Valid() && lcTree.Length == 288 + 15 && dcTree.Length == 32 + 15 && lcTree != dcTree
    modifies bits, lcTree, dcTree
    ensures st.Good? ==> bits.Valid() && Usable(lcTree[..], lc) && Usable(dcTree[..], dc)
    ensures st.Good? ==> bits.Pos() > old(bits.Pos()) && Split(bits.data, old(bits.Pos()), lc, dc, bits.Pos())
    ensures !st.Good? ==> NoSplit(bits.data, old(bits.Pos()))
  {
    hide LengthsRead, Usable, CodeLengths, BitsLe, NoLengthsBoth, SplitBy, Complete;
    ghost var data, p: nat := bits.data, bits.Pos();
    lc, dc := [], [];
    var ok, v := bits.GetBitsLong(14);
    if !ok {
      return EndOfFile, lc, dc;
    }
    Fields(data, p, v);
    var lcNum, dcNum, blcNum := 257 + v % 32, 1 + v / 32 % 32, 4 + v / 1024;
    var huffman;
    st, huffman := ReadCodeLengths(bits, blcNum);
    if !st.Good? {
      return;
    }
    var blcTree := new Entry[19 + 7];
    ghost var cl: seq<nat>, at: nat, mid: nat, j: nat, k: nat := huffman[..19], bits.Pos(), 0, 0, 0;
    st := BuildTable(huffman[..19], blcTree, 7);
    if !st.Good? {
      NoCodeLengths(data, cl, at, lcNum, dcNum);
    } else {
      st, lc, dc, mid, j, k := ReadBoth(bits, blcTree, cl, huffman, lcNum, dcNum, lcTree, dcTree);
    }
    if st.Good? {
      assert SplitFrom(data, p, blcNum, lc, dc, bits.Pos(), mid, j, k);
    } else {
      BothAreAll(data, p, blcNum, lcNum, dcNum);
    }
  }

  /** There are no such lengths of two codes. */
  ghost predicate NoLengthsBoth(data: seq<Byte>, cl: seq<nat>, p: nat, lcNum: nat, dcNum: nat) {
    forall l: seq<nat>, d: seq<nat>, q: nat, mid: nat, j: nat, k: nat :: |l| == lcNum && |d| == dcNum ==>
      !SplitBy(data, cl, p, l, d, q, mid, j, k)
  }

  lemma NoCodeLengths(data: seq<Byte>, cl: seq<nat>, p: nat, lcNum: nat, dcNum: nat)
    requires !Complete(cl)
    ensures NoLengthsBoth(data, cl, p, lcNum, dcNum)
  {
    hide LengthsRead, Complete;
  }

  lemma BothAreAll(data: seq<Byte>, p: nat, clens: nat, lcNum: nat, dcNum: nat)
    requires p + 14 <= 8 * |data| && clens == 4 + BitsLe(data, p + 10, 4) <= 19 && p + 14 + 3 * clens <= 8 * |data|
    requires lcNum == 257 + BitsLe(data, p, 5) && dcNum == 1 + BitsLe(data, p + 5, 5)
    requires NoLengthsBoth(data, CodeLengths(data, p + 14, clens), p + 14 + 3 * clens, lcNum, dcNum)
    ensures NoSplit(data, p)
  {
    hide SplitBy, CodeLengths, BitsLe, NoLengthsBoth;
    forall l: seq<nat>, d: seq<nat>, q: nat ensures !Split(data, p, l, d, q) {
      if Split(data, p, l, d, q) {
        var mid: nat, j: nat, k: nat :| SplitFrom(data, p, clens, l, d, q, mid, j, k);
        NotBoth(data, CodeLengths(data, p + 14, clens), p + 14 + 3 * clens, lcNum, dcNum, l, d, q, mid, j, k);
      }
    }
  }

  lemma NotBoth(data: seq<Byte>, cl: seq<nat>, p: nat, lcNum: nat, dcNum: nat, l: seq<nat>, d: seq<nat>, q: nat,
                mid: nat, j: nat, k: nat)
    requires NoLengthsBoth(data, cl, p, lcNum, dcNum) && |l| == lcNum && |d| == dcNum
    ensures !SplitBy(data, cl, p, l, d, q, mid, j, k)
  {}

  /** The lengths of the first code cannot be read. */
  lemma NoFirst(data: seq<Byte>, cl: seq<nat>, p: nat, lcNum: nat, dcNum: nat)
    requires NoLengths(data, cl, p, [], lcNum)
    ensures NoLengthsBoth(data, cl, p, lcNum, dcNum)
  {
    hide LengthsRead, Complete;
  }

  /**
    They can, and lead to a code that is not complete, or to a place where those of the second one cannot or
    lead to none.
  */
  lemma NoSecond(data: seq<Byte>, cl: seq<nat>, p: nat, lcNum: nat, dcNum: nat, mid: nat, l: seq<nat>, j: nat)
    requires LengthsRead(data, cl, p, [], lcNum, mid, l, j) && |l| == lcNum
    requires !Complete(l) || NoLengths(data, cl, mid, [], dcNum)
          || exists q, d, k :: |d| == dcNum && LengthsRead(data, cl, mid, [], dcNum, q, d, k) && !Complete(d)
    ensures NoLengthsBoth(data, cl, p, lcNum, dcNum)
  {
    hide LengthsRead, Complete;
    forall l': seq<nat>, d': seq<nat>, q': nat, mid': nat, j': nat, k': nat | |l'| == lcNum && |d'| == dcNum
      ensures !SplitBy(data, cl, p, l', d', q', mid', j', k')
    {
      if SplitBy(data, cl, p, l', d', q', mid', j', k') {
        LengthsOnce(data, cl, p, [], lcNum, mid, l, j, mid', l', j');
        if Complete(l) && !NoLengths(data, cl, mid, [], dcNum) {
          var q: nat, d, k: nat :| |d| == dcNum && LengthsRead(data, cl, mid, [], dcNum, q, d, k) && !Complete(d);
          LengthsOnce(data, cl, mid, [], dcNum, q, d, k, q', d', k');
        }
      }
    }
  }

  /** The lengths of the two codes, one after the other, each with its table. */
  method ReadBoth(bits: Bits, blcTree: array<Entry>, ghost cl: seq<nat>, huffman: array<Byte>, lcNum: nat, dcNum: nat,
                  lcTree: array<Entry>, dcTree: array<Entry>)
    returns (st: Status, ghost lc: seq<nat>, ghost dc: seq<nat>, ghost mid: nat, ghost j: nat, ghost k: nat)
    requires bits.Valid() && Usable(blcTree[..], cl) && |cl| == 19 && huffman.Length == 288 && lcNum <= 288
      && dcNum <= 32
    requires lcTree.Length == 288 + 15 && dcTree.Length == 32 + 15
    requires lcTree != dcTree && blcTree != lcTree && blcTree != dcTree
    modifies bits, huffman, lcTree, dcTree
    ensures st.Good? ==> bits.Valid() && Usable(lcTree[..], lc) && Usable(dcTree[..], dc)
    ensures st.Good? ==> |lc| == lcNum && |dc| == dcNum && bits.Pos() >= old(bits.Pos())
    ensures st.Good? ==> SplitBy(bits.data, cl, old(bits.Pos()), lc, dc, bits.Pos(), mid, j, k)
    ensures !st.Good? ==> NoLengthsBoth(bits.data, cl, old(bits.Pos()), lcNum, dcNum)
  {
    assert Complete(cl);
    hide LengthsRead, Usable, NoLengths, NoLengthsBoth, Complete;
    ghost var data, at: nat := bits.data, bits.Pos();
    lc, dc, mid, k := [], [], at, 0;
    st, j := ReadLengths(bits, blcTree, cl, huffman, lcNum);
    if !st.Good? {
      NoFirst(data, cl, at, lcNum, dcNum);
      return;
    }
    mid := bits.Pos();
    lc := huffman[..lcNum];
    st := BuildTable(huffman[..lcNum], lcTree, 15);
    if !st.Good? {
      NoSecond(data, cl, at, lcNum, dcNum, mid, lc, j);
      return;
    }
    st, k := ReadLengths(bits, blcTree, cl, huffman, dcNum);
    if !st.Good? {
      NoSecond(data, cl, at, lcNum, dcNum, mid, lc, j);
      return;
    }
    dc := huffman[..dcNum];
    st := BuildTable(huffman[..dcNum], dcTree, 15);
    if !st.Good? {
      NoSecond(data, cl, at, lcNum, dcNum, mid, lc, j);
    }
  }
}
