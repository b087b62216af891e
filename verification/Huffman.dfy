/**
  Canonical codes (section 3.2.2 of RFC 1951) and the table that lib_deflate_build_huffman makes of
  them: one group for each length in use, of an entry with the number of codes and the distance from
  the length before, and the symbols in order.
*/
module Huffman {
  import opened Arith
  import opened Gf2Poly
  import opened Crc
  import opened ByteNumber
  import opened DeflateBits

  // ---------- the codes ----------

  /** How many of the first n symbols have length b. */
  function Count(lens: seq<nat>, b: nat, n: nat): nat
    requires n <= |lens|
  {
    if n == 0 then 0 else Count(lens, b, n - 1) + if lens[n - 1] == b then 1 else 0
  }

  function Codes(lens: seq<nat>, b: nat): nat {
    if b == 0 then 0 else Count(lens, b, |lens|)
  }

  /** The first code of length b. */
  function First(lens: seq<nat>, b: nat): nat {
    if b == 0 then 0 else 2 * (First(lens, b - 1) + Codes(lens, b - 1))
  }

  /** Behind the last code of length b. */
  function End(lens: seq<nat>, b: nat): nat {
    First(lens, b) + Codes(lens, b)
  }

  /** The code of a symbol. */
  function Code(lens: seq<nat>, sym: nat): nat
    requires sym < |lens|
  {
    First(lens, lens[sym]) + Count(lens, lens[sym], sym)
  }

  /** The bits from p on begin with the code of sym. */
  ghost predicate Decoded(lens: seq<nat>, data: seq<Byte>, p: nat, sym: nat) {
    && sym < |lens| && lens[sym] > 0 && p + lens[sym] <= 8 * |data|
    && CodeBits(data, p, lens[sym]) == Code(lens, sym)
  }

  /** The lengths use up all codes of 15 bits, and none twice. */
  predicate Complete(lens: seq<nat>) {
    EndsAt(lens, MAX_BITS)
  }

  const MAX_BITS := 15

  predicate EndsAt(lens: seq<nat>, k: nat) {
    End(lens, k) == Pow2(k)
  }

  /** What the first n symbols take up of the codes of k bits. */
  function Kraft(lens: seq<nat>, n: nat, k: nat): nat
    requires n <= |lens|
  {
    if n == 0 then 0 else Kraft(lens, n - 1, k) + if 0 < lens[n - 1] <= k then Pow2(k - lens[n - 1]) else 0
  }

  lemma {:induction false} KraftNext(lens: seq<nat>, n: nat, k: nat)
    requires n <= |lens| && k > 0
    ensures Kraft(lens, n, k) == 2 * Kraft(lens, n, k - 1) + Count(lens, k, n)
  {
    if n > 0 {
      KraftNext(lens, n - 1, k);
      var b := lens[n - 1];
      assert 0 < b < k ==> Pow2(k - b) == 2 * Pow2(k - b - 1);
      assert Pow2(0) == 1;
    }
  }

  lemma {:induction false} KraftNone(lens: seq<nat>, n: nat)
    requires n <= |lens|
    ensures Kraft(lens, n, 0) == 0
  {
    if n > 0 { KraftNone(lens, n - 1); }
  }

  /** A code is complete exactly when its symbols together take up all codes of fifteen bits (Kraft's equality). */
  lemma {:induction false} EndIsKraft(lens: seq<nat>, k: nat)
    ensures End(lens, k) == Kraft(lens, |lens|, k)
    ensures k == MAX_BITS ==> (Complete(lens) <==> Kraft(lens, |lens|, k) == Pow2(k))
    decreases k
  {
    if k == 0 { KraftNone(lens, |lens|); } else {
      EndIsKraft(lens, k - 1);
      KraftNext(lens, |lens|, k);
    }
    hide Kraft, Count, Pow2;
  }

  lemma {:induction false} CountBelow(lens: seq<nat>, sym: nat, n: nat)
    requires sym < n <= |lens|
    ensures Count(lens, lens[sym], sym) < Count(lens, lens[sym], n)
    decreases n
  {
    if sym + 1 < n { CountBelow(lens, sym, n - 1); } else {
      assert Count(lens, lens[sym], n) == Count(lens, lens[sym], sym) + 1;
    }
  }

  lemma {:induction false} EndGrows(lens: seq<nat>, b: nat, c: nat)
    requires b < c
    ensures First(lens, c) >= Pow2(c - b) * End(lens, b)
    decreases c
  {
    if b + 1 < c {
      EndGrows(lens, b, c - 1);
      MulAssoc(2, Pow2(c - 1 - b), End(lens, b));
    } else {
      assert Pow2(1) == 2;
    }
  }

  lemma {:induction false} CountRun(lens: seq<nat>, b: nat, i: nat, j: nat)
    requires i <= j <= |lens| && forall k :: i <= k < j ==> lens[k] == b
    ensures Count(lens, b, j) == Count(lens, b, i) + (j - i)
    decreases j
  {
    if i < j { CountRun(lens, b, i, j - 1); }
  }

  lemma {:induction false} CountOther(lens: seq<nat>, b: nat, i: nat, j: nat)
    requires i <= j <= |lens| && forall k :: i <= k < j ==> lens[k] != b
    ensures Count(lens, b, j) == Count(lens, b, i)
    decreases j
  {
    if i < j { CountOther(lens, b, i, j - 1); }
  }

  /** Codes of one length follow the order of the symbols without gaps, and shorter codes come before longer ones. */
  lemma CodesInOrder(lens: seq<nat>, s: nat, t: nat)
    requires s < |lens| && t < |lens| && 0 < lens[s]
    ensures lens[s] < lens[t] ==> Code(lens, t) >= Pow2(lens[t] - lens[s]) * (Code(lens, s) + 1)
    ensures lens[s] == lens[t] && s < t ==> Code(lens, s) < Code(lens, t)
    ensures lens[s] == lens[t] && s < t && (forall k :: s < k < t ==> lens[k] != lens[s]) ==>
              Code(lens, t) == Code(lens, s) + 1
  {
    if lens[s] < lens[t] {
      CountBelow(lens, s, |lens|);
      EndGrows(lens, lens[s], lens[t]);
      MulMonotone(Pow2(lens[t] - lens[s]), Code(lens, s) + 1, End(lens, lens[s]));
    } else if lens[s] == lens[t] && s < t {
      CountBelow(lens, s, t);
      if forall k :: s < k < t ==> lens[k] != lens[s] { CountOther(lens, lens[s], s + 1, t); }
    }
  }

  /** The example of section 3.2.2 of RFC 1951. */
  lemma ExampleCodes(lens: seq<nat>)
    requires lens == [3, 3, 3, 3, 3, 2, 4, 4]
    ensures Code(lens, 0) == 2 && Code(lens, 1) == 3 && Code(lens, 2) == 4 && Code(lens, 3) == 5 && Code(lens, 4) == 6
    ensures Code(lens, 5) == 0 && Code(lens, 6) == 14 && Code(lens, 7) == 15
  {
    CountOther(lens, 1, 0, 8);
    CountOther(lens, 2, 0, 5); CountRun(lens, 2, 5, 6); CountOther(lens, 2, 6, 8);
    CountRun(lens, 3, 0, 1); CountRun(lens, 3, 0, 2); CountRun(lens, 3, 0, 3); CountRun(lens, 3, 0, 4);
    CountRun(lens, 3, 0, 5); CountOther(lens, 3, 5, 8);
    CountOther(lens, 4, 0, 6); CountRun(lens, 4, 6, 7);
    CountNone(lens);
    hide Count;
    assert First(lens, 1) == 0;
    assert First(lens, 2) == 0;
    assert First(lens, 3) == 2;
    assert First(lens, 4) == 14;
  }

  lemma CountNone(lens: seq<nat>)
    ensures forall b :: Count(lens, b, 0) == 0
  {}

  /** No code begins another: at most one symbol is decoded. */
  lemma DecodedOnce(lens: seq<nat>, data: seq<Byte>, p: nat, s: nat, t: nat)
    requires Decoded(lens, data, p, s) && Decoded(lens, data, p, t)
    ensures s == t
  {
    if lens[s] < lens[t] { CodesDiffer(lens, data, p, s, t); }
    if lens[t] < lens[s] { CodesDiffer(lens, data, p, t, s); }
    if lens[s] == lens[t] { SameLength(lens, s, t); }
  }

  lemma CodesDiffer(lens: seq<nat>, data: seq<Byte>, p: nat, s: nat, t: nat)
    requires Decoded(lens, data, p, s) && Decoded(lens, data, p, t)
    ensures lens[s] >= lens[t]
  {
    var b, c := lens[s], lens[t];
    if b < c {
      CountBelow(lens, s, |lens|);
      EndGrows(lens, b, c);
      CodePrefix(data, p, b, c);
      MulMonotone(Pow2(c - b), CodeBits(data, p, b) + 1, End(lens, b));
    }
  }

  lemma SameLength(lens: seq<nat>, s: nat, t: nat)
    requires s < |lens| && t < |lens| && lens[s] == lens[t] && Count(lens, lens[s], s) == Count(lens, lens[t], t)
    ensures s == t
  {
    if s < t { CountBelow(lens, s, t); }
    if t < s { CountBelow(lens, t, s); }
  }

  // ---------- the table ----------

  /** The symbols of length b from i on, in order. */
  function Symbols(lens: seq<nat>, b: nat, i: nat): seq<nat>
    requires i <= |lens|
    decreases |lens| - i
  {
    if i == |lens| then [] else (if lens[i] == b then [i] else []) + Symbols(lens, b, i + 1)
  }

  lemma {:induction false} SymbolsLength(lens: seq<nat>, b: nat, i: nat)
    requires i <= |lens|
    ensures Count(lens, b, i) + |Symbols(lens, b, i)| == Count(lens, b, |lens|)
    decreases |lens| - i
  {
    if i < |lens| { SymbolsLength(lens, b, i + 1); }
  }

  lemma {:induction false} SymbolAt(lens: seq<nat>, b: nat, i: nat, k: nat)
    requires i <= |lens| && k < |Symbols(lens, b, i)|
    ensures var s := Symbols(lens, b, i)[k];
      i <= s < |lens| && lens[s] == b && Count(lens, b, s) == Count(lens, b, i) + k
    decreases |lens| - i
  {
    if lens[i] == b {
      if k > 0 { SymbolAt(lens, b, i + 1, k - 1); }
    } else {
      SymbolAt(lens, b, i + 1, k);
    }
  }

  /** The entry of a group and the symbols; a distance above 8 takes an entry of its own. */
  function Group(lens: seq<nat>, b: nat, prev: nat): seq<nat>
    requires prev < b
  {
    if b - prev > 8
    then [8, 16 * Codes(lens, b) + (b - prev - 8)] + Symbols(lens, b, 0)
    else [16 * Codes(lens, b) + (b - prev)] + Symbols(lens, b, 0)
  }

  /** The groups of lengths b and above, behind one of length prev. */
  function Groups(lens: seq<nat>, b: nat, prev: nat): seq<nat>
    requires prev < b
    decreases 16 - b
  {
    if b >= 16 then []
    else if Codes(lens, b) == 0 then Groups(lens, b + 1, prev)
    else Group(lens, b, prev) + Groups(lens, b + 1, b)
  }

  /** The next length in use. */
  function Next(lens: seq<nat>, b: nat): nat
    decreases 16 - b
  {
    if b >= 16 || Codes(lens, b) > 0 then b else Next(lens, b + 1)
  }

  lemma {:induction false} NextSkips(lens: seq<nat>, b: nat, j: nat)
    requires b <= j < Next(lens, b)
    ensures Codes(lens, j) == 0
    decreases j - b
  {
    if b < j { NextSkips(lens, b + 1, j); }
  }

  /** Up to the next length in use the table does not change, and codes only get longer. */
  lemma {:induction false} NextGroup(lens: seq<nat>, b: nat, prev: nat)
    requires prev < b <= 16 && First(lens, b) == Pow2(b - prev) * End(lens, prev)
    ensures var n := Next(lens, b);
      && b <= n <= 16 && Groups(lens, b, prev) == Groups(lens, n, prev)
      && First(lens, n) == Pow2(n - prev) * End(lens, prev)
      && (forall j :: b <= j < n ==> Codes(lens, j) == 0) && (n < 16 ==> Codes(lens, n) > 0)
    decreases 16 - b
  {
    hide Groups, First, End, Codes, Pow2;
    if b < 16 && Codes(lens, b) == 0 {
      GroupSkipped(lens, b, prev);
      NextGroup(lens, b + 1, prev);
    }
  }

  lemma GroupSkipped(lens: seq<nat>, b: nat, prev: nat)
    requires prev < b < 16 && First(lens, b) == Pow2(b - prev) * End(lens, prev) && Codes(lens, b) == 0
    ensures First(lens, b + 1) == Pow2(b + 1 - prev) * End(lens, prev)
    ensures Groups(lens, b, prev) == Groups(lens, b + 1, prev)
  {
    assert First(lens, b + 1) == 2 * (First(lens, b) + Codes(lens, b));
    assert Pow2(b + 1 - prev) == 2 * Pow2(b - prev);
    hide First, End, Codes, Pow2;
    MulAssoc(2, Pow2(b - prev), End(lens, prev));
  }

  /** First codes between two lengths in use. */
  lemma {:induction false} FirstBetween(lens: seq<nat>, prev: nat, b: nat)
    requires prev < b && forall j :: prev < j < b ==> Codes(lens, j) == 0
    ensures First(lens, b) == Pow2(b - prev) * End(lens, prev)
    decreases b
  {
    if prev + 1 < b {
      FirstBetween(lens, prev, b - 1);
      MulAssoc(2, Pow2(b - 1 - prev), End(lens, prev));
    } else {
      assert Pow2(1) == 2;
    }
  }

  lemma {:induction false} EndSmall(lens: seq<nat>, prev: nat, k: nat)
    requires prev <= k && End(lens, prev) < Pow2(prev) && forall j :: prev < j <= k ==> Codes(lens, j) == 0
    ensures End(lens, k) < Pow2(k)
    decreases k
  {
    if prev < k { EndSmall(lens, prev, k - 1); }
  }

  /** In a complete code some longer code follows as long as not all values are used up. */
  lemma MoreGroups(lens: seq<nat>, prev: nat, k: nat)
    requires k == MAX_BITS && EndsAt(lens, k) && prev <= k && End(lens, prev) < Pow2(prev)
    ensures prev < Next(lens, prev + 1) <= k
  {
    FirstBetween(lens, prev, prev + 1);
    NextGroup(lens, prev + 1, prev);
    if Next(lens, prev + 1) > k {
      EndSmall(lens, prev, k);
    }
  }

  // ---------- building the table ----------

  /** Words of 16 bits. */
  type Entry = e: nat | e < 0x1_0000

  /** (count << 4) | delta */
  function GroupEntry(count: nat, delta: nat): nat {
    Or(Shl(count, 4), delta)
  }

  lemma GroupEntryIs(count: nat, delta: nat)
    requires delta < 16
    ensures GroupEntry(count, delta) == 16 * count + delta
  {
    assert Pow2(4) == 16;
    OrSum(count, delta, 4);
  }

  /** The symbols found so far and those still to come. */
  lemma SymbolsSplit(lens: seq<nat>, b: nat, i: nat)
    requires i < |lens|
    ensures Symbols(lens, b, i) == (if lens[i] == b then [i] else []) + Symbols(lens, b, i + 1)
    ensures Count(lens, b, i + 1) == Count(lens, b, i) + if lens[i] == b then 1 else 0
  {}

  lemma {:induction false} SymbolsFrom(lens: seq<nat>, b: nat, i: nat)
    requires i <= |lens| && Count(lens, b, i) == 0
    ensures Symbols(lens, b, 0) == Symbols(lens, b, i)
    decreases i
  {
    if i > 0 { SymbolsFrom(lens, b, i - 1); }
  }

  /** What precedes the entry of a group. */
  function SkipPart(b: nat, prev: nat): seq<nat>
    requires prev < b
  {
    if b - prev > 8 then [8] else []
  }

  /** The length from which the entry of a group counts on. */
  function SkipTo(b: nat, prev: nat): nat {
    if b - prev > 8 then prev + 8 else prev
  }

  lemma GroupParts(lens: seq<nat>, b: nat, prev: nat)
    requires prev < b
    ensures var skip := SkipPart(b, prev);
      Group(lens, b, prev) == skip + [16 * Codes(lens, b) + (b - SkipTo(b, prev))] + Symbols(lens, b, 0)
    ensures |Group(lens, b, prev)| == |SkipPart(b, prev)| + 1 + Codes(lens, b)
      && Codes(lens, b) == |Symbols(lens, b, 0)|
  {
    SymbolsLength(lens, b, 0);
    assert |Symbols(lens, b, 0)| == Codes(lens, b);
    hide Count, Symbols, Codes;
    var x, y := 16 * Codes(lens, b) + (b - prev - 8), 16 * Codes(lens, b) + (b - prev);
    if b - prev > 8 { assert [8, x] == [8] + [x]; } else { assert [y] == [] + [y]; }
  }

  lemma {:induction false} CountBound(lens: seq<nat>, b: nat, n: nat)
    requires n <= |lens|
    ensures Count(lens, b, n) <= n
  {
    if n > 0 { CountBound(lens, b, n - 1); }
  }

  /** The cells of a table with some of them replaced from `at` on. */
  function Put(cells: seq<int>, at: nat, done: seq<int>): (r: seq<int>)
    requires at + |done| <= |cells|
    ensures |r| == |cells|
  {
    cells[..at] + done + cells[at + |done|..]
  }

  /** One more cell written. */
  method PutNext(tree: array<Entry>, at: nat, count: nat, symbol: Entry, ghost cells: seq<int>, ghost done: seq<int>)
    requires at + |done| < |cells| && count == |done| && tree[..] == Put(cells, at, done)
    modifies tree
    ensures tree[..] == Put(cells, at, done + [symbol])
  {
    tree[at + count] := symbol;
  }

  lemma PutTwice(cells: seq<int>, at: nat, a: seq<int>, b: seq<int>)
    requires at + |a| + |b| <= |cells|
    ensures Put(Put(cells, at, a), at + |a|, b) == Put(cells, at, a + b)
  {}

  /** The cell before them is written last. */
  lemma PutBefore(cells: seq<int>, at: nat, entry: int, a: seq<int>)
    requires at + 1 + |a| <= |cells|
    ensures Put(cells, at + 1, a)[at := entry] == Put(cells, at, [entry] + a)
  {}

  /** Symbol i belongs to those of length b, or it does not. */
  lemma TakeSymbol(lens: seq<nat>, b: nat, i: nat, done: seq<int>, all: seq<nat>)
    requires i < |lens| && done + Symbols(lens, b, i) == all
    ensures var more := if lens[i] == b then done + [i] else done;
      more + Symbols(lens, b, i + 1) == all && |more| <= |all|
      && Count(lens, b, i + 1) == Count(lens, b, i) + |more| - |done|
  {
    SymbolsSplit(lens, b, i);
    hide Symbols, Count;
    if lens[i] == b { AppendAssoc(done, [i], Symbols(lens, b, i + 1)); }
  }

  /** The symbols of one length, from the first one on. */
  method PutSymbols(lens: seq<nat>, bits: nat, first: nat, tree: array<Entry>, at: nat) returns (count: nat)
    requires |lens| <= 288 && first < |lens| && lens[first] == bits && Count(lens, bits, first) == 0
    requires at + |Symbols(lens, bits, 0)| <= tree.Length
    modifies tree
    ensures count == Count(lens, bits, |lens|) == |Symbols(lens, bits, 0)|
    ensures tree[..] == Put(old(tree[..]), at, Symbols(lens, bits, 0))
  {
    assert Count(lens, bits, 0) == 0;
    hide Symbols, Count, Put;
    SymbolsLength(lens, bits, 0);
    SymbolsFrom(lens, bits, first);
    ghost var all, cells := Symbols(lens, bits, 0), tree[..];
    ghost var done: seq<int> := [];
    TakeSymbol(lens, bits, first, done, all);
    PutNone(cells, at);
    PutNext(tree, at, 0, first, cells, done);
    count := 1;
    done := done + [first];
    var i := first + 1;
    while i < |lens|
      invariant first < i <= |lens| && count == Count(lens, bits, i) == |done| <= |all|
      invariant tree[..] == Put(cells, at, done) && done + Symbols(lens, bits, i) == all
    {
      TakeSymbol(lens, bits, i, done, all);
      if lens[i] == bits {
        PutNext(tree, at, count, i, cells, done);
        done := done + [i];
        count := count + 1;
      }
      i := i + 1;
    }
    SymbolsEnd(lens, bits);
    assert done + [] == done;
  }

  lemma PutNone(cells: seq<int>, at: nat)
    requires at <= |cells|
    ensures Put(cells, at, []) == cells
  {}

  lemma AppendAssoc(a: seq<int>, b: seq<int>, c: seq<int>)
    ensures a + b + c == a + (b + c)
  {}

  lemma SymbolsEnd(lens: seq<nat>, b: nat)
    ensures Symbols(lens, b, |lens|) == []
  {}

  /** A gap of more than eight lengths is made in two steps. */
  method PutSkip(bits: nat, prev0: nat, tree: array<Entry>, at: nat) returns (n: nat, prev: nat)
    requires prev0 < bits < 16 && at + |SkipPart(bits, prev0)| <= tree.Length
    modifies tree
    ensures n == at + |SkipPart(bits, prev0)| && prev == SkipTo(bits, prev0)
    ensures tree[..] == Put(old(tree[..]), at, SkipPart(bits, prev0))
  {
    n, prev := at, prev0;
    PutNone(tree[..], at);
    if bits - prev > 8 {
      PutNext(tree, at, 0, 8, tree[..], []);
      assert [] + [8] == SkipPart(bits, prev0);
      n := n + 1;
      prev := prev + 8;
    }
  }

  /** The entry of a group, at most eight lengths behind prev, and its symbols. */
  function Counted(lens: seq<nat>, b: nat, prev: nat): seq<int> {
    [16 * |Symbols(lens, b, 0)| + (b - prev)] + Symbols(lens, b, 0)
  }

  lemma CountedParts(lens: seq<nat>, b: nat, prev: nat)
    ensures Counted(lens, b, prev) == [16 * |Symbols(lens, b, 0)| + (b - prev)] + Symbols(lens, b, 0)
    ensures |Counted(lens, b, prev)| == 1 + |Symbols(lens, b, 0)|
  {}

  lemma GroupFits(lens: seq<nat>, b: nat, prev: nat, cells: seq<int>, at: nat)
    requires prev < b < 16 && at + |Group(lens, b, prev)| <= |cells|
    ensures var skip, symbols := SkipPart(b, prev), Symbols(lens, b, 0);
      var last, base := SkipTo(b, prev), at + |skip|;
      && last < b <= last + 8
      && base + 1 + |symbols| == at + |Group(lens, b, prev)| && |symbols| == Count(lens, b, |lens|) == Codes(lens, b)
      && |Counted(lens, b, last)| == 1 + |symbols|
      && Put(Put(cells, at, skip), base, Counted(lens, b, last)) == Put(cells, at, Group(lens, b, prev))
  {
    GroupParts(lens, b, prev);
    hide Symbols, Count, Group, Put;
    var skip, symbols := SkipPart(b, prev), Symbols(lens, b, 0);
    var entry := [16 * |symbols| + (b - SkipTo(b, prev))];
    PutTwice(cells, at, skip, entry + symbols);
    AppendAssoc(skip, entry, symbols);
  }

  /** The entry of a group and its symbols. */
  method PutCounted(lens: seq<nat>, bits: nat, first: nat, prev: nat, tree: array<Entry>, base: nat)
    returns (count: nat)
    requires |lens| <= 288 && first < |lens| && lens[first] == bits && prev < bits <= prev + 8
    requires Count(lens, bits, first) == 0
    requires base + 1 + |Symbols(lens, bits, 0)| <= tree.Length
    modifies tree
    ensures count == Count(lens, bits, |lens|) == |Symbols(lens, bits, 0)|
    ensures |Counted(lens, bits, prev)| == 1 + count
    ensures tree[..] == Put(old(tree[..]), base, Counted(lens, bits, prev))
  {
    CountBound(lens, bits, |lens|);
    CountedParts(lens, bits, prev);
    hide *;
    ghost var cells := tree[..];
    count := PutSymbols(lens, bits, first, tree, base + 1);
    GroupEntryIs(count, bits - prev);
    PutBefore(cells, base, 16 * count + (bits - prev), Symbols(lens, bits, 0));
    tree[base] := GroupEntry(count, bits - prev);
  }

  /** The group of length bits, whose first symbol is `first`. */
  method PutGroup(lens: seq<nat>, bits: nat, first: nat, prev0: nat, tree: array<Entry>, at: nat)
    returns (n: nat, count: nat)
    requires |lens| <= 288 && first < |lens| && lens[first] == bits && prev0 < bits < 16
    requires Count(lens, bits, first) == 0
    requires at + |Group(lens, bits, prev0)| <= tree.Length
    modifies tree
    ensures n == at + |Group(lens, bits, prev0)| && count == Codes(lens, bits)
    ensures tree[..] == Put(old(tree[..]), at, Group(lens, bits, prev0))
  {
    GroupFits(lens, bits, prev0, tree[..], at);
    hide *;
    var base, prev := PutSkip(bits, prev0, tree, at);
    count := PutCounted(lens, bits, first, prev, tree, base);
    n := base + 1 + count;
  }

  // ---------- the sum over all lengths ----------

  /** (0x10000 * count) >> bits */
  lemma Share(count: nat, bits: nat)
    requires 0 < bits < 16
    ensures (0x1_0000 * count) / Pow2(bits) == Pow2(16 - bits) * count
  {
    PowAdd(bits, 16 - bits);
    Powers();
    MulAssoc(Pow2(bits), Pow2(16 - bits), count);
    QuotientIs(0x1_0000 * count, Pow2(bits), Pow2(16 - bits) * count, 0);
  }

  lemma TotalStep(lens: seq<nat>, bits: nat)
    requires 0 < bits <= 16
    ensures Pow2(16 - (bits - 1)) * End(lens, bits - 1) + Pow2(16 - bits) * Codes(lens, bits)
         == Pow2(16 - bits) * End(lens, bits)
  {
    assert Pow2(16 - (bits - 1)) == 2 * Pow2(16 - bits);
    assert First(lens, bits) == 2 * End(lens, bits - 1);
    hide Pow2, First, Codes;
    var e, c := End(lens, bits - 1), Codes(lens, bits);
    TotalSum(Pow2(16 - bits), e, c);
  }

  lemma TotalSum(p: int, e: int, c: int)
    ensures 2 * p * e + p * c == p * (2 * e + c)
  {
    MulMinus(p, 2 * e, -c);
    MulAssoc(2, p, e);
  }

  lemma GroupsStep(lens: seq<nat>, bits: nat, prev: nat)
    requires prev < bits < 16
    ensures Groups(lens, bits, prev)
            == if Codes(lens, bits) == 0 then Groups(lens, bits + 1, prev)
               else Group(lens, bits, prev) + Groups(lens, bits + 1, bits)
  {}

  /** The first symbol of length b, if there is one. */
  method FindLength(lens: seq<nat>, bits: nat) returns (i: nat)
    requires bits > 0
    ensures i <= |lens| && Count(lens, bits, i) == 0
    ensures i < |lens| ==> lens[i] == bits && Codes(lens, bits) > 0
    ensures i == |lens| ==> Codes(lens, bits) == 0
  {
    i := 0;
    while i < |lens| && lens[i] != bits
      invariant i <= |lens| && Count(lens, bits, i) == 0
    {
      i := i + 1;
    }
    if i < |lens| { CountBelow(lens, i, |lens|); }
  }

  /**
    lib_deflate_build_huffman: the table of the code lengths; it is accepted exactly when the code is
    complete.
  */
  method Build(lens: seq<nat>, tree: array<Entry>) returns (ok: bool)
    requires |lens| <= 288 && |Groups(lens, 1, 0)| <= tree.Length
    modifies tree
    ensures tree[..|Groups(lens, 1, 0)|] == Groups(lens, 1, 0)
    ensures ok <==> Complete(lens)
  {
    hide Groups, Count, Codes, First, End, Group, Pow2, Put;
    ghost var all := Groups(lens, 1, 0);
    var n, prev, total, bits := 0, 0, 0, 1;
    EndZero(lens);
    while bits < 16
      invariant 0 < bits <= 16 && prev < bits && 0 <= n <= |all|
      invariant tree[..n] + Groups(lens, bits, prev) == all
      invariant total == Pow2(16 - (bits - 1)) * End(lens, bits - 1)
    {
      GroupsStep(lens, bits, prev);
      TotalStep(lens, bits);
      var i := FindLength(lens, bits);
      if i < |lens| {
        ghost var rest := Groups(lens, bits + 1, bits);
        ghost var done := tree[..n];
        AppendAssoc(done, Group(lens, bits, prev), rest);
        NextFits(done, Group(lens, bits, prev), rest, all);
        ghost var cells := tree[..];
        var at, count := n, 0;
        n, count := PutGroup(lens, bits, i, prev, tree, at);
        PutBehind(tree, cells, at, Group(lens, bits, prev));
        prev := bits;
        Share(count, bits);
        total := total + (0x1_0000 * count) / Pow2(bits);
      }
      bits := bits + 1;
    }
    GroupsEnd(lens, prev);
    TotalEnd(lens, total, 15);
    assert tree[..|all|] == all;
    ok := total == 0x1_0000;
  }

  lemma PutBehind(tree: array<Entry>, cells: seq<int>, at: nat, done: seq<int>)
    requires |cells| == tree.Length && at + |done| <= tree.Length && tree[..] == Put(cells, at, done)
    ensures tree[..at + |done|] == cells[..at] + done
  {
    assert tree[..at + |done|] == tree[..][..at + |done|];
  }

  lemma NextFits(a: seq<nat>, b: seq<nat>, c: seq<nat>, all: seq<nat>)
    requires a + (b + c) == all
    ensures |a| + |b| <= |all|
  {}

  lemma EndZero(lens: seq<nat>)
    ensures End(lens, 0) == 0
  {}

  lemma GroupsEnd(lens: seq<nat>, prev: nat)
    requires prev < 16
    ensures Groups(lens, 16, prev) == []
  {}

  lemma TotalEnd(lens: seq<nat>, total: nat, k: nat)
    requires k == MAX_BITS && total == Pow2(16 - k) * End(lens, k)
    ensures total == 0x1_0000 <==> EndsAt(lens, k)
  {
    Powers();
    assert Pow2(1) == 2 && Pow2(16) == 2 * Pow2(k);
  }
}
