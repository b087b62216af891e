/** The fixed codes (section 3.2.6 of RFC 1951). */
module HuffmanFixed {
  import opened Gf2Poly
  import opened Huffman
  import opened HuffmanWalk

  function FixedLength(i: nat): nat {
    if i < 144 then 8 else if i < 256 then 9 else if i < 280 then 7 else 8
  }

  /** The lengths of the literal/length codes. */
  function FixedLiterals(): (lens: seq<nat>)
    ensures |lens| == 288 && forall i: nat :: i < 288 ==> lens[i] == FixedLength(i)
  {
    seq(288, i requires 0 <= i => FixedLength(i))
  }

  /** The lengths of the distance codes. */
  function FixedDistances(): (lens: seq<nat>)
    ensures |lens| == 32 && forall i :: 0 <= i < 32 ==> lens[i] == 5
  {
    seq(32, _ => 5)
  }

  /** i, i + 1, .., j - 1 */
  function Range(i: nat, j: nat): (r: seq<nat>)
    ensures |r| == (if i < j then j - i else 0) && forall k :: 0 <= k < |r| ==> r[k] == i + k
    decreases j - i
  {
    if i < j then [i] + Range(i + 1, j) else []
  }

  /** The table of the literal/length codes. */
  function LiteralTable(): seq<nat> {
    [16 * 24 + 7] + Range(256, 280)
      + ([16 * 152 + 1] + (Range(0, 144) + Range(280, 288)) + ([16 * 112 + 1] + Range(144, 256)))
  }

  /** The table of the distance codes. */
  function DistanceTable(): seq<nat> {
    [16 * 32 + 5] + Range(0, 32)
  }

  /** A run of symbols of length b. */
  lemma {:induction false} RunIn(lens: seq<nat>, b: nat, i: nat, j: nat)
    requires i <= j <= |lens| && forall k :: i <= k < j ==> lens[k] == b
    ensures Symbols(lens, b, i) == Range(i, j) + Symbols(lens, b, j)
    decreases j - i
  {
    if i < j {
      RunIn(lens, b, i + 1, j);
      AppendAssoc([i], Range(i + 1, j), Symbols(lens, b, j));
    }
  }

  /** A run of symbols of other lengths. */
  lemma {:induction false} RunOut(lens: seq<nat>, b: nat, i: nat, j: nat)
    requires i <= j <= |lens| && forall k :: i <= k < j ==> lens[k] != b
    ensures Symbols(lens, b, i) == Symbols(lens, b, j)
    decreases j - i
  {
    if i < j {
      RunOut(lens, b, i + 1, j);
      SymbolsSplit(lens, b, i);
      hide Symbols;
    }
  }

  lemma CodesAre(lens: seq<nat>, b: nat)
    requires b > 0
    ensures Codes(lens, b) == |Symbols(lens, b, 0)|
  {
    SymbolsLength(lens, b, 0);
  }

  lemma Sevens(lens: seq<nat>, b: nat)
    requires lens == FixedLiterals() && b == 7
    ensures Symbols(lens, b, 0) == Range(256, 280) && Codes(lens, b) == 24
  {
    hide Range;
    CodesAre(lens, b);
    RunOut(lens, b, 0, 256); RunIn(lens, b, 256, 280); RunOut(lens, b, 280, 288);
    SymbolsEnd(lens, b);
  }

  lemma Eights(lens: seq<nat>, b: nat)
    requires lens == FixedLiterals() && b == 8
    ensures Symbols(lens, b, 0) == Range(0, 144) + Range(280, 288) && Codes(lens, b) == 152
  {
    hide Range;
    CodesAre(lens, b);
    RunIn(lens, b, 0, 144); RunOut(lens, b, 144, 280); RunIn(lens, b, 280, 288);
    SymbolsEnd(lens, b);
  }

  lemma Nines(lens: seq<nat>, b: nat)
    requires lens == FixedLiterals() && b == 9
    ensures Symbols(lens, b, 0) == Range(144, 256) && Codes(lens, b) == 112
  {
    hide Range;
    CodesAre(lens, b);
    RunOut(lens, b, 0, 144); RunIn(lens, b, 144, 256); RunOut(lens, b, 256, 288);
    SymbolsEnd(lens, b);
  }

  ghost predicate Unused(lens: seq<nat>, b: nat) {
    b > 0 && forall i :: 0 <= i < |lens| ==> lens[i] != b
  }

  lemma Others(lens: seq<nat>, b: nat)
    requires Unused(lens, b)
    ensures Codes(lens, b) == 0
  {
    CodesAre(lens, b);
    RunOut(lens, b, 0, |lens|);
    SymbolsEnd(lens, b);
  }

  /** No length in use from c to b - 1. */
  lemma NoneBetween(lens: seq<nat>, c: nat, b: nat, prev: nat)
    requires prev < c <= b <= 16 && forall j :: c <= j < b ==> Unused(lens, j)
    ensures Groups(lens, c, prev) == Groups(lens, b, prev)
    ensures End(lens, b - 1) == Pow2(b - c) * End(lens, c - 1)
  {
    hide Groups, First, Codes, Pow2;
    forall j | c <= j < b ensures Codes(lens, j) == 0 { Others(lens, j); }
    SkipTable(lens, c, prev, b);
    if c < b { FirstBetween(lens, c - 1, b - 1); } else { assert Pow2(0) == 1 by { PowZero(); } }
  }

  lemma PowZero()
    ensures Pow2(0) == 1
  {}

  /** The codes as the standard lists them: from 00110000, 110010000, 0000000 and 11000000 on. */
  lemma FixedCodes(lens: seq<nat>, sym: nat)
    requires lens == FixedLiterals() && sym < 288
    ensures sym < 144 ==> lens[sym] == 8 && Code(lens, sym) == 0x30 + sym
    ensures 144 <= sym < 256 ==> lens[sym] == 9 && Code(lens, sym) == 0x190 + (sym - 144)
    ensures 256 <= sym < 280 ==> lens[sym] == 7 && Code(lens, sym) == sym - 256
    ensures 280 <= sym ==> lens[sym] == 8 && Code(lens, sym) == 0xc0 + (sym - 280)
  {
    hide Range, Symbols, Groups, FixedLiterals;
    NoneBetween(lens, 1, 7, 0);
    EndZero(lens); Sevens(lens, 7); Eights(lens, 8);
    FirstCodes(lens);
    CountNone(lens);
    hide Count, Codes, First, Pow2;
    if sym < 144 {
      CountRun(lens, 8, 0, sym);
    } else if sym < 256 {
      CountOther(lens, 9, 0, 144); CountRun(lens, 9, 144, sym);
    } else if sym < 280 {
      CountOther(lens, 7, 0, 256); CountRun(lens, 7, 256, sym);
    } else {
      CountRun(lens, 8, 0, 144); CountOther(lens, 8, 144, 280); CountRun(lens, 8, 280, sym);
    }
  }

  lemma FirstCodes(lens: seq<nat>)
    requires End(lens, 6) == 0 && Codes(lens, 7) == 24 && Codes(lens, 8) == 152
    ensures First(lens, 7) == 0 && First(lens, 8) == 0x30 && First(lens, 9) == 0x190
  {
    hide Codes;
  }

  /** Five bits for a distance, its own number. */
  lemma FixedDistanceCodes(lens: seq<nat>, sym: nat)
    requires lens == FixedDistances() && sym < 32
    ensures lens[sym] == 5 && Code(lens, sym) == sym
  {
    hide Groups, Symbols;
    NoneBetween(lens, 1, 5, 0);
    EndZero(lens);
    CountNone(lens);
    CountRun(lens, 5, 0, sym);
    hide Count, Codes, Pow2;
    assert First(lens, 5) == 2 * End(lens, 4);
  }

  /** The hard-coded table is that of the fixed lengths. */
  lemma LiteralTableIs(lens: seq<nat>)
    requires lens == FixedLiterals()
    ensures Groups(lens, 1, 0) == LiteralTable() && Complete(lens)
  {
    hide Range, First, Codes, Groups, Symbols, Pow2, FixedLiterals;
    LiteralLengths(lens);
    NoneBetween(lens, 1, 7, 0);
    Sevens(lens, 7); GroupsStep(lens, 7, 0);
    Eights(lens, 8); GroupsStep(lens, 8, 7);
    Nines(lens, 9); GroupsStep(lens, 9, 8);
    NoneBetween(lens, 10, 16, 9);
    GroupsEnd(lens, 9);
    LiteralEnds(lens);
    hide Group, LiteralTable;
    LiteralGroups(lens);
    AllGroups(lens, Group(lens, 7, 0), Group(lens, 8, 7), Group(lens, 9, 8));
  }

  lemma AllGroups(lens: seq<nat>, a: seq<nat>, b: seq<nat>, c: seq<nat>)
    requires Groups(lens, 1, 0) == a + Groups(lens, 8, 7) && Groups(lens, 8, 7) == b + Groups(lens, 9, 8)
    requires Groups(lens, 9, 8) == c + Groups(lens, 10, 9) && Groups(lens, 10, 9) == []
    ensures Groups(lens, 1, 0) == a + (b + c)
  {
    hide Groups;
    assert c + [] == c;
  }

  lemma LiteralGroups(lens: seq<nat>)
    requires Codes(lens, 7) == 24 && Codes(lens, 8) == 152 && Codes(lens, 9) == 112
    requires Symbols(lens, 7, 0) == Range(256, 280) && Symbols(lens, 8, 0) == Range(0, 144) + Range(280, 288)
    requires Symbols(lens, 9, 0) == Range(144, 256)
    ensures LiteralTable() == Group(lens, 7, 0) + (Group(lens, 8, 7) + Group(lens, 9, 8))
  {
    hide Codes, Symbols, Range;
  }

  lemma LiteralLengths(lens: seq<nat>)
    requires lens == FixedLiterals()
    ensures forall j :: 0 < j < 7 || 9 < j < 16 ==> Unused(lens, j)
  {}

  lemma LiteralEnds(lens: seq<nat>)
    requires Codes(lens, 7) == 24 && Codes(lens, 8) == 152 && Codes(lens, 9) == 112
    requires End(lens, 6) == Pow2(6) * End(lens, 0) && End(lens, 15) == Pow2(6) * End(lens, 9)
    ensures Complete(lens)
  {
    var k: nat, six: nat :| k == 9 && six == 6;
    hide Codes;
    EndZero(lens);
    assert First(lens, k) == 2 * End(lens, k - 1) && First(lens, k - 1) == 2 * End(lens, k - 2);
    assert First(lens, k - 2) == 2 * End(lens, k - 3);
    hide First;
    assert Pow2(6) == 64 && Pow2(15) == 0x8000;
  }

  lemma DistanceTableIs(lens: seq<nat>)
    requires lens == FixedDistances()
    ensures Groups(lens, 1, 0) == DistanceTable() && Complete(lens)
  {
    hide Range, First, Codes, Groups, Symbols, Pow2, FixedDistances;
    assert forall j :: 0 < j < 5 || 5 < j < 16 ==> Unused(lens, j);
    NoneBetween(lens, 1, 5, 0);
    Fives(lens, 5); GroupsStep(lens, 5, 0);
    NoneBetween(lens, 6, 16, 5);
    GroupsEnd(lens, 5);
    DistanceEnds(lens);
  }

  lemma Fives(lens: seq<nat>, b: nat)
    requires lens == FixedDistances() && b == 5
    ensures Symbols(lens, b, 0) == Range(0, 32) && Codes(lens, b) == 32
  {
    hide Range;
    CodesAre(lens, b);
    RunIn(lens, b, 0, 32);
    SymbolsEnd(lens, b);
  }

  lemma DistanceEnds(lens: seq<nat>)
    requires Codes(lens, 5) == 32
    requires End(lens, 4) == Pow2(4) * End(lens, 0) && End(lens, 15) == Pow2(10) * End(lens, 5)
    ensures Complete(lens)
  {
    var k: nat :| k == 5;
    hide Codes;
    EndZero(lens);
    assert First(lens, k) == 2 * End(lens, k - 1);
    hide First;
    assert Pow2(10) == 1024 && Pow2(15) == 0x8000;
  }
}
