/** How big a table of a code is, how a walk through it decodes, and the fixed tables. */
module HuffmanWalk {
  import opened Gf2Poly
  import opened Huffman

  // ---------- size ----------

  /** How many symbols have a length of at least b. */
  function Longer(lens: seq<nat>, b: nat, n: nat): nat
    requires n <= |lens|
  {
    if n == 0 then 0 else Longer(lens, b, n - 1) + if lens[n - 1] >= b then 1 else 0
  }

  lemma {:induction false} LongerStep(lens: seq<nat>, b: nat, n: nat)
    requires n <= |lens| && b > 0
    ensures Longer(lens, b, n) == Longer(lens, b + 1, n) + Count(lens, b, n)
    ensures Longer(lens, b, n) <= n
  {
    if n > 0 { LongerStep(lens, b, n - 1); }
  }

  /** A symbol takes one entry, and a length in use one more. */
  lemma {:induction false} GroupsLength(lens: seq<nat>, b: nat, prev: nat, top: nat)
    requires prev < b && prev <= top <= 15 && forall i :: 0 <= i < |lens| ==> lens[i] <= top
    ensures |Groups(lens, b, prev)| <= Longer(lens, b, |lens|) + top - prev
    decreases 16 - b
  {
    if b < 16 {
      LongerStep(lens, b, |lens|);
      GroupsStep(lens, b, prev);
      if Codes(lens, b) == 0 {
        hide Longer;
        GroupsLength(lens, b + 1, prev, top);
      } else {
        UsedLength(lens, b, |lens|, top);
        hide Longer, Groups, Group;
        GroupParts(lens, b, prev);
        GroupsLength(lens, b + 1, b, top);
      }
    }
  }

  lemma {:induction false} UsedLength(lens: seq<nat>, b: nat, n: nat, top: nat)
    requires n <= |lens| && Count(lens, b, n) > 0 && forall i :: 0 <= i < |lens| ==> lens[i] <= top
    ensures b <= top
  {
    if lens[n - 1] != b { UsedLength(lens, b, n - 1, top); }
  }

  lemma TableSize(lens: seq<nat>, top: nat)
    requires top <= 15 && forall i :: 0 <= i < |lens| ==> lens[i] <= top
    ensures |Groups(lens, 1, 0)| <= |lens| + top
  {
    LongerStep(lens, 1, |lens|);
    GroupsLength(lens, 1, 0, top);
  }

  // ---------- walking ----------

  /** From place t on the table has the groups of the lengths above prev. */
  ghost predicate TableAt(tree: seq<nat>, t: nat, lens: seq<nat>, prev: nat) {
    && t + |Groups(lens, prev + 1, prev)| <= |tree|
    && tree[t..t + |Groups(lens, prev + 1, prev)|] == Groups(lens, prev + 1, prev)
  }

  /** What is read at a group: it names the next length, or says that it is more than eight bits off. */
  ghost predicate GroupAt(tree: seq<nat>, t: nat, lens: seq<nat>, prev: nat, b: nat) {
    && prev < b && t < |tree|
    && First(lens, b) == Pow2(b - prev) * End(lens, prev)
    && if b - prev > 8
       then tree[t] == 8 && First(lens, prev + 8) == End(lens, prev + 8) == Pow2(8) * End(lens, prev)
            && TableAt(tree, t + 1, lens, prev + 8)
       else tree[t] == 16 * Codes(lens, b) + (b - prev) && t + 1 + Codes(lens, b) <= |tree|
            && tree[t + 1..t + 1 + Codes(lens, b)] == Symbols(lens, b, 0)
            && TableAt(tree, t + 1 + Codes(lens, b), lens, b)
  }

  lemma SliceParts(tree: seq<nat>, t: nat, a: seq<nat>, b: seq<nat>)
    requires t + |a + b| <= |tree| && tree[t..t + |a + b|] == a + b
    ensures tree[t..t + |a|] == a && tree[t + |a|..t + |a| + |b|] == b
  {
    var s := tree[t..t + |a + b|];
    assert s[..|a|] == a && s[|a|..] == b;
  }

  lemma WalkStep(tree: seq<nat>, t: nat, lens: seq<nat>, prev: nat)
    requires TableAt(tree, t, lens, prev) && Complete(lens) && prev <= 15 && End(lens, prev) < Pow2(prev)
    ensures var b := Next(lens, prev + 1); prev < b <= 15 && Codes(lens, b) > 0 && GroupAt(tree, t, lens, prev, b)
  {
    hide Groups, Group, Codes, First, Next, TableAt, GroupAt, EndsAt;
    var b := Next(lens, prev + 1);
    assert Pow2(1) == 2;
    MoreGroups(lens, prev, MAX_BITS);
    FirstBetween(lens, prev, prev + 1);
    NextGroup(lens, prev + 1, prev);
    GroupsStep(lens, b, prev);
    if b - prev > 8 {
      SkipGroup(tree, t, lens, prev, b);
    } else {
      PlainGroup(tree, t, lens, prev, b);
    }
  }

  lemma PlainGroup(tree: seq<nat>, t: nat, lens: seq<nat>, prev: nat, b: nat)
    requires prev < b <= 15 && b - prev <= 8 && First(lens, b) == Pow2(b - prev) * End(lens, prev)
    requires TableAt(tree, t, lens, prev)
    requires Groups(lens, prev + 1, prev) == Group(lens, b, prev) + Groups(lens, b + 1, b)
    ensures GroupAt(tree, t, lens, prev, b)
  {
    hide Groups, Symbols, Count, First;
    GroupParts(lens, b, prev);
    SymbolsLength(lens, b, 0);
    var rest := Groups(lens, b + 1, b);
    SliceParts(tree, t, Group(lens, b, prev), rest);
    SliceParts(tree, t, [16 * Codes(lens, b) + (b - prev)], Symbols(lens, b, 0));
  }

  lemma SkipGroup(tree: seq<nat>, t: nat, lens: seq<nat>, prev: nat, b: nat)
    requires b - prev > 8 && b <= 15 && First(lens, b) == Pow2(b - prev) * End(lens, prev)
    requires TableAt(tree, t, lens, prev) && Codes(lens, b) > 0 && forall j :: prev < j < b ==> Codes(lens, j) == 0
    requires Groups(lens, prev + 1, prev) == Group(lens, b, prev) + Groups(lens, b + 1, b)
    ensures GroupAt(tree, t, lens, prev, b)
  {
    hide Groups, Symbols, Count, First, Codes, Group, Pow2;
    FirstBetween(lens, prev, prev + 8);
    SkipTable(lens, prev + 9, prev + 8, b);
    GroupsStep(lens, b, prev + 8);
    GroupTail(lens, b, prev, Groups(lens, b + 1, b));
    SliceParts(tree, t, [8], Groups(lens, prev + 9, prev + 8));
  }

  lemma GroupTail(lens: seq<nat>, b: nat, prev: nat, rest: seq<nat>)
    requires b - prev > 8 && b <= 15
    ensures Group(lens, b, prev) + rest == [8] + (Group(lens, b, prev + 8) + rest)
  {
    hide Symbols, Codes, Group;
    GroupParts(lens, b, prev);
    GroupParts(lens, b, prev + 8);
    var e := [16 * Codes(lens, b) + (b - prev - 8)];
    assert Group(lens, b, prev + 8) == e + Symbols(lens, b, 0);
    AppendAssoc([8], e, Symbols(lens, b, 0));
    AppendAssoc([8], e + Symbols(lens, b, 0), rest);
  }

  lemma {:induction false} SkipTable(lens: seq<nat>, c: nat, prev: nat, b: nat)
    requires prev < c <= b <= 16 && forall j :: c <= j < b ==> Codes(lens, j) == 0
    ensures Groups(lens, c, prev) == Groups(lens, b, prev)
    decreases b - c
  {
    if c < b { SkipTable(lens, c + 1, prev, b); GroupsStep(lens, c, prev); }
  }
}
