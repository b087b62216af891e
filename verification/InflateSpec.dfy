/**
  The deflate format (section 3.2 of RFC 1951) as steps of a decoder that stands at a bit of the
  stream and has put out some bytes. The steps are deterministic.
*/
module InflateSpec {
  import opened Gf2Poly
  import opened Crc
  import opened DeflateBits
  import opened Huffman
  import opened HuffmanFixed

  datatype Phase =
    | Between
    | Stored(left: nat)
    | Coded(literals: seq<nat>, distances: seq<nat>)
    | Copying(dist: nat, left: nat, literals: seq<nat>, distances: seq<nat>)

  datatype State = State(pos: nat, last: bool, phase: Phase, out: seq<Byte>)

  const START := State(0, false, Between, [])

  /** Behind the last block. */
  predicate Final(s: State) {
    s.phase == Between && s.last
  }

  // ---------- lengths and distances (section 3.2.5) ----------

  function LengthExtra(i: nat): nat
    requires i < 29
  {
    if i < 8 || i == 28 then 0 else i / 4 - 1
  }

  function LengthBase(i: nat): nat
    requires i < 29
  {
    if i < 8 then 3 + i else if i == 28 then 258 else 3 + Pow2(LengthExtra(i)) * (4 + i % 4)
  }

  function DistanceExtra(i: nat): nat
    requires i < 30
  {
    if i < 4 then 0 else i / 2 - 1
  }

  function DistanceBase(i: nat): nat
    requires i < 30
  {
    if i < 4 then 1 + i else 1 + Pow2(DistanceExtra(i)) * (2 + i % 2)
  }

  // ---------- the lengths of dynamic codes (section 3.2.7) ----------

  /**
    Where the length of a symbol of the code length code is sent: those of the repetitions and of zero
    first, and then from 8 on alternately up and down.
  */
  function Place(sym: nat): (k: nat)
    requires sym < 19
    ensures k < 19
  {
    if sym >= 16 then sym - 16 else if sym == 0 then 3 else if sym >= 8 then 2 * sym - 12 else 19 - 2 * sym
  }

  /** The lengths after the first n of them have been read; the others are zero. */
  function CodeLengths(data: seq<Byte>, p: nat, n: nat): (lens: seq<nat>)
    requires n <= 19 && p + 3 * n <= 8 * |data|
    ensures |lens| == 19
  {
    seq(19, sym requires 0 <= sym < 19 => SentLength(data, p, n, Place(sym)))
  }

  function SentLength(data: seq<Byte>, p: nat, n: nat, k: nat): nat
    requires p + 3 * n <= 8 * |data|
  {
    if k < n then BitsLe(data, p + 3 * k, 3) else 0
  }

  function Repeated(v: nat, n: nat): (r: seq<nat>)
    ensures |r| == n && forall k :: 0 <= k < n ==> r[k] == v
  {
    seq(n, _ => v)
  }

  /** One symbol of the code length code: a length, or a repetition. */
  ghost predicate LengthBy(data: seq<Byte>, cl: seq<nat>, p: nat, have: seq<nat>, q: nat, have': seq<nat>, sym: nat) {
    && Decoded(cl, data, p, sym)
    && var r := p + cl[sym];
       if sym < 16 then q == r && have' == have + [sym]
       else if sym == 16 then
         have != [] && q == r + 2 <= 8 * |data| && have' == have + Repeated(have[|have| - 1], 3 + BitsLe(data, r, 2))
       else if sym == 17 then q == r + 3 <= 8 * |data| && have' == have + Repeated(0, 3 + BitsLe(data, r, 3))
       else sym == 18 && q == r + 7 <= 8 * |data| && have' == have + Repeated(0, 11 + BitsLe(data, r, 7))
  }

  ghost predicate LengthStep(data: seq<Byte>, cl: seq<nat>, p: nat, have: seq<nat>, n: nat, q: nat, have': seq<nat>) {
    |have| < n && |have'| <= n && exists sym :: LengthBy(data, cl, p, have, q, have', sym)
  }

  /** k symbols lead from the lengths `have` to all n lengths. */
  ghost predicate LengthsRead(data: seq<Byte>, cl: seq<nat>, p: nat, have: seq<nat>, n: nat, q: nat, all: seq<nat>,
                              k: nat)
    decreases k
  {
    if k == 0 then p == q && have == all
    else exists p', have' ::
      LengthStep(data, cl, p, have, n, p', have') && LengthsRead(data, cl, p', have', n, q, all, k - 1)
  }

  ghost predicate Dynamic(data: seq<Byte>, p: nat, literals: seq<nat>, distances: seq<nat>, q: nat) {
    && p + 14 <= 8 * |data|
    && var clens := 4 + BitsLe(data, p + 10, 4);
       && |literals| == 257 + BitsLe(data, p, 5) && |distances| == 1 + BitsLe(data, p + 5, 5)
       && clens <= 19 && p + 14 + 3 * clens <= 8 * |data|
       && exists k :: LengthsBy(data, p, clens, |literals|, literals + distances, q, k)
  }

  /** All lengths, read with the code length code that precedes them. */
  ghost predicate LengthsBy(data: seq<Byte>, p: nat, clens: nat, literals: nat, all: seq<nat>, q: nat, k: nat)
    requires clens <= 19 && p + 14 + 3 * clens <= 8 * |data|
  {
    LengthsRead(data, CodeLengths(data, p + 14, clens), p + 14 + 3 * clens, [], |all|, q, all, k)
  }

  // ---------- steps ----------

  /** The next byte boundary. */
  function Aligned(p: nat): nat {
    8 * ((p + 7) / 8)
  }

  ghost predicate HeaderStep(data: seq<Byte>, s: State, s': State) {
    && s.phase == Between && !s.last && s.pos + 3 <= 8 * |data|
    && s'.last == (BitsLe(data, s.pos, 1) == 1) && s'.out == s.out
    && var kind := BitsLe(data, s.pos + 1, 2);
       if kind == 0 then
         var q := Aligned(s.pos + 3);
         q + 32 <= 8 * |data| && s'.pos == q + 32 && BitsLe(data, q, 16) + BitsLe(data, q + 16, 16) == 0xffff
         && s'.phase == Stored(BitsLe(data, q, 16))
       else if kind == 1 then s'.pos == s.pos + 3 && s'.phase == Coded(FixedLiterals(), FixedDistances())
       else kind == 2 && s'.phase.Coded? && Dynamic(data, s.pos + 3, s'.phase.literals, s'.phase.distances, s'.pos)
  }

  ghost predicate StoredStep(data: seq<Byte>, s: State, s': State) {
    && s.phase.Stored?
    && if s.phase.left == 0 then s' == s.(phase := Between)
       else s.pos % 8 == 0 && s.pos / 8 < |data|
            && s' == State(s.pos + 8, s.last, Stored(s.phase.left - 1), s.out + [data[s.pos / 8]])
  }

  /** A length symbol is followed by extra bits, a distance symbol and its extra bits. */
  ghost predicate MatchBy(data: seq<Byte>, s: State, s': State, p: nat, i: nat, dsym: nat)
    requires s.phase.Coded? && i < 29
  {
    && p + LengthExtra(i) <= 8 * |data|
    && var q := p + LengthExtra(i);
       && Decoded(s.phase.distances, data, q, dsym) && dsym < 30
       && var r := q + s.phase.distances[dsym];
          && r + DistanceExtra(dsym) <= 8 * |data|
          && var dist := DistanceBase(dsym) + BitsLe(data, r, DistanceExtra(dsym));
             && dist <= |s.out|
             && s' == State(r + DistanceExtra(dsym), s.last,
                            Copying(dist, LengthBase(i) + BitsLe(data, p, LengthExtra(i)),
                                    s.phase.literals, s.phase.distances),
                            s.out)
  }

  ghost predicate SymbolBy(data: seq<Byte>, s: State, s': State, sym: nat) {
    && s.phase.Coded? && Decoded(s.phase.literals, data, s.pos, sym)
    && var p := s.pos + s.phase.literals[sym];
       if sym < 256 then s' == State(p, s.last, s.phase, s.out + [sym])
       else if sym == 256 then s' == State(p, s.last, Between, s.out)
       else sym - 257 < 29 && exists dsym :: MatchAfter(data, s, s', sym, dsym)
  }

  ghost predicate MatchAfter(data: seq<Byte>, s: State, s': State, sym: nat, dsym: nat)
    requires s.phase.Coded? && 257 <= sym < 257 + 29 && sym < |s.phase.literals|
  {
    MatchBy(data, s, s', s.pos + s.phase.literals[sym], sym - 257, dsym)
  }

  ghost predicate SymbolStep(data: seq<Byte>, s: State, s': State) {
    exists sym :: SymbolBy(data, s, s', sym)
  }

  ghost predicate CopyStep(s: State, s': State) {
    && s.phase.Copying?
    && if s.phase.left == 0 then s' == s.(phase := Coded(s.phase.literals, s.phase.distances))
       else 0 < s.phase.dist <= |s.out|
            && s' == s.(phase := s.phase.(left := s.phase.left - 1), out := s.out + [s.out[|s.out| - s.phase.dist]])
  }

  ghost predicate Step(data: seq<Byte>, s: State, s': State) {
    HeaderStep(data, s, s') || StoredStep(data, s, s') || SymbolStep(data, s, s') || CopyStep(s, s')
  }

  /** k steps lead from s to s'. */
  ghost predicate Runs(data: seq<Byte>, s: State, s': State, k: nat)
    decreases k
  {
    if k == 0 then s == s' else exists m :: Runs(data, s, m, k - 1) && Step(data, m, s')
  }

  // ---------- determinism ----------

  lemma LengthOnce(data: seq<Byte>, cl: seq<nat>, p: nat, have: seq<nat>, n: nat, q1: nat, h1: seq<nat>, q2: nat,
                   h2: seq<nat>)
    requires LengthStep(data, cl, p, have, n, q1, h1) && LengthStep(data, cl, p, have, n, q2, h2)
    ensures q1 == q2 && h1 == h2
  {
    hide BitsLe, CodeBits, Code, Repeated;
    var s1: nat :| LengthBy(data, cl, p, have, q1, h1, s1);
    var s2: nat :| LengthBy(data, cl, p, have, q2, h2, s2);
    DecodedOnce(cl, data, p, s1, s2);
  }

  lemma HaveShort(data: seq<Byte>, cl: seq<nat>, p: nat, have: seq<nat>, n: nat, q: nat, all: seq<nat>)
    requires LengthStep(data, cl, p, have, n, q, all)
    ensures |have| < n
  {}

  lemma {:induction false} LengthsOnce(data: seq<Byte>, cl: seq<nat>, p: nat, have: seq<nat>, n: nat,
                                       q1: nat, a1: seq<nat>, k1: nat, q2: nat, a2: seq<nat>, k2: nat)
    requires LengthsRead(data, cl, p, have, n, q1, a1, k1) && LengthsRead(data, cl, p, have, n, q2, a2, k2)
    requires |a1| == |a2| == n
    ensures q1 == q2 && a1 == a2
    decreases k1
  {
    hide LengthStep;
    if k1 > 0 && k2 > 0 {
      var p1: nat, h1 :| LengthStep(data, cl, p, have, n, p1, h1) && LengthsRead(data, cl, p1, h1, n, q1, a1, k1 - 1);
      var p2: nat, h2 :| LengthStep(data, cl, p, have, n, p2, h2) && LengthsRead(data, cl, p2, h2, n, q2, a2, k2 - 1);
      LengthOnce(data, cl, p, have, n, p1, h1, p2, h2);
      LengthsOnce(data, cl, p1, h1, n, q1, a1, k1 - 1, q2, a2, k2 - 1);
    } else if k1 > 0 {
      var p1: nat, h1 :| LengthStep(data, cl, p, have, n, p1, h1) && LengthsRead(data, cl, p1, h1, n, q1, a1, k1 - 1);
      HaveShort(data, cl, p, have, n, p1, h1);
    } else if k2 > 0 {
      var p2: nat, h2 :| LengthStep(data, cl, p, have, n, p2, h2) && LengthsRead(data, cl, p2, h2, n, q2, a2, k2 - 1);
      HaveShort(data, cl, p, have, n, p2, h2);
    }
  }

  lemma DynamicOnce(data: seq<Byte>, p: nat, l1: seq<nat>, d1: seq<nat>, q1: nat, l2: seq<nat>, d2: seq<nat>, q2: nat)
    requires Dynamic(data, p, l1, d1, q1) && Dynamic(data, p, l2, d2, q2)
    ensures l1 == l2 && d1 == d2 && q1 == q2
  {
    hide LengthsRead, CodeLengths, BitsLe;
    var clens := 4 + BitsLe(data, p + 10, 4);
    var k1: nat :| LengthsBy(data, p, clens, |l1|, l1 + d1, q1, k1);
    var k2: nat :| LengthsBy(data, p, clens, |l2|, l2 + d2, q2, k2);
    LengthsOnce(data, CodeLengths(data, p + 14, clens), p + 14 + 3 * clens, [], |l1 + d1|,
                q1, l1 + d1, k1, q2, l2 + d2, k2);
    assert l1 == (l1 + d1)[..|l1|] && l2 == (l2 + d2)[..|l2|];
    assert d1 == (l1 + d1)[|l1|..] && d2 == (l2 + d2)[|l2|..];
  }

  lemma SymbolOnce(data: seq<Byte>, s: State, a: State, b: State)
    requires SymbolStep(data, s, a) && SymbolStep(data, s, b)
    ensures a == b
  {
    hide BitsLe, CodeBits, Code, MatchBy;
    var x: nat :| SymbolBy(data, s, a, x);
    var y: nat :| SymbolBy(data, s, b, y);
    DecodedOnce(s.phase.literals, data, s.pos, x, y);
    if x > 256 {
      var u: nat :| MatchAfter(data, s, a, x, u);
      var v: nat :| MatchAfter(data, s, b, x, v);
      MatchOnce(data, s, a, b, s.pos + s.phase.literals[x], x - 257, u, v);
    }
  }

  lemma MatchOnce(data: seq<Byte>, s: State, a: State, b: State, p: nat, i: nat, u: nat, v: nat)
    requires s.phase.Coded? && i < 29 && MatchBy(data, s, a, p, i, u) && MatchBy(data, s, b, p, i, v)
    ensures a == b
  {
    hide BitsLe, CodeBits, Code, LengthExtra, LengthBase, DistanceBase, DistanceExtra;
    DecodedOnce(s.phase.distances, data, p + LengthExtra(i), u, v);
  }

  lemma StepOnce(data: seq<Byte>, s: State, a: State, b: State)
    requires Step(data, s, a) && Step(data, s, b)
    ensures a == b
  {
    hide Dynamic, BitsLe, MatchBy, Aligned;
    match s.phase {
      case Between =>
        if BitsLe(data, s.pos + 1, 2) == 2 {
          DynamicOnce(data, s.pos + 3, a.phase.literals, a.phase.distances, a.pos,
                      b.phase.literals, b.phase.distances, b.pos);
        }
      case Stored(_) =>
      case Coded(_, _) => SymbolOnce(data, s, a, b);
      case Copying(_, _, _, _) =>
    }
  }

  lemma StepGrows(data: seq<Byte>, s: State, a: State)
    requires Step(data, s, a)
    ensures s.out <= a.out && !Final(s)
  {}

  /** All runs are parts of one. */
  lemma {:induction false} OneRun(data: seq<Byte>, s: State, a: State, j: nat, b: State, k: nat)
    requires Runs(data, s, a, j) && Runs(data, s, b, k) && j <= k
    ensures j == k ==> a == b
    ensures a.out <= b.out && (j < k ==> !Final(a))
    decreases k
  {
    hide Step;
    if k > 0 {
      var m :| Runs(data, s, m, k - 1) && Step(data, m, b);
      StepGrows(data, m, b);
      if j == k {
        var n :| Runs(data, s, n, k - 1) && Step(data, n, a);
        OneRun(data, s, m, k - 1, n, k - 1);
        StepOnce(data, m, a, b);
      } else {
        OneRun(data, s, a, j, m, k - 1);
      }
    }
  }

  /** Whatever has been put out on the way is a prefix of the decoding of the whole stream. */
  lemma PrefixOfDecoding(data: seq<Byte>, a: State, j: nat, final: State, k: nat)
    requires Runs(data, START, a, j) && Runs(data, START, final, k) && Final(final)
    ensures a.out <= final.out && (Final(a) ==> a.out == final.out)
  {
    if j <= k { OneRun(data, START, a, j, final, k); }
    if k <= j { OneRun(data, START, final, k, a, j); }
  }
}
