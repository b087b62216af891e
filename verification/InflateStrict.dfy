/**
  What the decoder accepts of the deflate format: codes that are complete, and code lengths whose
  repetitions stay within one code. Apart from that it refuses only what the format has no step for.
*/
module InflateStrict {
  import opened Crc
  import opened DeflateBits
  import opened Huffman
  import opened InflateSpec

  /** Nothing that can be read comes next. */
  ghost predicate NoLength(data: seq<Byte>, cl: seq<nat>, p: nat, have: seq<nat>, n: nat) {
    forall q: nat, all: seq<nat> :: !LengthStep(data, cl, p, have, n, q, all)
  }

  /** No way leads to n lengths. */
  ghost predicate NoLengths(data: seq<Byte>, cl: seq<nat>, p: nat, have: seq<nat>, n: nat) {
    forall q: nat, all: seq<nat>, k: nat :: |all| == n ==> !LengthsRead(data, cl, p, have, n, q, all, k)
  }

  /** Lengths that end in nothing, before there are n of them, were the only ones. */
  lemma {:induction false} DeadEnd(data: seq<Byte>, cl: seq<nat>, p: nat, have: seq<nat>, n: nat, q: nat,
                                   mid: seq<nat>, j: nat,
                                   r: nat, all: seq<nat>, k: nat)
    requires LengthsRead(data, cl, p, have, n, q, mid, j) && |mid| < n && NoLength(data, cl, q, mid, n)
    ensures |all| == n ==> !LengthsRead(data, cl, p, have, n, r, all, k)
    decreases j
  {
    hide LengthStep;
    if |all| == n && LengthsRead(data, cl, p, have, n, r, all, k) {
      if j > 0 {
        var p1: nat, h1 :| LengthStep(data, cl, p, have, n, p1, h1) && LengthsRead(data, cl, p1, h1, n, q, mid, j - 1);
        HaveShort(data, cl, p, have, n, p1, h1);
        var p2: nat, h2 :| LengthStep(data, cl, p, have, n, p2, h2) && LengthsRead(data, cl, p2, h2, n, r, all, k - 1);
        LengthOnce(data, cl, p, have, n, p1, h1, p2, h2);
        DeadEnd(data, cl, p1, h1, n, q, mid, j - 1, r, all, k - 1);
      }
    }
  }

  lemma NoWay(data: seq<Byte>, cl: seq<nat>, p: nat, n: nat, q: nat, mid: seq<nat>, j: nat)
    requires LengthsRead(data, cl, p, [], n, q, mid, j) && |mid| < n && NoLength(data, cl, q, mid, n)
    ensures NoLengths(data, cl, p, [], n)
  {
    hide LengthsRead, NoLength;
    forall r: nat, all: seq<nat>, k: nat | |all| == n ensures !LengthsRead(data, cl, p, [], n, r, all, k) {
      DeadEnd(data, cl, p, [], n, q, mid, j, r, all, k);
    }
  }

  /** Lengths of one code are read the same way behind those of another. */
  lemma LengthBehind(data: seq<Byte>, cl: seq<nat>, p: nat, have: seq<nat>, n: nat, q: nat, all: seq<nat>,
                     front: seq<nat>)
    requires LengthStep(data, cl, p, have, n, q, all)
    ensures LengthStep(data, cl, p, front + have, |front| + n, q, front + all)
  {
    hide Decoded, BitsLe, Repeated;
    var sym: nat :| LengthBy(data, cl, p, have, q, all, sym);
    assert LengthBy(data, cl, p, front + have, q, front + all, sym);
  }

  lemma {:induction false} LengthsBehind(data: seq<Byte>, cl: seq<nat>, p: nat, have: seq<nat>, n: nat, q: nat,
                                         all: seq<nat>, k: nat,
                                         front: seq<nat>)
    requires LengthsRead(data, cl, p, have, n, q, all, k)
    ensures LengthsRead(data, cl, p, front + have, |front| + n, q, front + all, k)
    decreases k
  {
    hide LengthStep;
    if k > 0 {
      var p1: nat, h1 :| LengthStep(data, cl, p, have, n, p1, h1) && LengthsRead(data, cl, p1, h1, n, q, all, k - 1);
      LengthBehind(data, cl, p, have, n, p1, h1, front);
      LengthsBehind(data, cl, p1, h1, n, q, all, k - 1, front);
    }
  }

  lemma LengthWithin(data: seq<Byte>, cl: seq<nat>, p: nat, have: seq<nat>, n: nat, q: nat, all: seq<nat>, m: nat)
    requires LengthStep(data, cl, p, have, n, q, all) && n <= m
    ensures LengthStep(data, cl, p, have, m, q, all)
  {}

  /** More room for lengths than are read. */
  lemma {:induction false} LengthsWithin(data: seq<Byte>, cl: seq<nat>, p: nat, have: seq<nat>, n: nat, q: nat,
                                         all: seq<nat>, k: nat, m: nat)
    requires LengthsRead(data, cl, p, have, n, q, all, k) && n <= m
    ensures LengthsRead(data, cl, p, have, m, q, all, k)
    decreases k
  {
    hide LengthStep;
    if k > 0 {
      var p1: nat, h1 :| LengthStep(data, cl, p, have, n, p1, h1) && LengthsRead(data, cl, p1, h1, n, q, all, k - 1);
      LengthWithin(data, cl, p, have, n, p1, h1, m);
      LengthsWithin(data, cl, p1, h1, n, q, all, k - 1, m);
    }
  }

  // ---------- headers ----------

  /** The lengths of the two codes, apart, and complete codes. */
  ghost predicate SplitBy(data: seq<Byte>, cl: seq<nat>, p: nat, l: seq<nat>, d: seq<nat>, q: nat, mid: nat, j: nat,
                          k: nat) {
    && Complete(cl) && Complete(l) && Complete(d)
    && LengthsRead(data, cl, p, [], |l|, mid, l, j) && LengthsRead(data, cl, mid, [], |d|, q, d, k)
  }

  /** A header of a block with dynamic codes that the decoder accepts. */
  ghost predicate Split(data: seq<Byte>, p: nat, l: seq<nat>, d: seq<nat>, q: nat) {
    && p + 14 <= 8 * |data|
    && var clens := 4 + BitsLe(data, p + 10, 4);
       && |l| == 257 + BitsLe(data, p, 5) && |d| == 1 + BitsLe(data, p + 5, 5)
       && clens <= 19 && p + 14 + 3 * clens <= 8 * |data|
       && exists mid, j, k :: SplitFrom(data, p, clens, l, d, q, mid, j, k)
  }

  /** Read with the code length code that precedes them. */
  ghost predicate SplitFrom(data: seq<Byte>, p: nat, clens: nat, l: seq<nat>, d: seq<nat>, q: nat, mid: nat, j: nat,
                            k: nat)
    requires clens <= 19 && p + 14 + 3 * clens <= 8 * |data|
  {
    SplitBy(data, CodeLengths(data, p + 14, clens), p + 14 + 3 * clens, l, d, q, mid, j, k)
  }

  /** Both codes together, as the format has them. */
  lemma SplitLengths(data: seq<Byte>, cl: seq<nat>, p: nat, l: seq<nat>, d: seq<nat>, q: nat, mid: nat, j: nat, k: nat)
    requires SplitBy(data, cl, p, l, d, q, mid, j, k)
    ensures LengthsRead(data, cl, p, [], |l + d|, q, l + d, j + k)
  {
    hide LengthsRead, Complete;
    LengthsWithin(data, cl, p, [], |l|, mid, l, j, |l + d|);
    LengthsBehind(data, cl, mid, [], |d|, q, d, k, l);
    assert l + [] == l;
    LengthsJoin(data, cl, p, [], |l + d|, mid, l, j, q, l + d, k);
  }

  lemma {:induction false} LengthsJoin(data: seq<Byte>, cl: seq<nat>, p: nat, have: seq<nat>, n: nat, q: nat,
                                       mid: seq<nat>,
                                       j: nat, r: nat, all: seq<nat>, k: nat)
    requires LengthsRead(data, cl, p, have, n, q, mid, j) && LengthsRead(data, cl, q, mid, n, r, all, k)
    ensures LengthsRead(data, cl, p, have, n, r, all, j + k)
    decreases j
  {
    hide LengthStep;
    if j > 0 {
      var p': nat, have' :| LengthStep(data, cl, p, have, n, p', have')
        && LengthsRead(data, cl, p', have', n, q, mid, j - 1);
      LengthsJoin(data, cl, p', have', n, q, mid, j - 1, r, all, k);
    }
  }

  lemma SplitIsDynamic(data: seq<Byte>, p: nat, l: seq<nat>, d: seq<nat>, q: nat)
    requires Split(data, p, l, d, q)
    ensures Dynamic(data, p, l, d, q)
  {
    hide LengthsRead, Complete, BitsLe, CodeLengths;
    var clens := 4 + BitsLe(data, p + 10, 4);
    var mid: nat, j: nat, k: nat :| SplitFrom(data, p, clens, l, d, q, mid, j, k);
    SplitLengths(data, CodeLengths(data, p + 14, clens), p + 14 + 3 * clens, l, d, q, mid, j, k);
    assert LengthsBy(data, p, clens, |l|, l + d, q, j + k);
  }

  /** The parts of a header that stop the decoder. */
  ghost predicate NoSplit(data: seq<Byte>, p: nat) {
    forall l: seq<nat>, d: seq<nat>, q: nat :: !Split(data, p, l, d, q)
  }

  // ---------- steps ----------

  /** A step of the format that the decoder takes. */
  ghost predicate StrictStep(data: seq<Byte>, s: State, t: State) {
    && Step(data, s, t)
    && (s.phase == Between && t.phase.Coded? && BitsLe(data, s.pos + 1, 2) == 2 ==>
          Split(data, s.pos + 3, t.phase.literals, t.phase.distances, t.pos))
  }

  /** The decoder is not at the end and has no step to take. */
  ghost predicate Refused(data: seq<Byte>, s: State) {
    !Final(s) && forall t: State :: !StrictStep(data, s, t)
  }

  /** It gets to such a place, having put out at least `out`, but not `room` bytes more. */
  ghost predicate Breaks(data: seq<Byte>, out: seq<Byte>, room: nat) {
    exists s: State, k: nat :: BreaksAt(data, out, room, s, k)
  }

  ghost predicate BreaksAt(data: seq<Byte>, out: seq<Byte>, room: nat, s: State, k: nat) {
    Runs(data, START, s, k) && Refused(data, s) && out <= s.out && |s.out| < |out| + room
  }

  ghost predicate StrictRuns(data: seq<Byte>, s: State, t: State, k: nat)
    decreases k
  {
    if k == 0 then s == t else exists m :: StrictRuns(data, s, m, k - 1) && StrictStep(data, m, t)
  }

  lemma {:induction false} StrictIsRun(data: seq<Byte>, s: State, t: State, k: nat)
    requires StrictRuns(data, s, t, k)
    ensures Runs(data, s, t, k)
    decreases k
  {
    hide Step, StrictStep;
    if k > 0 {
      var m :| StrictRuns(data, s, m, k - 1) && StrictStep(data, m, t);
      StrictIsRun(data, s, m, k - 1);
      StrictIsStep(data, m, t);
    }
  }

  lemma StrictIsStep(data: seq<Byte>, s: State, t: State)
    requires StrictStep(data, s, t)
    ensures Step(data, s, t)
  {}

  /** A place with nothing to go on to is not on the way to anywhere else. */
  lemma {:induction false} NotBeyond(data: seq<Byte>, s: State, j: nat, t: State, k: nat)
    requires Runs(data, START, s, j) && Refused(data, s) && StrictRuns(data, START, t, k)
    ensures k <= j
    decreases k
  {
    hide Step, Refused;
    if k > j {
      var m :| StrictRuns(data, START, m, k - 1) && StrictStep(data, m, t);
      if k - 1 == j {
        StrictIsRun(data, START, m, j);
        OneRun(data, START, s, j, m, j);
        NoStep(data, s, t);
      } else {
        NotBeyond(data, s, j, m, k - 1);
      }
    }
  }

  lemma NoStep(data: seq<Byte>, s: State, t: State)
    requires Refused(data, s)
    ensures !StrictStep(data, s, t)
  {}

  /** A stream that breaks off has no decoding that the decoder could have followed to the end. */
  lemma BrokenHasNoEnd(data: seq<Byte>, out: seq<Byte>, room: nat, final: State, k: nat)
    requires Breaks(data, out, room) && StrictRuns(data, START, final, k)
    ensures !Final(final)
  {
    hide Runs, StrictRuns, StrictStep;
    var s: State, j: nat :| BreaksAt(data, out, room, s, j);
    NotBeyond(data, s, j, final, k);
    StrictIsRun(data, START, final, k);
    OneRun(data, START, final, k, s, j);
  }
}
