/**
  The block allocator: a window of blocks whose use has been looked up by a walk over the file
  system moves around the device; a block is handed out when the walk did not meet it. Candidates
  are numbered without end; the block of candidate k is k modulo the number of blocks.
*/
module Allocator {
  import opened Arith

  /** C's remainder: it has the sign of the dividend. */
  function TruncMod(a: int, n: nat): int
    requires n > 0
  {
    if a >= 0 then a % n else -((-a) % n)
  }

  /** lfs_alloc_lookahead: the place of a block in the window that starts at `begin`. */
  function Place(begin: nat, block: nat, n: nat): nat
    requires n > 0
  {
    (TruncMod(block - begin, n) + n) % n
  }

  function Candidate(k: nat, n: nat): nat
    requires n > 0
  {
    k % n
  }

  /** Fewer than n candidates in a row are different blocks. */
  lemma CandidatesDiffer(j: nat, k: nat, n: nat)
    requires n > 0 && j < k < j + n
    ensures Candidate(j, n) != Candidate(k, n)
  {
    DivParts(j, n); DivParts(k, n);
    if j % n == k % n {
      MulMinus(n, k / n, j / n);
      MulGrows(n, k / n - j / n);
    }
  }

  lemma TruncModParts(a: int, n: nat) returns (q: int)
    requires n > 0
    ensures a == n * q + TruncMod(a, n) && 0 < TruncMod(a, n) + n && TruncMod(a, n) < n
  {
    if a >= 0 { DivParts(a, n); q := a / n; } else { DivParts(-a, n); q := -(-a / n); MulNegative(n, -a / n); }
  }

  lemma MulNegative(n: int, x: int)
    ensures n * -x == -(n * x)
  {}

  /** The place of a block is where the candidate is that block. */
  lemma PlaceIsCandidate(begin: nat, block: nat, n: nat, o: nat)
    requires n > 0 && block < n && o < n
    ensures Place(begin, block, n) == o <==> Candidate(begin + o, n) == block
  {
    var p := PlaceParts(begin, block, n);
    if o < p { CandidatesDiffer(begin + o, begin + p, n); }
    if p < o { CandidatesDiffer(begin + p, begin + o, n); }
  }

  lemma PlaceParts(begin: nat, block: nat, n: nat) returns (p: nat)
    requires n > 0 && block < n
    ensures p == Place(begin, block, n) < n && Candidate(begin + p, n) == block
  {
    var q := TruncModParts(block - begin, n);
    var t := TruncMod(block - begin, n);
    DivParts(t + n, n);
    p := Place(begin, block, n);
    var q' := (t + n) / n;
    MulMinus(n, 1 - q, q'); MulMinus(n, 1, q);
    QuotientIs(begin + p, n, 1 - q - q', block);
  }

  /** The block in place o of the window. */
  function InWindow(begin: nat, o: nat, n: nat): nat
    requires n > 0
  {
    Candidate(begin + o, n)
  }

  lemma OnlyPlace(begin: nat, block: nat, n: nat)
    requires n > 0 && block < n
    ensures forall o: nat :: o < n ==> (o == Place(begin, block, n) <==> InWindow(begin, o, n) == block)
  {
    forall o: nat | o < n ensures o == Place(begin, block, n) <==> InWindow(begin, o, n) == block {
      PlaceIsCandidate(begin, block, n, o);
    }
  }

  /** The bits of the window say which of its blocks are among `blocks`. */
  ghost predicate Bits(bits: seq<bool>, begin: nat, size: nat, n: nat, blocks: set<nat>)
    requires n > 0
  {
    size <= |bits| && forall o: nat :: o < size ==> bits[o] == (InWindow(begin, o, n) in blocks)
  }

  lemma NoBits(bits: seq<bool>, begin: nat, size: nat, n: nat)
    requires n > 0 && size <= |bits| && forall o :: 0 <= o < |bits| ==> !bits[o]
    ensures Bits(bits, begin, size, n, {})
  {}

  lemma BitAt(bits: seq<bool>, begin: nat, size: nat, n: nat, blocks: set<nat>, o: nat)
    requires n > 0 && Bits(bits, begin, size, n, blocks) && o < size
    ensures bits[o] == (Candidate(begin + o, n) in blocks)
  {
    assert bits[o] == (InWindow(begin, o, n) in blocks);
  }

  lemma BitsMark(bits: seq<bool>, bits': seq<bool>, begin: nat, size: nat, n: nat, blocks: set<nat>, block: nat)
    requires n > 0 && block < n && size < n && Bits(bits, begin, size, n, blocks)
    requires var p := Place(begin, block, n); bits' == if p < size then bits[p := true] else bits
    ensures Bits(bits', begin, size, n, blocks + {block})
  {
    hide Place, InWindow;
    OnlyPlace(begin, block, n);
  }

  function Met(inUse: seq<nat>): set<nat> {
    set b | b in inUse
  }

  /** Candidates have been passed over because of what was met. */
  ghost predicate PassedOver(before: map<nat, set<nat>>, after: map<nat, set<nat>>, met: set<nat>) {
    before.Keys <= after.Keys && forall k :: k in after ==> after[k] == if k in before then before[k] else met
  }

  lemma PassedNothing(passed: map<nat, set<nat>>, met: set<nat>)
    ensures PassedOver(passed, passed, met)
  {}

  lemma PassedBoth(p0: map<nat, set<nat>>, p1: map<nat, set<nat>>, p2: map<nat, set<nat>>, met: set<nat>)
    requires PassedOver(p0, p1, met) && PassedOver(p1, p2, met)
    ensures PassedOver(p0, p2, met)
  {}

  lemma PassedOne(passed: map<nat, set<nat>>, k: nat, met: set<nat>)
    ensures PassedOver(passed, if k in passed then passed else passed[k := met], met)
  {}

  /** What has been passed over in a call, because of the walk before it or of its own. */
  ghost predicate Recorded(before: map<nat, set<nat>>, after: map<nat, set<nat>>, met: set<nat>, inUse: seq<nat>) {
    before.Keys <= after.Keys && forall k :: k in after && k !in before ==> after[k] == met || after[k] == Met(inUse)
  }

  lemma RecordedNone(passed: map<nat, set<nat>>, met: set<nat>, inUse: seq<nat>)
    ensures Recorded(passed, passed, met, inUse)
  {}

  lemma RecordedMore(p0: map<nat, set<nat>>, p1: map<nat, set<nat>>, p2: map<nat, set<nat>>, visited: set<nat>,
                     met: set<nat>, inUse: seq<nat>)
    requires Recorded(p0, p1, met, inUse) && PassedOver(p1, p2, visited) && (visited == met || visited == Met(inUse))
    ensures Recorded(p0, p2, met, inUse)
  {}

  class Free {
    const blockCount: nat
    const lookahead: nat
    var begin: nat
    var size: nat
    var off: nat
    var ack: nat
    /** Which blocks of the window are in use, one bit each. */
    const buffer: array<bool>

    /** The candidate with which the time since the last acknowledgement began. */
    ghost var acked: nat
    /** Whether there has been a walk, and what the last one met. */
    ghost var walked: bool
    ghost var visited: set<nat>
    /** The candidates handed out. */
    ghost var given: set<nat>
    /** The candidates passed over, each with what the walk had met when it was looked up. */
    ghost var passed: map<nat, set<nat>>

    function Block(k: nat): nat
      requires blockCount > 0
    {
      Candidate(k, blockCount)
    }

    ghost predicate Valid()
      reads this, buffer
    {
      && blockCount > 0 && lookahead > 0 && buffer.Length == lookahead
      && off <= size <= lookahead && size < blockCount && (size > 0 ==> walked)
      && begin + size <= ack == acked + blockCount - 1 && acked <= begin + off
      && Bits(buffer[..], begin, size, blockCount, visited)
      && (forall k: nat :: k < begin + off ==> k in given || k in passed)
      && (forall k: nat :: k in given ==> k < begin + off)
      && (forall k: nat :: k in passed ==> Block(k) in passed[k])
    }

    /** lfs_setup_free, for the block count and lookahead that lfs_init has checked. */
    constructor (blockCount: nat, lookahead: nat)
      requires blockCount > 0 && lookahead > 0
      ensures Valid() && fresh(buffer) && begin == size == off == acked == 0 && ack == blockCount - 1
      ensures !walked && given == {} && passed == map[]
      ensures this.blockCount == blockCount && this.lookahead == lookahead
    {
      this.blockCount, this.lookahead := blockCount, lookahead;
      begin, size, off := 0, 0, 0;
      ack := blockCount - 1;
      buffer := new bool[lookahead](_ => false);
      acked, walked, visited, given, passed := 0, false, {}, {}, map[];
    }

    /** lfs_alloc_ack: what has been handed out is in the file system by now, or given up. */
    method Ack()
      requires Valid()
      modifies this
      ensures Valid() && acked == begin + off
      ensures unchanged(`begin, `size, `off, `walked, `visited, `given, `passed)
    {
      ack := off - 1 + begin + blockCount;
      acked := begin + off;
    }

    /** The walk marks the blocks it meets. */
    method Mark(inUse: seq<nat>)
      requires blockCount > 0 && size <= buffer.Length && size < blockCount
      requires forall i :: 0 <= i < |inUse| ==> inUse[i] < blockCount
      modifies buffer
      ensures Bits(buffer[..], begin, size, blockCount, Met(inUse))
    {
      hide Bits, Place;
      var i := 0;
      while i < buffer.Length
        invariant 0 <= i <= buffer.Length
        invariant forall o :: 0 <= o < i ==> !buffer[o]
      {
        buffer[i] := false;
        i := i + 1;
      }
      NoBits(buffer[..], begin, size, blockCount);
      ghost var met: set<nat> := {};
      i := 0;
      while i < |inUse|
        invariant 0 <= i <= |inUse|
        invariant Bits(buffer[..], begin, size, blockCount, met) && met == Met(inUse[..i])
      {
        var place := Place(begin, inUse[i], blockCount);
        ghost var bits := buffer[..];
        if place < size {
          buffer[place] := true;
        }
        BitsMark(bits, buffer[..], begin, size, blockCount, met, inUse[i]);
        met := met + {inUse[i]};
        assert inUse[..i + 1] == inUse[..i] + [inUse[i]];
        i := i + 1;
      }
      assert inUse[..|inUse|] == inUse;
    }

    /** The window moves on; the walk looks up its blocks. */
    method Refill(inUse: seq<nat>)
      requires Valid() && off == size < ack - begin
      requires forall i :: 0 <= i < |inUse| ==> inUse[i] < blockCount
      modifies this, buffer
      ensures Valid() && unchanged(`ack, `acked, `given, `passed)
      ensures begin == old(begin + size) && off == 0 < size
      ensures size == if lookahead < ack - begin then lookahead else ack - begin
      ensures walked && visited == Met(inUse)
    {
      begin := begin + size;
      size := if lookahead < ack - begin then lookahead else ack - begin;
      off := 0;
      Mark(inUse);
      walked, visited := true, Met(inUse);
    }

    ghost predicate Seen(from: nat, to: nat, met: set<nat>)
      requires blockCount > 0
    {
      forall k: nat :: from <= k < to ==> Block(k) in met
    }

    lemma SeenNone(from: nat, met: set<nat>)
      requires blockCount > 0
      ensures Seen(from, from, met)
    {}

    lemma SeenOne(from: nat, k: nat, met: set<nat>)
      requires blockCount > 0 && Seen(from, k, met) && Block(k) in met
      ensures Seen(from, k + 1, met)
    {}

    /** Candidate k is in use: by the walk that filled the window up to `end`, or behind it by that of this call. */
    ghost predicate Taken(k: nat, end: nat, before: set<nat>, inUse: seq<nat>)
      requires blockCount > 0
    {
      if k < end then Block(k) in before else Block(k) in inUse
    }

    ghost predicate AllTaken(from: nat, to: nat, end: nat, before: set<nat>, inUse: seq<nat>)
      requires blockCount > 0
    {
      forall k: nat :: from <= k < to ==> Taken(k, end, before, inUse)
    }

    /** The window from `begin` to `to` is the one up to `end`, or lies behind it and was filled in this call. */
    ghost predicate FilledBy(begin: nat, to: nat, visited: set<nat>, end: nat, before: set<nat>, inUse: seq<nat>) {
      (to == end && visited == before) || (begin >= end && visited == Met(inUse))
    }

    lemma StillFilled(from: nat, begin: nat, end: nat, before: set<nat>, inUse: seq<nat>)
      requires blockCount > 0
      ensures FilledBy(begin, end, before, end, before, inUse) && AllTaken(from, from, end, before, inUse)
    {}

    lemma FilledOnce(begin: nat, to: nat, visited: set<nat>, end: nat, before: set<nat>, inUse: seq<nat>)
      requires FilledBy(begin, to, visited, end, before, inUse)
      ensures visited == before || visited == Met(inUse)
    {}

    lemma Moved(begin: nat, to: nat, visited: set<nat>, end: nat, before: set<nat>, inUse: seq<nat>)
      requires FilledBy(begin, to, visited, end, before, inUse) && begin <= to
      ensures to >= end
    {}

    lemma Walked(begin: nat, to: nat, visited: set<nat>, end: nat, before: set<nat>, inUse: seq<nat>)
      requires begin >= end && visited == Met(inUse)
      ensures FilledBy(begin, to, visited, end, before, inUse)
    {}

    lemma MoreTaken(from: nat, mid: nat, next: nat, begin: nat, to: nat, visited: set<nat>,
                    end: nat, before: set<nat>, inUse: seq<nat>)
      requires blockCount > 0 && FilledBy(begin, to, visited, end, before, inUse)
      requires begin <= mid && next <= to && AllTaken(from, mid, end, before, inUse)
      requires Seen(mid, next, visited)
      ensures AllTaken(from, next, end, before, inUse)
    {}

    lemma NotTaken(k: nat, begin: nat, to: nat, visited: set<nat>, end: nat, before: set<nat>, inUse: seq<nat>)
      requires blockCount > 0 && FilledBy(begin, to, visited, end, before, inUse)
      requires begin <= k < to && Block(k) !in visited
      ensures !Taken(k, end, before, inUse)
    {}

    /** Nothing that was handed out before comes again. */
    lemma OthersDiffer(given: set<nat>, acked: nat, begin: nat, last: nat)
      requires blockCount > 0 && last < acked + blockCount && last < begin + blockCount
      requires forall k: nat :: k in given ==> k < last
      ensures forall k: nat :: k in given && (k >= acked || k >= begin) ==> Block(k) != Block(last)
    {
      forall k: nat | k in given && (k >= acked || k >= begin) ensures Block(k) != Block(last) {
        CandidatesDiffer(k, last, blockCount);
      }
    }

    /** One candidate of the window. */
    method Examine() returns (found: bool, block: nat)
      requires Valid() && off < size
      modifies this
      ensures Valid() && unchanged(`begin, `size, `ack, `acked, `walked, `visited) && off == old(off) + 1
      ensures found ==> block == Block(begin + off - 1) && block !in visited && given == old(given) + {begin + off - 1}
      ensures !found ==> given == old(given) && Block(begin + off - 1) in visited
      ensures PassedOver(old(passed), passed, visited)
    {
      hide Bits, PassedOver, Place;
      var o := off;
      ghost var k := begin + off;
      PassedNothing(passed, visited);
      PassedOne(passed, k, visited);
      off := off + 1;
      BitAt(buffer[..], begin, size, blockCount, visited, o);
      found, block := !buffer[o], 0;
      if found {
        given := given + {k};
        block := (begin + o) % blockCount;
      } else {
        passed := if k in passed then passed else passed[k := visited];
      }
    }

    /** The rest of the window is searched for a free block. */
    method Search() returns (found: bool, block: nat)
      requires Valid()
      modifies this
      ensures Valid() && unchanged(`begin, `size, `ack, `acked, `walked, `visited)
      ensures found ==> old(off) < off && block == Block(begin + off - 1) && block !in visited
      ensures given == if found then old(given) + {begin + off - 1} else old(given)
      ensures !found ==> off == size
      ensures old(off) <= off
      ensures Seen(old(begin + off), if found then begin + off - 1 else begin + off, visited)
      ensures PassedOver(old(passed), passed, visited)
    {
      hide Bits, PassedOver, Place, Seen;
      PassedNothing(passed, visited);
      SeenNone(begin + off, visited);
      while off != size
        invariant Valid() && unchanged(`begin, `size, `ack, `acked, `walked, `visited, `given) && old(off) <= off
        invariant PassedOver(old(passed), passed, visited)
        invariant Seen(old(begin + off), begin + off, visited)
        decreases size - off
      {
        ghost var p, k := passed, begin + off;
        found, block := Examine();
        PassedBoth(old(passed), p, passed, visited);
        if !found { SeenOne(old(begin + off), k, visited); }
        if found {
          return;
        }
      }
      return false, 0;
    }

    /** On the way through one call, which began at candidate `from` in a window up to `end`. */
    ghost predicate Running(from: nat, end: nat, before: set<nat>, inUse: seq<nat>, passed0: map<nat, set<nat>>)
      reads this, buffer
    {
      && Valid() && FilledBy(begin, begin + size, visited, end, before, inUse)
      && from <= begin + off && AllTaken(from, begin + off, end, before, inUse)
      && Recorded(passed0, passed, before, inUse)
    }

    lemma Start(inUse: seq<nat>)
      requires Valid()
      ensures Running(begin + off, begin + size, visited, inUse, passed)
      ensures blockCount > 0 && begin + off <= ack == acked + blockCount - 1
    {
      StillFilled(begin + off, begin, begin + size, visited, inUse);
      RecordedNone(passed, visited, inUse);
    }

    /** Behind the window that a call begins with, nothing is handed out that its walk meets. */
    lemma FreshWalk(end: nat, k: nat, before: set<nat>, inUse: seq<nat>)
      requires blockCount > 0 && !Taken(k, end, before, inUse)
      ensures k >= end ==> Block(k) !in inUse
    {}

    /** The inner loop of lfs_alloc. */
    method SearchOn(ghost from: nat, ghost end: nat, ghost before: set<nat>, ghost inUse: seq<nat>,
                    ghost passed0: map<nat, set<nat>>)
      returns (found: bool, block: nat)
      requires Running(from, end, before, inUse, passed0)
      modifies this
      ensures Valid() && unchanged(`begin, `size, `ack, `acked)
      ensures blockCount > 0 && old(off) <= off && begin + off <= ack == acked + blockCount - 1
      ensures visited == before || visited == Met(inUse)
      ensures Recorded(passed0, passed, before, inUse)
      ensures found ==> from < begin + off && block !in visited
      ensures found ==> block == Block(begin + off - 1) == (begin + off - 1) % blockCount
      ensures AllTaken(from, if found then begin + off - 1 else begin + off, end, before, inUse)
      ensures found ==> !Taken(begin + off - 1, end, before, inUse)
      ensures found ==> forall k: nat :: k in old(given) && (k >= acked || k >= begin) ==> Block(k) != block
      ensures given == if found then old(given) + {begin + off - 1} else old(given)
      ensures !found ==> off == size && Running(from, end, before, inUse, passed0)
    {
      hide Bits, Met, FilledBy, AllTaken, Taken, Recorded, PassedOver;
      ghost var mid, p1 := begin + off, passed;
      found, block := Search();
      ghost var next := if found then begin + off - 1 else begin + off;
      MoreTaken(from, mid, next, begin, begin + size, visited, end, before, inUse);
      FilledOnce(begin, begin + size, visited, end, before, inUse);
      RecordedMore(passed0, p1, passed, visited, before, inUse);
      if found {
        NotTaken(next, begin, begin + size, visited, end, before, inUse);
        OthersDiffer(old(given), acked, begin, next);
      }
    }

    /** The window is used up: the next one is filled by the walk of this call. */
    method RefillOn(inUse: seq<nat>, ghost from: nat, ghost end: nat, ghost before: set<nat>,
                    ghost passed0: map<nat, set<nat>>)
      requires Running(from, end, before, inUse, passed0) && off == size < ack - begin
      requires forall i :: 0 <= i < |inUse| ==> inUse[i] < blockCount
      modifies this, buffer
      ensures Running(from, end, before, inUse, passed0) && unchanged(`ack, `acked, `given)
      ensures begin + off == old(begin + off) <= ack && off < size
    {
      hide Bits, Met, FilledBy, AllTaken, Recorded;
      Moved(begin, begin + size, visited, end, before, inUse);
      Refill(inUse);
      Walked(begin, begin + size, visited, end, before, inUse);
    }

    /**
      lfs_alloc, with the blocks that a walk over the file system meets during the call. The block is
      the first one, in the order of the candidates, that was not met: as long as the window lasts by
      the walk that filled it, and behind it by the walk of this call. It has not been handed out since
      that walk or since the last acknowledgement. There is no space only when every block but one has
      been looked at since.
    */
    method Alloc(inUse: seq<nat>) returns (ok: bool, block: nat)
      requires Valid()
      requires forall i :: 0 <= i < |inUse| ==> inUse[i] < blockCount
      modifies this, buffer
      ensures Valid() && unchanged(`ack, `acked)
      ensures ok ==> old(begin + off) < begin + off && !Taken(begin + off - 1, old(begin + size), old(visited), inUse)
      ensures AllTaken(old(begin + off), if ok then begin + off - 1 else begin + off,
                       old(begin + size), old(visited), inUse)
      ensures ok && old(off) == old(size) ==> block !in inUse
      ensures ok ==> block < blockCount && block == (begin + off - 1) % blockCount && block !in visited
      ensures ok ==> forall k: nat :: k in old(given) && (k >= acked || k >= begin) ==> Block(k) != block
      ensures given == if ok then old(given) + {begin + off - 1} else old(given)
      ensures !ok ==> begin + off == acked + blockCount - 1
      ensures visited == old(visited) || visited == Met(inUse)
      ensures Recorded(old(passed), passed, old(visited), inUse)
    {
      hide *;
      ghost var from, end, before, passed0 := begin + off, begin + size, visited, passed;
      Start(inUse);
      while true
        invariant Running(from, end, before, inUse, passed0) && unchanged(`ack, `acked, `given)
        invariant begin + off <= ack == acked + blockCount - 1
        decreases ack - (begin + off), if off == size then 1 else 0
      {
        var found;
        found, block := SearchOn(from, end, before, inUse, passed0);
        if found {
          FreshWalk(end, begin + off - 1, before, inUse);
          return true, block;
        }
        if off == ack - begin {
          return false, 0;
        }
        RefillOn(inUse, from, end, before, passed0);
      }
    }

    /** With no candidate left, every block but one has been handed out or met by a walk since. */
    lemma Exhausted(b: nat)
      requires Valid() && begin + off == acked + blockCount - 1
      requires b < blockCount && b != Block(acked + blockCount - 1)
      ensures exists k: nat :: acked <= k < acked + blockCount - 1 && Block(k) == b
                               && (k in given || (k in passed && b in passed[k]))
    {
      var o := PlaceParts(acked, b, blockCount);
      assert Block(acked + o) == b;
    }
  }
}
