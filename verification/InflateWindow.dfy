/** The last 32768 bytes of the output in a circular buffer, and the tables of lengths and distances. */
module InflateWindow {
  import opened Arith
  import opened Gf2Poly
  import opened Crc
  import opened InflateSpec

  const WINDOW := 32768

  function Slot(i: nat): nat {
    i % WINDOW
  }

  /** Byte i of the output is in the buffer. */
  ghost predicate Kept(w: seq<Byte>, out: seq<Byte>, i: nat) {
    |w| == WINDOW && i < |out| && w[Slot(i)] == out[i]
  }

  /** The buffer has the last bytes of the output. */
  ghost predicate WindowOk(w: seq<Byte>, size: nat, pos: nat, out: seq<Byte>) {
    && |w| == WINDOW && pos == Slot(|out|)
    && size == (if |out| < WINDOW then |out| else WINDOW)
    && forall i: nat :: |out| - size <= i < |out| ==> Kept(w, out, i)
  }

  lemma SlotsDiffer(i: nat, j: nat)
    requires i < j < i + WINDOW
    ensures Slot(i) != Slot(j)
  {
    DivParts(i, WINDOW); DivParts(j, WINDOW);
  }

  lemma SlotNext(n: nat)
    ensures Slot(n + 1) == if Slot(n) + 1 == WINDOW then 0 else Slot(n) + 1
    ensures n < WINDOW ==> Slot(n) == n
  {
    DivParts(n, WINDOW);
    if Slot(n) + 1 == WINDOW { QuotientIs(n + 1, WINDOW, n / WINDOW + 1, 0); }
    else { QuotientIs(n + 1, WINDOW, n / WINDOW, Slot(n) + 1); }
  }

  /** One more byte. */
  lemma WindowPush(w: seq<Byte>, size: nat, pos: nat, out: seq<Byte>, b: Byte)
    requires WindowOk(w, size, pos, out)
    ensures pos < WINDOW
    ensures WindowOk(w[pos := b], if size < WINDOW then size + 1 else size,
                     if pos + 1 == WINDOW then 0 else pos + 1, out + [b])
  {
    hide Slot;
    SlotNext(|out|);
    SlotBelow(|out|);
    var w', out' := w[pos := b], out + [b];
    var size' := if size < WINDOW then size + 1 else size;
    forall i: nat | |out'| - size' <= i < |out'| ensures Kept(w', out', i) {
      SlotBelow(i);
      if i < |out| {
        assert Kept(w, out, i);
        SlotsDiffer(i, |out|);
      }
    }
  }

  lemma SlotBelow(i: nat)
    ensures Slot(i) < WINDOW
  {}

  /** (lb_pos - dist) & 32767 */
  lemma WindowGet(w: seq<Byte>, size: nat, pos: nat, out: seq<Byte>, dist: nat)
    requires WindowOk(w, size, pos, out) && 0 < dist <= size
    ensures var at := (pos - dist) % WINDOW; at < WINDOW && w[at] == out[|out| - dist]
  {
    assert Kept(w, out, |out| - dist);
    SlotMinus(|out|, dist);
  }

  lemma SlotMinus(n: nat, d: nat)
    requires d <= n
    ensures (Slot(n) - d) % WINDOW == Slot(n - d)
  {
    DivParts(n, WINDOW); DivParts(n - d, WINDOW);
    QuotientIs(Slot(n) - d, WINDOW, (n - d) / WINDOW - n / WINDOW, Slot(n - d));
  }

  /** n bytes that do not run over the end of the buffer. */
  lemma {:induction false} WindowPushAll(w: seq<Byte>, w': seq<Byte>, size: nat, pos: nat, out: seq<Byte>,
                                         bytes: seq<Byte>)
    requires WindowOk(w, size, pos, out) && pos + |bytes| <= WINDOW
    requires w' == w[..pos] + bytes + w[pos + |bytes|..]
    ensures WindowOk(w', if size < WINDOW then size + |bytes| else size, (pos + |bytes|) % WINDOW, out + bytes)
    decreases |bytes|
  {
    hide Slot, Kept;
    SlotBelow(|out|);
    SlotNext(|out|);
    if bytes == [] {
      assert w' == w && out + bytes == out;
    } else {
      var n := |bytes| - 1;
      var front, b := bytes[..n], bytes[n];
      var m := w[..pos] + front + w[pos + n..];
      WindowPushAll(w, m, size, pos, out, front);
      assert m[pos + n := b] == w';
      assert out + front + [b] == out + bytes;
      WindowPush(m, if size < WINDOW then size + n else size, pos + n, out + front, b);
    }
  }

  // ---------- the tables of section 3.2.5 ----------

  const CLP: seq<nat> := [3, 4, 5, 6, 7, 8, 9, 10, 11, 13, 15, 17, 19, 23, 27, 31, 35, 43, 51, 59, 67, 83, 99, 115,
    131, 163, 195, 227, 258]
  const CLB: seq<nat> := [0, 0, 0, 0, 0, 0, 0, 0, 1, 1, 1, 1, 2, 2, 2, 2, 3, 3, 3, 3, 4, 4, 4, 4, 5, 5, 5, 5, 0]
  const DCP: seq<nat> := [1, 2, 3, 4, 5, 7, 9, 13, 17, 25, 33, 49, 65, 97, 129, 193, 257, 385, 513, 769, 1025, 1537,
    2049, 3073, 4097, 6145, 8193, 12289, 16385, 24577]
  const DCB: seq<nat> := [0, 0, 0, 0, 1, 1, 2, 2, 3, 3, 4, 4, 5, 5, 6, 6, 7, 7, 8, 8, 9, 9, 10, 10, 11, 11, 12, 12,
    13, 13]

  lemma LengthTables(i: nat)
    requires i < 29
    ensures CLP[i] == LengthBase(i) && CLB[i] == LengthExtra(i) <= 5
  {
    assert Pow2(0) == 1 && Pow2(1) == 2 && Pow2(2) == 4 && Pow2(3) == 8 && Pow2(4) == 16 && Pow2(5) == 32;
    hide Pow2;
    if i < 16 { LengthLow(i); } else { LengthHigh(i); }
  }

  lemma LengthLow(i: nat)
    requires i < 16 && Pow2(1) == 2 && Pow2(2) == 4
    ensures CLP[i] == LengthBase(i) && CLB[i] == LengthExtra(i) <= 5
  {
    hide Pow2;
  }

  lemma LengthHigh(i: nat)
    requires 16 <= i < 29 && Pow2(3) == 8 && Pow2(4) == 16 && Pow2(5) == 32
    ensures CLP[i] == LengthBase(i) && CLB[i] == LengthExtra(i) <= 5
  {
    hide Pow2;
  }

  lemma DistanceTables(i: nat)
    requires i < 30
    ensures DCP[i] == DistanceBase(i) > 0 && DCB[i] == DistanceExtra(i) <= 13
  {
    SmallDistancePowers();
    hide Pow2;
    if i < 10 { DistanceLow(i); } else if i < 20 { DistanceMiddle(i); } else { DistanceHigh(i); }
  }

  lemma SmallDistancePowers()
    ensures Pow2(1) == 2 && Pow2(2) == 4 && Pow2(3) == 8 && Pow2(4) == 16 && Pow2(5) == 32 && Pow2(6) == 64
    ensures Pow2(7) == 128 && Pow2(8) == 256 && Pow2(9) == 512 && Pow2(10) == 1024 && Pow2(11) == 2048
    ensures Pow2(12) == 4096 && Pow2(13) == 8192
  {}

  lemma DistanceLow(i: nat)
    requires i < 10 && Pow2(1) == 2 && Pow2(2) == 4 && Pow2(3) == 8
    ensures DCP[i] == DistanceBase(i) > 0 && DCB[i] == DistanceExtra(i) <= 13
  {
    hide Pow2;
  }

  lemma DistanceMiddle(i: nat)
    requires 10 <= i < 20 && Pow2(4) == 16 && Pow2(5) == 32 && Pow2(6) == 64 && Pow2(7) == 128 && Pow2(8) == 256
    ensures DCP[i] == DistanceBase(i) > 0 && DCB[i] == DistanceExtra(i) <= 13
  {
    hide Pow2;
  }

  lemma DistanceHigh(i: nat)
    requires 20 <= i < 30 && Pow2(9) == 512 && Pow2(10) == 1024 && Pow2(11) == 2048 && Pow2(12) == 4096
      && Pow2(13) == 8192
    ensures DCP[i] == DistanceBase(i) > 0 && DCB[i] == DistanceExtra(i) <= 13
  {
    hide Pow2;
  }

  lemma LengthRange(h: nat, r: nat)
    requires 1 <= h <= 6 && r < 4
    ensures LengthExtra(4 * h + r) == h - 1
    ensures var p := Pow2(h - 1);
      LengthBase(4 * h + r) == 3 + 4 * p + if r == 0 then 0 else if r == 1 then p else if r == 2 then 2 * p else 3 * p
  {
    assert (4 * h + r) / 4 == h && (4 * h + r) % 4 == r;
    if h == 1 { assert Pow2(0) == 1; }
    hide Pow2;
  }

  lemma RangePowers(h: nat)
    requires h < 15
    ensures Pow2(0) == 1 && Pow2(1) == 2 && (h > 0 ==> Pow2(h) == 2 * Pow2(h - 1))
    ensures h == 6 ==> Pow2(h - 1) == 32
    ensures h == 14 ==> Pow2(h - 1) == 8192
  {
    assert Pow2(5) == 32 && Pow2(13) == 8192;
  }

  lemma FirstRanges()
    ensures LengthBase(0) == 3 && LengthBase(1) == 4 && LengthBase(2) == 5 && LengthBase(3) == 6
    ensures LengthBase(28) == 258
    ensures LengthExtra(0) == LengthExtra(1) == LengthExtra(2) == LengthExtra(3) == LengthExtra(28) == 0
    ensures DistanceBase(0) == 1 && DistanceBase(1) == 2 && DistanceBase(2) == 3 && DistanceBase(3) == 4
    ensures DistanceExtra(0) == DistanceExtra(1) == DistanceExtra(2) == DistanceExtra(3) == 0
  {
    hide Pow2;
  }

  /** The ranges of the length symbols follow each other from 3 to 258, the last of which has a symbol of its own. */
  lemma LengthRanges(i: nat)
    requires i < 28
    ensures LengthBase(0) == 3 && LengthBase(28) == 258 && LengthExtra(28) == 0
    ensures i < 27 ==> LengthBase(i + 1) == LengthBase(i) + Pow2(LengthExtra(i))
    ensures i == 27 ==> LengthBase(i) + Pow2(LengthExtra(i)) == 259
  {
    var h, r := i / 4, i % 4;
    hide LengthBase, LengthExtra, Pow2;
    RangePowers(h);
    FirstRanges();
    if i >= 4 { LengthRange(h, r); }
    if i >= 3 && i < 27 { if r < 3 { LengthRange(h, r + 1); } else { LengthRange(h + 1, 0); } }
  }

  lemma DistanceRange(h: nat, r: nat)
    requires 2 <= h <= 14 && r < 2
    ensures DistanceExtra(2 * h + r) == h - 1
    ensures DistanceBase(2 * h + r) == 1 + 2 * Pow2(h - 1) + if r == 0 then 0 else Pow2(h - 1)
  {
    assert (2 * h + r) / 2 == h && (2 * h + r) % 2 == r;
    hide Pow2;
  }

  /** And those of the distance symbols from 1 to 32768. */
  lemma DistanceRanges(i: nat)
    requires i < 30
    ensures DistanceBase(0) == 1
    ensures i < 29 ==> DistanceBase(i + 1) == DistanceBase(i) + Pow2(DistanceExtra(i))
    ensures i == 29 ==> DistanceBase(i) + Pow2(DistanceExtra(i)) == 32769
  {
    var h, r := i / 2, i % 2;
    hide DistanceBase, DistanceExtra, Pow2;
    RangePowers(h);
    FirstRanges();
    if i >= 4 { DistanceRange(h, r); }
    if i >= 3 && i < 29 { if r < 1 { DistanceRange(h, r + 1); } else { DistanceRange(h + 1, 0); } }
  }
}
