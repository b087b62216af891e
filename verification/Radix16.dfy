/** A scalar in 64 signed digits of base 16. */
module Radix16 {
  import opened Crc
  import opened ByteNumber
  import opened SignedDigits
  import opened Slide

  /** Moving c units of digit i + 1 into it from digit i. */
  lemma {:induction false} MoveFrom(x: seq<int>, i: nat, c: int, j: nat)
    requires i + 1 < |x| && j <= i
    ensures From(x[i := x[i] - 16 * c][i + 1 := x[i + 1] + c], j, 16) == From(x, j, 16)
    decreases i - j
  {
    var y := x[i := x[i] - 16 * c][i + 1 := x[i + 1] + c];
    if j < i {
      MoveFrom(x, i, c, j + 1);
    } else {
      SameFrom(x, y, i + 2, 16);
      assert From(x, i, 16) == x[i] + 16 * (x[i + 1] + 16 * From(x, i + 2, 16));
      assert From(y, i, 16) == y[i] + 16 * (y[i + 1] + 16 * From(y, i + 2, 16));
    }
  }

  ghost predicate Nibbles(a: seq<Byte>, x: seq<int>) {
    |x| == 2 * |a| && forall k: nat :: k < |a| ==> x[2 * k] == a[k] % 16 && x[2 * k + 1] == a[k] / 16 % 16
  }

  lemma {:induction false} NibblesFrom(a: seq<Byte>, x: seq<int>, k: nat)
    requires Nibbles(a, x) && k <= |a|
    ensures From(x, 2 * k, 16) == Le(a[k..])
    decreases |a| - k
  {
    if k < |a| {
      NibblesFrom(a, x, k + 1);
      assert a[k..][1..] == a[k + 1..] && a[k..][0] == a[k];
      var v: nat := a[k];
      assert v == v % 16 + 16 * (v / 16 % 16);
      assert From(x, 2 * k, 16) == x[2 * k] + 16 * (x[2 * k + 1] + 16 * From(x, 2 * k + 2, 16));
    }
  }

  /** Digits before i lie between -8 and 7; with the carry in digit i the number is v. */
  ghost predicate Recoding(e: seq<int>, i: nat, carry: int, v: int) {
    && |e| == 64 && i < 64 && 0 <= carry <= 1
    && (forall k :: 0 <= k < i ==> -8 <= e[k] < 8)
    && (forall k :: i <= k < 64 ==> 0 <= e[k] < 16) && e[63] < 8
    && From(e[i := e[i] + carry], 0, 16) == v
  }

  lemma RecodingStep(e: seq<int>, i: nat, carry: int, v: int, d: int, c: int)
    requires Recoding(e, i, carry, v) && i < 63 && c == (e[i] + carry + 8) / 16 && d == e[i] + carry - 16 * c
    ensures -8 <= d < 8 && 0 <= c <= 1 && Recoding(e[i := d], i + 1, c, v)
  {
    var x := e[i := e[i] + carry];
    MoveFrom(x, i, c, 0);
    assert x[i := x[i] - 16 * c][i + 1 := x[i + 1] + c] == e[i := d][i + 1 := e[i + 1] + c];
  }

  lemma RecodingStart(a: seq<Byte>, e: seq<int>)
    requires |a| == 32 && a[31] <= 127 && Nibbles(a, e)
    ensures Recoding(e, 0, 0, Le(a))
  {
    NibblesFrom(a, e, 0);
    assert a[0..] == a && e[0 := e[0] + 0] == e;
    assert forall k: nat :: k < 64 ==> 0 <= e[k] < 16 by {
      forall k: nat | k < 64 ensures 0 <= e[k] < 16 {
        var m := k / 2;
        assert e[2 * m] == a[m] % 16 && e[2 * m + 1] == a[m] / 16 % 16;
        assert k == 2 * m || k == 2 * m + 1;
      }
    }
    assert e[63] == e[2 * 31 + 1];
  }

  /** The first part of ge_scalarmult_base: each digit between -8 and 8. */
  method Recode16(a: seq<Byte>) returns (e: array<Schar>)
    requires |a| == 32 && a[31] <= 127
    ensures fresh(e) && e.Length == 64 && From(e[..], 0, 16) == Le(a)
    ensures forall k :: 0 <= k < 64 ==> -8 <= e[k] <= 8
  {
    hide Le, From;
    e := new Schar[64](_ => 0);
    var i := 0;
    while i < 32
      invariant i <= 32
      invariant forall k: nat :: k < i ==> e[2 * k] == a[k] % 16 && e[2 * k + 1] == a[k] / 16 % 16
    {
      e[2 * i + 0] := a[i] % 16;
      e[2 * i + 1] := a[i] / 16 % 16;
      i := i + 1;
    }
    RecodingStart(a, e[..]);
    hide Recoding;
    ghost var v := Le(a);
    var carry := 0;
    i := 0;
    while i < 63
      invariant i <= 63 && Recoding(e[..], i, carry, v)
    {
      RecodingRange(e[..], i, carry, v);
      ghost var was: seq<int>, c := e[..], carry;
      e[i] := e[i] + carry;
      carry := e[i] + 8;
      carry := carry / 16;
      RecodingStep(was, i, c, v, was[i] + c - 16 * carry, carry);
      e[i] := e[i] - carry * 16;
      assert e[..] == was[i := was[i] + c - 16 * carry];
      i := i + 1;
    }
    RecodingRange(e[..], 63, carry, v);
    RecodingDone(e[..], carry, v);
    e[63] := e[63] + carry;
  }

  lemma RecodingRange(e: seq<int>, i: nat, carry: int, v: int)
    requires Recoding(e, i, carry, v)
    ensures 0 <= carry <= 1 && |e| == 64 && 0 <= e[i] < 16
  {
    hide From;
  }

  lemma RecodingDone(e: seq<int>, carry: int, v: int)
    requires Recoding(e, 63, carry, v)
    ensures var x := e[63 := e[63] + carry]; From(x, 0, 16) == v && forall k :: 0 <= k < 64 ==> -8 <= x[k] <= 8
  {
    hide From;
  }
}
