/** The carries behind multiplications, and the sizes of limbs that field operations take and give. */
module FieldCarry {
  import opened Arith
  import opened FieldLimbs

  /** Limbs of even index are at most e in size, the others at most o. */
  ghost predicate Bounded(x: seq<int>, e: int, o: int) {
    |x| == 10 && forall i :: 0 <= i < 10 ==> if i % 2 == 0 then -e <= x[i] <= e else -o <= x[i] <= o
  }

  /** 1.65 * 2^26 and 1.65 * 2^25, the largest limbs that can be multiplied. */
  ghost predicate Factor(x: seq<int>) {
    Bounded(x, 110729625, 55364812)
  }

  /** 1.01 * 2^25 and 1.01 * 2^24, the limbs of a product. */
  ghost predicate Product(x: seq<int>) {
    Bounded(x, 33889976, 16944988)
  }

  /** 1.1 * 2^25 and 1.1 * 2^24, the limbs of what can be added. */
  ghost predicate Summand(x: seq<int>) {
    Bounded(x, 36909875, 18454937)
  }

  /** 1.1 * 2^26 and 1.1 * 2^25, the limbs of a sum. */
  ghost predicate Sum(x: seq<int>) {
    Bounded(x, 73819750, 36909875)
  }

  function Half(i: nat): int {
    if i % 2 == 0 then 0x200_0000 else 0x100_0000
  }

  /** The carry of limb i, rounded to nearest. */
  function Nearest(v: int, i: nat): (c: int)
    ensures -Half(i) <= v - c * Radix(i) < Half(i)
  {
    DivParts(v + Half(i), Radix(i));
    (v + Half(i)) / Radix(i)
  }

  lemma NearestSize(v: int, i: nat, m: int)
    requires -(m * Radix(i)) <= v <= m * Radix(i)
    ensures -m <= Nearest(v, i) <= m
  {}

  ghost predicate Within(v: int, b: int) {
    -b <= v <= b
  }

  function CarryOne(x: seq<int>, i: nat): (y: seq<int>)
    requires i + 1 < |x|
    ensures |y| == |x|
  {
    Carry(x, i, Nearest(x[i], i))
  }

  function CarryTop(x: seq<int>): (y: seq<int>)
    requires |x| == 10
    ensures |y| == 10
  {
    CarryAround(x, Nearest(x[9], 9))
  }

  /** All carries behind a multiplication. */
  function Carried(x: seq<int>): (y: seq<int>)
    requires |x| == 10
    ensures |y| == 10
  {
    var a := CarryOne(CarryOne(CarryOne(CarryOne(x, 0), 4), 1), 5);
    var b := CarryOne(CarryOne(CarryOne(CarryOne(a, 2), 6), 3), 7);
    CarryOne(CarryTop(CarryOne(CarryOne(b, 4), 8)), 0)
  }

  ghost predicate Near(a: int, b: int, m: int) {
    -m <= a - b <= m
  }

  /** One carry, rounded to nearest. */
  method CarryAt(h: array<Int64>, i: nat, ghost m: int)
    requires h.Length == 10 && i < 9 && 0 <= m <= 0x40_0000_0000 && Within(h[i], m * Radix(i))
    requires Within(h[i], 0x5000_0000_0000_0000) && Within(h[i + 1], 0x5000_0000_0000_0000)
    modifies h
    ensures -Half(i) <= h[i] < Half(i) && Near(h[i + 1], old(h[i + 1]), m)
    ensures forall j :: 0 <= j < 10 && j != i && j != i + 1 ==> h[j] == old(h[j])
    ensures h[..] == CarryOne(old(h[..]), i) && Val(h[..]) == Val(old(h[..]))
  {
    ghost var x: seq<int> := h[..];
    NearestSize(x[i], i, m);
    CarryFrom(x, i, Nearest(x[i], i), 0);
    hide Val;
    var sum: Int64 := h[i] + Half(i);
    var carry := sum / Radix(i);
    h[i + 1] := h[i + 1] + carry;
    var back: Int64 := carry * Radix(i);
    h[i] := h[i] - back;
    assert h[..] == Carry(x, i, Nearest(x[i], i));
  }

  /** The carry of the last limb. */
  method CarryLast(h: array<Int64>, ghost m: int) returns (ghost q: int)
    requires h.Length == 10 && 0 <= m <= 0x40_0000_0000 && Within(h[9], m * 0x200_0000)
    requires Within(h[9], 0x5000_0000_0000_0000) && Within(h[0], 0x5000_0000_0000_0000)
    modifies h
    ensures -0x100_0000 <= h[9] < 0x100_0000 && Near(h[0], old(h[0]), 19 * m)
    ensures forall j :: 1 <= j < 9 ==> h[j] == old(h[j])
    ensures h[..] == CarryTop(old(h[..])) && Val(h[..]) == Val(old(h[..])) - PRIME * q
  {
    ghost var x: seq<int> := h[..];
    assert Radix(9) == 0x200_0000 && Half(9) == 0x100_0000;
    NearestSize(x[9], 9, m);
    q := Nearest(x[9], 9);
    CarryAroundVal(x, q);
    hide Val;
    var sum: Int64 := h[9] + 0x100_0000;
    var carry := sum / 0x200_0000;
    var again: Int64 := carry * 19;
    h[0] := h[0] + again;
    var back: Int64 := carry * 0x200_0000;
    h[9] := h[9] - back;
    assert h[..] == CarryAround(x, q);
  }

  /** The twelve carries behind a multiplication. */
  method CarryProduct(h: array<Int64>) returns (ghost q: int)
    requires h.Length == 10 && forall i :: 0 <= i < 10 ==> Within(h[i], 0x4000_0000_0000_0000)
    modifies h
    ensures Product(h[..]) && h[..] == Carried(old(h[..])) && Val(h[..]) == Val(old(h[..])) - PRIME * q
  {
    hide Val, CarryOne, CarryTop;
    CarryAt(h, 0, 0x20_0000_0000);
    CarryAt(h, 4, 0x20_0000_0000);
    CarryAt(h, 1, 0x40_0000_0000);
    CarryAt(h, 5, 0x40_0000_0000);
    CarryAt(h, 2, 0x40_0000_0000);
    CarryAt(h, 6, 0x40_0000_0000);
    CarryAt(h, 3, 0x40_0000_0000);
    CarryAt(h, 7, 0x40_0000_0000);
    CarryAt(h, 4, 0x2000);
    CarryAt(h, 8, 0x40_0000_0000);
    q := CarryLast(h, 0x40_0000_0000);
    CarryAt(h, 0, 0x2_0000);
  }
}
