/** Multiplication and squaring in the field. */
module FieldMul {
  import opened FieldLimbs

  // ---------- the sums of products ----------

  function Coef(i: nat, j: nat): int {
    (if i % 2 == 1 && j % 2 == 1 then 2 else 1) * (if i + j >= 10 then 19 else 1)
  }

  /** The limb of g that meets limb i of f in limb k. */
  function Partner(k: nat, i: nat): nat
    requires k < 10 && i < 10
  {
    if k >= i then k - i else k + 10 - i
  }

  /** The product of limb i of f that goes into limb k. */
  function Term(f: seq<int>, g: seq<int>, k: nat, i: nat): int
    requires |f| == |g| == 10 && k < 10 && i < 10
  {
    Coef(i, Partner(k, i)) * (f[i] * g[Partner(k, i)])
  }

  /** What the first n limbs of f put into limb k. */
  function Acc(f: seq<int>, g: seq<int>, k: nat, n: nat): int
    requires |f| == |g| == 10 && k < 10 && n <= 10
    decreases n
  {
    if n == 0 then 0 else Acc(f, g, k, n - 1) + Term(f, g, k, n - 1)
  }

  lemma TermIs(f: seq<int>, g: seq<int>, k: nat, i: nat, j: nat, c: int)
    requires |f| == |g| == 10 && k < 10 && i < 10 && j == Partner(k, i) && c == Coef(i, j)
    ensures Term(f, g, k, i) == c * (f[i] * g[j])
  {}

  lemma Twice(a: int, b: int)
    ensures (2 * a) * b == 2 * (a * b) && a * (19 * b) == 19 * (a * b) && (2 * a) * (19 * b) == 38 * (a * b)
  {}

  function Limb0(f: seq<int>, g: seq<int>): int
    requires |f| == |g| == 10
  {
    f[0] * g[0] + (2 * f[1]) * (19 * g[9]) + f[2] * (19 * g[8]) + (2 * f[3]) * (19 * g[7]) + f[4] * (19 * g[6])
      + (2 * f[5]) * (19 * g[5]) + f[6] * (19 * g[4]) + (2 * f[7]) * (19 * g[3]) + f[8] * (19 * g[2])
      + (2 * f[9]) * (19 * g[1])
  }

  lemma Limb0Is(f: seq<int>, g: seq<int>)
    requires |f| == |g| == 10
    ensures Limb0(f, g) == Acc(f, g, 0, 10)
  {
    TermIs(f, g, 0, 0, 0, 1); Twice(f[0], g[0]);
    TermIs(f, g, 0, 1, 9, 38); Twice(f[1], g[9]);
    TermIs(f, g, 0, 2, 8, 19); Twice(f[2], g[8]);
    TermIs(f, g, 0, 3, 7, 38); Twice(f[3], g[7]);
    TermIs(f, g, 0, 4, 6, 19); Twice(f[4], g[6]);
    TermIs(f, g, 0, 5, 5, 38); Twice(f[5], g[5]);
    TermIs(f, g, 0, 6, 4, 19); Twice(f[6], g[4]);
    TermIs(f, g, 0, 7, 3, 38); Twice(f[7], g[3]);
    TermIs(f, g, 0, 8, 2, 19); Twice(f[8], g[2]);
    TermIs(f, g, 0, 9, 1, 38); Twice(f[9], g[1]);
    hide Term;
  }

  function Limb1(f: seq<int>, g: seq<int>): int
    requires |f| == |g| == 10
  {
    f[0] * g[1] + f[1] * g[0] + f[2] * (19 * g[9]) + f[3] * (19 * g[8]) + f[4] * (19 * g[7]) + f[5] * (19 * g[6])
      + f[6] * (19 * g[5]) + f[7] * (19 * g[4]) + f[8] * (19 * g[3]) + f[9] * (19 * g[2])
  }

  lemma Limb1Is(f: seq<int>, g: seq<int>)
    requires |f| == |g| == 10
    ensures Limb1(f, g) == Acc(f, g, 1, 10)
  {
    TermIs(f, g, 1, 0, 1, 1); Twice(f[0], g[1]);
    TermIs(f, g, 1, 1, 0, 1); Twice(f[1], g[0]);
    TermIs(f, g, 1, 2, 9, 19); Twice(f[2], g[9]);
    TermIs(f, g, 1, 3, 8, 19); Twice(f[3], g[8]);
    TermIs(f, g, 1, 4, 7, 19); Twice(f[4], g[7]);
    TermIs(f, g, 1, 5, 6, 19); Twice(f[5], g[6]);
    TermIs(f, g, 1, 6, 5, 19); Twice(f[6], g[5]);
    TermIs(f, g, 1, 7, 4, 19); Twice(f[7], g[4]);
    TermIs(f, g, 1, 8, 3, 19); Twice(f[8], g[3]);
    TermIs(f, g, 1, 9, 2, 19); Twice(f[9], g[2]);
    hide Term;
  }

  function Limb2(f: seq<int>, g: seq<int>): int
    requires |f| == |g| == 10
  {
    f[0] * g[2] + (2 * f[1]) * g[1] + f[2] * g[0] + (2 * f[3]) * (19 * g[9]) + f[4] * (19 * g[8])
      + (2 * f[5]) * (19 * g[7]) + f[6] * (19 * g[6]) + (2 * f[7]) * (19 * g[5]) + f[8] * (19 * g[4])
      + (2 * f[9]) * (19 * g[3])
  }

  lemma Limb2Is(f: seq<int>, g: seq<int>)
    requires |f| == |g| == 10
    ensures Limb2(f, g) == Acc(f, g, 2, 10)
  {
    TermIs(f, g, 2, 0, 2, 1); Twice(f[0], g[2]);
    TermIs(f, g, 2, 1, 1, 2); Twice(f[1], g[1]);
    TermIs(f, g, 2, 2, 0, 1); Twice(f[2], g[0]);
    TermIs(f, g, 2, 3, 9, 38); Twice(f[3], g[9]);
    TermIs(f, g, 2, 4, 8, 19); Twice(f[4], g[8]);
    TermIs(f, g, 2, 5, 7, 38); Twice(f[5], g[7]);
    TermIs(f, g, 2, 6, 6, 19); Twice(f[6], g[6]);
    TermIs(f, g, 2, 7, 5, 38); Twice(f[7], g[5]);
    TermIs(f, g, 2, 8, 4, 19); Twice(f[8], g[4]);
    TermIs(f, g, 2, 9, 3, 38); Twice(f[9], g[3]);
    hide Term;
  }

  function Limb3(f: seq<int>, g: seq<int>): int
    requires |f| == |g| == 10
  {
    f[0] * g[3] + f[1] * g[2] + f[2] * g[1] + f[3] * g[0] + f[4] * (19 * g[9]) + f[5] * (19 * g[8])
      + f[6] * (19 * g[7]) + f[7] * (19 * g[6]) + f[8] * (19 * g[5]) + f[9] * (19 * g[4])
  }

  lemma Limb3Is(f: seq<int>, g: seq<int>)
    requires |f| == |g| == 10
    ensures Limb3(f, g) == Acc(f, g, 3, 10)
  {
    TermIs(f, g, 3, 0, 3, 1); Twice(f[0], g[3]);
    TermIs(f, g, 3, 1, 2, 1); Twice(f[1], g[2]);
    TermIs(f, g, 3, 2, 1, 1); Twice(f[2], g[1]);
    TermIs(f, g, 3, 3, 0, 1); Twice(f[3], g[0]);
    TermIs(f, g, 3, 4, 9, 19); Twice(f[4], g[9]);
    TermIs(f, g, 3, 5, 8, 19); Twice(f[5], g[8]);
    TermIs(f, g, 3, 6, 7, 19); Twice(f[6], g[7]);
    TermIs(f, g, 3, 7, 6, 19); Twice(f[7], g[6]);
    TermIs(f, g, 3, 8, 5, 19); Twice(f[8], g[5]);
    TermIs(f, g, 3, 9, 4, 19); Twice(f[9], g[4]);
    hide Term;
  }

  function Limb4(f: seq<int>, g: seq<int>): int
    requires |f| == |g| == 10
  {
    f[0] * g[4] + (2 * f[1]) * g[3] + f[2] * g[2] + (2 * f[3]) * g[1] + f[4] * g[0] + (2 * f[5]) * (19 * g[9])
      + f[6] * (19 * g[8]) + (2 * f[7]) * (19 * g[7]) + f[8] * (19 * g[6]) + (2 * f[9]) * (19 * g[5])
  }

  lemma Limb4Is(f: seq<int>, g: seq<int>)
    requires |f| == |g| == 10
    ensures Limb4(f, g) == Acc(f, g, 4, 10)
  {
    TermIs(f, g, 4, 0, 4, 1); Twice(f[0], g[4]);
    TermIs(f, g, 4, 1, 3, 2); Twice(f[1], g[3]);
    TermIs(f, g, 4, 2, 2, 1); Twice(f[2], g[2]);
    TermIs(f, g, 4, 3, 1, 2); Twice(f[3], g[1]);
    TermIs(f, g, 4, 4, 0, 1); Twice(f[4], g[0]);
    TermIs(f, g, 4, 5, 9, 38); Twice(f[5], g[9]);
    TermIs(f, g, 4, 6, 8, 19); Twice(f[6], g[8]);
    TermIs(f, g, 4, 7, 7, 38); Twice(f[7], g[7]);
    TermIs(f, g, 4, 8, 6, 19); Twice(f[8], g[6]);
    TermIs(f, g, 4, 9, 5, 38); Twice(f[9], g[5]);
    hide Term;
  }

  function Limb5(f: seq<int>, g: seq<int>): int
    requires |f| == |g| == 10
  {
    f[0] * g[5] + f[1] * g[4] + f[2] * g[3] + f[3] * g[2] + f[4] * g[1] + f[5] * g[0] + f[6] * (19 * g[9])
      + f[7] * (19 * g[8]) + f[8] * (19 * g[7]) + f[9] * (19 * g[6])
  }

  lemma Limb5Is(f: seq<int>, g: seq<int>)
    requires |f| == |g| == 10
    ensures Limb5(f, g) == Acc(f, g, 5, 10)
  {
    TermIs(f, g, 5, 0, 5, 1); Twice(f[0], g[5]);
    TermIs(f, g, 5, 1, 4, 1); Twice(f[1], g[4]);
    TermIs(f, g, 5, 2, 3, 1); Twice(f[2], g[3]);
    TermIs(f, g, 5, 3, 2, 1); Twice(f[3], g[2]);
    TermIs(f, g, 5, 4, 1, 1); Twice(f[4], g[1]);
    TermIs(f, g, 5, 5, 0, 1); Twice(f[5], g[0]);
    TermIs(f, g, 5, 6, 9, 19); Twice(f[6], g[9]);
    TermIs(f, g, 5, 7, 8, 19); Twice(f[7], g[8]);
    TermIs(f, g, 5, 8, 7, 19); Twice(f[8], g[7]);
    TermIs(f, g, 5, 9, 6, 19); Twice(f[9], g[6]);
    hide Term;
  }

  function Limb6(f: seq<int>, g: seq<int>): int
    requires |f| == |g| == 10
  {
    f[0] * g[6] + (2 * f[1]) * g[5] + f[2] * g[4] + (2 * f[3]) * g[3] + f[4] * g[2] + (2 * f[5]) * g[1] + f[6] * g[0]
      + (2 * f[7]) * (19 * g[9]) + f[8] * (19 * g[8]) + (2 * f[9]) * (19 * g[7])
  }

  lemma Limb6Is(f: seq<int>, g: seq<int>)
    requires |f| == |g| == 10
    ensures Limb6(f, g) == Acc(f, g, 6, 10)
  {
    TermIs(f, g, 6, 0, 6, 1); Twice(f[0], g[6]);
    TermIs(f, g, 6, 1, 5, 2); Twice(f[1], g[5]);
    TermIs(f, g, 6, 2, 4, 1); Twice(f[2], g[4]);
    TermIs(f, g, 6, 3, 3, 2); Twice(f[3], g[3]);
    TermIs(f, g, 6, 4, 2, 1); Twice(f[4], g[2]);
    TermIs(f, g, 6, 5, 1, 2); Twice(f[5], g[1]);
    TermIs(f, g, 6, 6, 0, 1); Twice(f[6], g[0]);
    TermIs(f, g, 6, 7, 9, 38); Twice(f[7], g[9]);
    TermIs(f, g, 6, 8, 8, 19); Twice(f[8], g[8]);
    TermIs(f, g, 6, 9, 7, 38); Twice(f[9], g[7]);
    hide Term;
  }

  function Limb7(f: seq<int>, g: seq<int>): int
    requires |f| == |g| == 10
  {
    f[0] * g[7] + f[1] * g[6] + f[2] * g[5] + f[3] * g[4] + f[4] * g[3] + f[5] * g[2] + f[6] * g[1] + f[7] * g[0]
      + f[8] * (19 * g[9]) + f[9] * (19 * g[8])
  }

  lemma Limb7Is(f: seq<int>, g: seq<int>)
    requires |f| == |g| == 10
    ensures Limb7(f, g) == Acc(f, g, 7, 10)
  {
    TermIs(f, g, 7, 0, 7, 1); Twice(f[0], g[7]);
    TermIs(f, g, 7, 1, 6, 1); Twice(f[1], g[6]);
    TermIs(f, g, 7, 2, 5, 1); Twice(f[2], g[5]);
    TermIs(f, g, 7, 3, 4, 1); Twice(f[3], g[4]);
    TermIs(f, g, 7, 4, 3, 1); Twice(f[4], g[3]);
    TermIs(f, g, 7, 5, 2, 1); Twice(f[5], g[2]);
    TermIs(f, g, 7, 6, 1, 1); Twice(f[6], g[1]);
    TermIs(f, g, 7, 7, 0, 1); Twice(f[7], g[0]);
    TermIs(f, g, 7, 8, 9, 19); Twice(f[8], g[9]);
    TermIs(f, g, 7, 9, 8, 19); Twice(f[9], g[8]);
    hide Term;
  }

  function Limb8(f: seq<int>, g: seq<int>): int
    requires |f| == |g| == 10
  {
    f[0] * g[8] + (2 * f[1]) * g[7] + f[2] * g[6] + (2 * f[3]) * g[5] + f[4] * g[4] + (2 * f[5]) * g[3] + f[6] * g[2]
      + (2 * f[7]) * g[1] + f[8] * g[0] + (2 * f[9]) * (19 * g[9])
  }

  lemma Limb8Is(f: seq<int>, g: seq<int>)
    requires |f| == |g| == 10
    ensures Limb8(f, g) == Acc(f, g, 8, 10)
  {
    TermIs(f, g, 8, 0, 8, 1); Twice(f[0], g[8]);
    TermIs(f, g, 8, 1, 7, 2); Twice(f[1], g[7]);
    TermIs(f, g, 8, 2, 6, 1); Twice(f[2], g[6]);
    TermIs(f, g, 8, 3, 5, 2); Twice(f[3], g[5]);
    TermIs(f, g, 8, 4, 4, 1); Twice(f[4], g[4]);
    TermIs(f, g, 8, 5, 3, 2); Twice(f[5], g[3]);
    TermIs(f, g, 8, 6, 2, 1); Twice(f[6], g[2]);
    TermIs(f, g, 8, 7, 1, 2); Twice(f[7], g[1]);
    TermIs(f, g, 8, 8, 0, 1); Twice(f[8], g[0]);
    TermIs(f, g, 8, 9, 9, 38); Twice(f[9], g[9]);
    hide Term;
  }

  function Limb9(f: seq<int>, g: seq<int>): int
    requires |f| == |g| == 10
  {
    f[0] * g[9] + f[1] * g[8] + f[2] * g[7] + f[3] * g[6] + f[4] * g[5] + f[5] * g[4] + f[6] * g[3] + f[7] * g[2]
      + f[8] * g[1] + f[9] * g[0]
  }

  lemma Limb9Is(f: seq<int>, g: seq<int>)
    requires |f| == |g| == 10
    ensures Limb9(f, g) == Acc(f, g, 9, 10)
  {
    TermIs(f, g, 9, 0, 9, 1); Twice(f[0], g[9]);
    TermIs(f, g, 9, 1, 8, 1); Twice(f[1], g[8]);
    TermIs(f, g, 9, 2, 7, 1); Twice(f[2], g[7]);
    TermIs(f, g, 9, 3, 6, 1); Twice(f[3], g[6]);
    TermIs(f, g, 9, 4, 5, 1); Twice(f[4], g[5]);
    TermIs(f, g, 9, 5, 4, 1); Twice(f[5], g[4]);
    TermIs(f, g, 9, 6, 3, 1); Twice(f[6], g[3]);
    TermIs(f, g, 9, 7, 2, 1); Twice(f[7], g[2]);
    TermIs(f, g, 9, 8, 1, 1); Twice(f[8], g[1]);
    TermIs(f, g, 9, 9, 0, 1); Twice(f[9], g[0]);
    hide Term;
  }

  // ---------- the value of a product ----------

  /** A row: p moved up by i limbs, and around. */
  function Rotated(p: seq<int>, i: nat): (r: seq<int>)
    requires |p| == 10 && i < 10
    ensures |r| == 10 && forall k :: 0 <= k < 10 ==> r[k] == Coef(i, Partner(k, i)) * p[Partner(k, i)]
  {
    seq(10, k requires 0 <= k < 10 => Coef(i, Partner(k, i)) * p[Partner(k, i)])
  }

  /** The weight of limb i. */
  function Weight(i: nat): (w: nat)
    requires i < 10
    ensures w > 0
  {
    if i == 0 then 0x1 else
    if i == 1 then 0x400_0000 else
    if i == 2 then 0x8_0000_0000_0000 else
    if i == 3 then 0x2000_0000_0000_0000_0000 else
    if i == 4 then 0x40_0000_0000_0000_0000_0000_0000 else
    if i == 5 then 0x1_0000_0000_0000_0000_0000_0000_0000_0000 else
    if i == 6 then 0x200_0000_0000_0000_0000_0000_0000_0000_0000_0000 else
    if i == 7 then 0x8_0000_0000_0000_0000_0000_0000_0000_0000_0000_0000_0000 else
    if i == 8 then 0x1000_0000_0000_0000_0000_0000_0000_0000_0000_0000_0000_0000_0000 else
    0x40_0000_0000_0000_0000_0000_0000_0000_0000_0000_0000_0000_0000_0000_0000
  }

  lemma Row0(p: seq<int>) returns (q: int)
    requires |p| == 10
    ensures Val(Rotated(p, 0)) == 0x1 * Val(p) - PRIME * q
  {
    var r := Rotated(p, 0);
    Entries0(p);
    hide Val, Rotated;
    ValTen(p);
    ValTen(r);
    q := 0;
  }

  lemma Entries0(p: seq<int>)
    requires |p| == 10
    ensures var r := Rotated(p, 0);
      r[0] == p[0] && r[1] == p[1] && r[2] == p[2] && r[3] == p[3] && r[4] == p[4]
      && r[5] == p[5] && r[6] == p[6] && r[7] == p[7] && r[8] == p[8] && r[9] == p[9]
  {}

  lemma Row1(p: seq<int>) returns (q: int)
    requires |p| == 10
    ensures Val(Rotated(p, 1)) == 0x400_0000 * Val(p) - PRIME * q
  {
    var r := Rotated(p, 1);
    Entries1(p);
    hide Val, Rotated;
    ValTen(p);
    ValTen(r);
    q := 0x2 * p[9];
  }

  lemma Entries1(p: seq<int>)
    requires |p| == 10
    ensures var r := Rotated(p, 1);
      r[0] == 38 * p[9] && r[1] == p[0] && r[2] == 2 * p[1] && r[3] == p[2] && r[4] == 2 * p[3]
      && r[5] == p[4] && r[6] == 2 * p[5] && r[7] == p[6] && r[8] == 2 * p[7] && r[9] == p[8]
  {}

  lemma Row2(p: seq<int>) returns (q: int)
    requires |p| == 10
    ensures Val(Rotated(p, 2)) == 0x8_0000_0000_0000 * Val(p) - PRIME * q
  {
    var r := Rotated(p, 2);
    Entries2(p);
    hide Val, Rotated;
    ValTen(p);
    ValTen(r);
    q := 0x1 * p[8] + 0x400_0000 * p[9];
  }

  lemma Entries2(p: seq<int>)
    requires |p| == 10
    ensures var r := Rotated(p, 2);
      r[0] == 19 * p[8] && r[1] == 19 * p[9] && r[2] == p[0] && r[3] == p[1] && r[4] == p[2]
      && r[5] == p[3] && r[6] == p[4] && r[7] == p[5] && r[8] == p[6] && r[9] == p[7]
  {}

  lemma Row3(p: seq<int>) returns (q: int)
    requires |p| == 10
    ensures Val(Rotated(p, 3)) == 0x2000_0000_0000_0000_0000 * Val(p) - PRIME * q
  {
    var r := Rotated(p, 3);
    Entries3(p);
    hide Val, Rotated;
    ValTen(p);
    ValTen(r);
    q := 0x2 * p[7] + 0x400_0000 * p[8] + 0x10_0000_0000_0000 * p[9];
  }

  lemma Entries3(p: seq<int>)
    requires |p| == 10
    ensures var r := Rotated(p, 3);
      r[0] == 38 * p[7] && r[1] == 19 * p[8] && r[2] == 38 * p[9] && r[3] == p[0] && r[4] == 2 * p[1]
      && r[5] == p[2] && r[6] == 2 * p[3] && r[7] == p[4] && r[8] == 2 * p[5] && r[9] == p[6]
  {}

  lemma Row4(p: seq<int>) returns (q: int)
    requires |p| == 10
    ensures Val(Rotated(p, 4)) == 0x40_0000_0000_0000_0000_0000_0000 * Val(p) - PRIME * q
  {
    var r := Rotated(p, 4);
    Entries4(p);
    hide Val, Rotated;
    ValTen(p);
    ValTen(r);
    q := 0x1 * p[6] + 0x400_0000 * p[7] + 0x8_0000_0000_0000 * p[8] + 0x2000_0000_0000_0000_0000 * p[9];
  }

  lemma Entries4(p: seq<int>)
    requires |p| == 10
    ensures var r := Rotated(p, 4);
      r[0] == 19 * p[6] && r[1] == 19 * p[7] && r[2] == 19 * p[8] && r[3] == 19 * p[9] && r[4] == p[0]
      && r[5] == p[1] && r[6] == p[2] && r[7] == p[3] && r[8] == p[4] && r[9] == p[5]
  {}

  lemma Row5(p: seq<int>) returns (q: int)
    requires |p| == 10
    ensures Val(Rotated(p, 5)) == 0x1_0000_0000_0000_0000_0000_0000_0000_0000 * Val(p) - PRIME * q
  {
    var r := Rotated(p, 5);
    Entries5(p);
    hide Val, Rotated;
    ValTen(p);
    ValTen(r);
    q := 0x2 * p[5] + 0x400_0000 * p[6] + 0x10_0000_0000_0000 * p[7] + 0x2000_0000_0000_0000_0000 * p[8]
      + 0x80_0000_0000_0000_0000_0000_0000 * p[9];
  }

  lemma Entries5(p: seq<int>)
    requires |p| == 10
    ensures var r := Rotated(p, 5);
      r[0] == 38 * p[5] && r[1] == 19 * p[6] && r[2] == 38 * p[7] && r[3] == 19 * p[8] && r[4] == 38 * p[9]
      && r[5] == p[0] && r[6] == 2 * p[1] && r[7] == p[2] && r[8] == 2 * p[3] && r[9] == p[4]
  {}

  lemma Row6(p: seq<int>) returns (q: int)
    requires |p| == 10
    ensures Val(Rotated(p, 6)) == 0x200_0000_0000_0000_0000_0000_0000_0000_0000_0000 * Val(p) - PRIME * q
  {
    var r := Rotated(p, 6);
    Entries6(p);
    hide Val, Rotated;
    ValTen(p);
    ValTen(r);
    q := 0x1 * p[4] + 0x400_0000 * p[5] + 0x8_0000_0000_0000 * p[6] + 0x2000_0000_0000_0000_0000 * p[7]
      + 0x40_0000_0000_0000_0000_0000_0000 * p[8] + 0x1_0000_0000_0000_0000_0000_0000_0000_0000 * p[9];
  }

  lemma Entries6(p: seq<int>)
    requires |p| == 10
    ensures var r := Rotated(p, 6);
      r[0] == 19 * p[4] && r[1] == 19 * p[5] && r[2] == 19 * p[6] && r[3] == 19 * p[7] && r[4] == 19 * p[8]
      && r[5] == 19 * p[9] && r[6] == p[0] && r[7] == p[1] && r[8] == p[2] && r[9] == p[3]
  {}

  lemma Row7(p: seq<int>) returns (q: int)
    requires |p| == 10
    ensures Val(Rotated(p, 7)) == 0x8_0000_0000_0000_0000_0000_0000_0000_0000_0000_0000_0000 * Val(p) - PRIME * q
  {
    var r := Rotated(p, 7);
    Entries7(p);
    hide Val, Rotated;
    ValTen(p);
    ValTen(r);
    q := 0x2 * p[3] + 0x400_0000 * p[4] + 0x10_0000_0000_0000 * p[5] + 0x2000_0000_0000_0000_0000 * p[6]
      + 0x80_0000_0000_0000_0000_0000_0000 * p[7] + 0x1_0000_0000_0000_0000_0000_0000_0000_0000 * p[8]
      + 0x400_0000_0000_0000_0000_0000_0000_0000_0000_0000 * p[9];
  }

  lemma Entries7(p: seq<int>)
    requires |p| == 10
    ensures var r := Rotated(p, 7);
      r[0] == 38 * p[3] && r[1] == 19 * p[4] && r[2] == 38 * p[5] && r[3] == 19 * p[6] && r[4] == 38 * p[7]
      && r[5] == 19 * p[8] && r[6] == 38 * p[9] && r[7] == p[0] && r[8] == 2 * p[1] && r[9] == p[2]
  {}

  lemma Row8(p: seq<int>) returns (q: int)
    requires |p| == 10
    ensures Val(Rotated(p, 8)) == 0x1000_0000_0000_0000_0000_0000_0000_0000_0000_0000_0000_0000_0000 * Val(p)
      - PRIME * q
  {
    var r := Rotated(p, 8);
    Entries8(p);
    hide Val, Rotated;
    ValTen(p);
    ValTen(r);
    q := 0x1 * p[2] + 0x400_0000 * p[3] + 0x8_0000_0000_0000 * p[4] + 0x2000_0000_0000_0000_0000 * p[5]
      + 0x40_0000_0000_0000_0000_0000_0000 * p[6] + 0x1_0000_0000_0000_0000_0000_0000_0000_0000 * p[7]
      + 0x200_0000_0000_0000_0000_0000_0000_0000_0000_0000 * p[8]
      + 0x8_0000_0000_0000_0000_0000_0000_0000_0000_0000_0000_0000 * p[9];
  }

  lemma Entries8(p: seq<int>)
    requires |p| == 10
    ensures var r := Rotated(p, 8);
      r[0] == 19 * p[2] && r[1] == 19 * p[3] && r[2] == 19 * p[4] && r[3] == 19 * p[5] && r[4] == 19 * p[6]
      && r[5] == 19 * p[7] && r[6] == 19 * p[8] && r[7] == 19 * p[9] && r[8] == p[0] && r[9] == p[1]
  {}

  lemma Row9(p: seq<int>) returns (q: int)
    requires |p| == 10
    ensures Val(Rotated(p, 9)) == 0x40_0000_0000_0000_0000_0000_0000_0000_0000_0000_0000_0000_0000_0000_0000 * Val(p)
      - PRIME * q
  {
    var r := Rotated(p, 9);
    Entries9(p);
    hide Val, Rotated;
    ValTen(p);
    ValTen(r);
    q := 0x2 * p[1] + 0x400_0000 * p[2] + 0x10_0000_0000_0000 * p[3] + 0x2000_0000_0000_0000_0000 * p[4]
      + 0x80_0000_0000_0000_0000_0000_0000 * p[5] + 0x1_0000_0000_0000_0000_0000_0000_0000_0000 * p[6]
      + 0x400_0000_0000_0000_0000_0000_0000_0000_0000_0000 * p[7]
      + 0x8_0000_0000_0000_0000_0000_0000_0000_0000_0000_0000_0000 * p[8]
      + 0x2000_0000_0000_0000_0000_0000_0000_0000_0000_0000_0000_0000_0000 * p[9];
  }

  lemma Entries9(p: seq<int>)
    requires |p| == 10
    ensures var r := Rotated(p, 9);
      r[0] == 38 * p[1] && r[1] == 19 * p[2] && r[2] == 38 * p[3] && r[3] == 19 * p[4] && r[4] == 38 * p[5]
      && r[5] == 19 * p[6] && r[6] == 38 * p[7] && r[7] == 19 * p[8] && r[8] == 38 * p[9] && r[9] == p[0]
  {}

  lemma Row(p: seq<int>, i: nat) returns (q: int)
    requires |p| == 10 && i < 10
    ensures Val(Rotated(p, i)) == Weight(i) * Val(p) - PRIME * q
  {
    hide Val, Rotated;
    if i == 0 { q := Row0(p); } else if i == 1 { q := Row1(p); } else if i == 2 { q := Row2(p); }
    else if i == 3 { q := Row3(p); } else if i == 4 { q := Row4(p); } else if i == 5 { q := Row5(p); }
    else if i == 6 { q := Row6(p); } else if i == 7 { q := Row7(p); } else if i == 8 { q := Row8(p); }
    else { q := Row9(p); }
  }
}
