/** The limbs of a square, and of twice a square. */
module FieldSquare {
  import opened FieldMul

  lemma Factors(c: int, a: int, d: int, b: int)
    ensures (c * a) * (d * b) == (c * d) * (a * b) && (c * a) * b == c * (a * b) && a * (d * b) == d * (a * b)
      && a * b == b * a
  {}

  function Square0(f: seq<int>): int
    requires |f| == 10
  {
    f[0] * f[0] + (2 * f[1]) * (38 * f[9]) + (2 * f[2]) * (19 * f[8]) + (2 * f[3]) * (38 * f[7])
      + (2 * f[4]) * (19 * f[6]) + f[5] * (38 * f[5])
  }

  /** The sum of squares and double products is that of the products. */
  lemma Square0Is(f: seq<int>)
    requires |f| == 10
    ensures Square0(f) == Acc(f, f, 0, 10)
  {
    Factors(1, f[0], 1, f[0]);
    Factors(2, f[1], 38, f[9]);
    Factors(2, f[2], 19, f[8]);
    Factors(2, f[3], 38, f[7]);
    Factors(2, f[4], 19, f[6]);
    Factors(1, f[5], 38, f[5]);
    TermIs(f, f, 0, 0, 0, 1);
    TermIs(f, f, 0, 1, 9, 38);
    TermIs(f, f, 0, 2, 8, 19);
    TermIs(f, f, 0, 3, 7, 38);
    TermIs(f, f, 0, 4, 6, 19);
    TermIs(f, f, 0, 5, 5, 38);
    TermIs(f, f, 0, 6, 4, 19);
    TermIs(f, f, 0, 7, 3, 38);
    TermIs(f, f, 0, 8, 2, 19);
    TermIs(f, f, 0, 9, 1, 38);
    hide Term;
  }

  function Square1(f: seq<int>): int
    requires |f| == 10
  {
    (2 * f[0]) * f[1] + f[2] * (38 * f[9]) + (2 * f[3]) * (19 * f[8]) + f[4] * (38 * f[7]) + (2 * f[5]) * (19 * f[6])
  }

  /** The sum of squares and double products is that of the products. */
  lemma Square1Is(f: seq<int>)
    requires |f| == 10
    ensures Square1(f) == Acc(f, f, 1, 10)
  {
    Factors(2, f[0], 1, f[1]);
    Factors(1, f[2], 38, f[9]);
    Factors(2, f[3], 19, f[8]);
    Factors(1, f[4], 38, f[7]);
    Factors(2, f[5], 19, f[6]);
    TermIs(f, f, 1, 0, 1, 1);
    TermIs(f, f, 1, 1, 0, 1);
    TermIs(f, f, 1, 2, 9, 19);
    TermIs(f, f, 1, 3, 8, 19);
    TermIs(f, f, 1, 4, 7, 19);
    TermIs(f, f, 1, 5, 6, 19);
    TermIs(f, f, 1, 6, 5, 19);
    TermIs(f, f, 1, 7, 4, 19);
    TermIs(f, f, 1, 8, 3, 19);
    TermIs(f, f, 1, 9, 2, 19);
    hide Term;
  }

  function Square2(f: seq<int>): int
    requires |f| == 10
  {
    (2 * f[0]) * f[2] + (2 * f[1]) * f[1] + (2 * f[3]) * (38 * f[9]) + (2 * f[4]) * (19 * f[8])
      + (2 * f[5]) * (38 * f[7]) + f[6] * (19 * f[6])
  }

  /** The sum of squares and double products is that of the products. */
  lemma Square2Is(f: seq<int>)
    requires |f| == 10
    ensures Square2(f) == Acc(f, f, 2, 10)
  {
    Factors(2, f[0], 1, f[2]);
    Factors(2, f[1], 1, f[1]);
    Factors(2, f[3], 38, f[9]);
    Factors(2, f[4], 19, f[8]);
    Factors(2, f[5], 38, f[7]);
    Factors(1, f[6], 19, f[6]);
    TermIs(f, f, 2, 0, 2, 1);
    TermIs(f, f, 2, 1, 1, 2);
    TermIs(f, f, 2, 2, 0, 1);
    TermIs(f, f, 2, 3, 9, 38);
    TermIs(f, f, 2, 4, 8, 19);
    TermIs(f, f, 2, 5, 7, 38);
    TermIs(f, f, 2, 6, 6, 19);
    TermIs(f, f, 2, 7, 5, 38);
    TermIs(f, f, 2, 8, 4, 19);
    TermIs(f, f, 2, 9, 3, 38);
    hide Term;
  }

  function Square3(f: seq<int>): int
    requires |f| == 10
  {
    (2 * f[0]) * f[3] + (2 * f[1]) * f[2] + f[4] * (38 * f[9]) + (2 * f[5]) * (19 * f[8]) + f[6] * (38 * f[7])
  }

  /** The sum of squares and double products is that of the products. */
  lemma Square3Is(f: seq<int>)
    requires |f| == 10
    ensures Square3(f) == Acc(f, f, 3, 10)
  {
    Factors(2, f[0], 1, f[3]);
    Factors(2, f[1], 1, f[2]);
    Factors(1, f[4], 38, f[9]);
    Factors(2, f[5], 19, f[8]);
    Factors(1, f[6], 38, f[7]);
    TermIs(f, f, 3, 0, 3, 1);
    TermIs(f, f, 3, 1, 2, 1);
    TermIs(f, f, 3, 2, 1, 1);
    TermIs(f, f, 3, 3, 0, 1);
    TermIs(f, f, 3, 4, 9, 19);
    TermIs(f, f, 3, 5, 8, 19);
    TermIs(f, f, 3, 6, 7, 19);
    TermIs(f, f, 3, 7, 6, 19);
    TermIs(f, f, 3, 8, 5, 19);
    TermIs(f, f, 3, 9, 4, 19);
    hide Term;
  }

  function Square4(f: seq<int>): int
    requires |f| == 10
  {
    (2 * f[0]) * f[4] + (2 * f[1]) * (2 * f[3]) + f[2] * f[2] + (2 * f[5]) * (38 * f[9]) + (2 * f[6]) * (19 * f[8])
      + f[7] * (38 * f[7])
  }

  /** The sum of squares and double products is that of the products. */
  lemma Square4Is(f: seq<int>)
    requires |f| == 10
    ensures Square4(f) == Acc(f, f, 4, 10)
  {
    Factors(2, f[0], 1, f[4]);
    Factors(2, f[1], 2, f[3]);
    Factors(1, f[2], 1, f[2]);
    Factors(2, f[5], 38, f[9]);
    Factors(2, f[6], 19, f[8]);
    Factors(1, f[7], 38, f[7]);
    TermIs(f, f, 4, 0, 4, 1);
    TermIs(f, f, 4, 1, 3, 2);
    TermIs(f, f, 4, 2, 2, 1);
    TermIs(f, f, 4, 3, 1, 2);
    TermIs(f, f, 4, 4, 0, 1);
    TermIs(f, f, 4, 5, 9, 38);
    TermIs(f, f, 4, 6, 8, 19);
    TermIs(f, f, 4, 7, 7, 38);
    TermIs(f, f, 4, 8, 6, 19);
    TermIs(f, f, 4, 9, 5, 38);
    hide Term;
  }

  function Square5(f: seq<int>): int
    requires |f| == 10
  {
    (2 * f[0]) * f[5] + (2 * f[1]) * f[4] + (2 * f[2]) * f[3] + f[6] * (38 * f[9]) + (2 * f[7]) * (19 * f[8])
  }

  /** The sum of squares and double products is that of the products. */
  lemma Square5Is(f: seq<int>)
    requires |f| == 10
    ensures Square5(f) == Acc(f, f, 5, 10)
  {
    Factors(2, f[0], 1, f[5]);
    Factors(2, f[1], 1, f[4]);
    Factors(2, f[2], 1, f[3]);
    Factors(1, f[6], 38, f[9]);
    Factors(2, f[7], 19, f[8]);
    TermIs(f, f, 5, 0, 5, 1);
    TermIs(f, f, 5, 1, 4, 1);
    TermIs(f, f, 5, 2, 3, 1);
    TermIs(f, f, 5, 3, 2, 1);
    TermIs(f, f, 5, 4, 1, 1);
    TermIs(f, f, 5, 5, 0, 1);
    TermIs(f, f, 5, 6, 9, 19);
    TermIs(f, f, 5, 7, 8, 19);
    TermIs(f, f, 5, 8, 7, 19);
    TermIs(f, f, 5, 9, 6, 19);
    hide Term;
  }

  function Square6(f: seq<int>): int
    requires |f| == 10
  {
    (2 * f[0]) * f[6] + (2 * f[1]) * (2 * f[5]) + (2 * f[2]) * f[4] + (2 * f[3]) * f[3] + (2 * f[7]) * (38 * f[9])
      + f[8] * (19 * f[8])
  }

  /** The sum of squares and double products is that of the products. */
  lemma Square6Is(f: seq<int>)
    requires |f| == 10
    ensures Square6(f) == Acc(f, f, 6, 10)
  {
    Factors(2, f[0], 1, f[6]);
    Factors(2, f[1], 2, f[5]);
    Factors(2, f[2], 1, f[4]);
    Factors(2, f[3], 1, f[3]);
    Factors(2, f[7], 38, f[9]);
    Factors(1, f[8], 19, f[8]);
    TermIs(f, f, 6, 0, 6, 1);
    TermIs(f, f, 6, 1, 5, 2);
    TermIs(f, f, 6, 2, 4, 1);
    TermIs(f, f, 6, 3, 3, 2);
    TermIs(f, f, 6, 4, 2, 1);
    TermIs(f, f, 6, 5, 1, 2);
    TermIs(f, f, 6, 6, 0, 1);
    TermIs(f, f, 6, 7, 9, 38);
    TermIs(f, f, 6, 8, 8, 19);
    TermIs(f, f, 6, 9, 7, 38);
    hide Term;
  }

  function Square7(f: seq<int>): int
    requires |f| == 10
  {
    (2 * f[0]) * f[7] + (2 * f[1]) * f[6] + (2 * f[2]) * f[5] + (2 * f[3]) * f[4] + f[8] * (38 * f[9])
  }

  /** The sum of squares and double products is that of the products. */
  lemma Square7Is(f: seq<int>)
    requires |f| == 10
    ensures Square7(f) == Acc(f, f, 7, 10)
  {
    Factors(2, f[0], 1, f[7]);
    Factors(2, f[1], 1, f[6]);
    Factors(2, f[2], 1, f[5]);
    Factors(2, f[3], 1, f[4]);
    Factors(1, f[8], 38, f[9]);
    TermIs(f, f, 7, 0, 7, 1);
    TermIs(f, f, 7, 1, 6, 1);
    TermIs(f, f, 7, 2, 5, 1);
    TermIs(f, f, 7, 3, 4, 1);
    TermIs(f, f, 7, 4, 3, 1);
    TermIs(f, f, 7, 5, 2, 1);
    TermIs(f, f, 7, 6, 1, 1);
    TermIs(f, f, 7, 7, 0, 1);
    TermIs(f, f, 7, 8, 9, 19);
    TermIs(f, f, 7, 9, 8, 19);
    hide Term;
  }

  function Square8(f: seq<int>): int
    requires |f| == 10
  {
    (2 * f[0]) * f[8] + (2 * f[1]) * (2 * f[7]) + (2 * f[2]) * f[6] + (2 * f[3]) * (2 * f[5]) + f[4] * f[4]
      + f[9] * (38 * f[9])
  }

  /** The sum of squares and double products is that of the products. */
  lemma Square8Is(f: seq<int>)
    requires |f| == 10
    ensures Square8(f) == Acc(f, f, 8, 10)
  {
    Factors(2, f[0], 1, f[8]);
    Factors(2, f[1], 2, f[7]);
    Factors(2, f[2], 1, f[6]);
    Factors(2, f[3], 2, f[5]);
    Factors(1, f[4], 1, f[4]);
    Factors(1, f[9], 38, f[9]);
    TermIs(f, f, 8, 0, 8, 1);
    TermIs(f, f, 8, 1, 7, 2);
    TermIs(f, f, 8, 2, 6, 1);
    TermIs(f, f, 8, 3, 5, 2);
    TermIs(f, f, 8, 4, 4, 1);
    TermIs(f, f, 8, 5, 3, 2);
    TermIs(f, f, 8, 6, 2, 1);
    TermIs(f, f, 8, 7, 1, 2);
    TermIs(f, f, 8, 8, 0, 1);
    TermIs(f, f, 8, 9, 9, 38);
    hide Term;
  }

  function Square9(f: seq<int>): int
    requires |f| == 10
  {
    (2 * f[0]) * f[9] + (2 * f[1]) * f[8] + (2 * f[2]) * f[7] + (2 * f[3]) * f[6] + (2 * f[4]) * f[5]
  }

  /** The sum of squares and double products is that of the products. */
  lemma Square9Is(f: seq<int>)
    requires |f| == 10
    ensures Square9(f) == Acc(f, f, 9, 10)
  {
    Factors(2, f[0], 1, f[9]);
    Factors(2, f[1], 1, f[8]);
    Factors(2, f[2], 1, f[7]);
    Factors(2, f[3], 1, f[6]);
    Factors(2, f[4], 1, f[5]);
    TermIs(f, f, 9, 0, 9, 1);
    TermIs(f, f, 9, 1, 8, 1);
    TermIs(f, f, 9, 2, 7, 1);
    TermIs(f, f, 9, 3, 6, 1);
    TermIs(f, f, 9, 4, 5, 1);
    TermIs(f, f, 9, 5, 4, 1);
    TermIs(f, f, 9, 6, 3, 1);
    TermIs(f, f, 9, 7, 2, 1);
    TermIs(f, f, 9, 8, 1, 1);
    TermIs(f, f, 9, 9, 0, 1);
    hide Term;
  }
}
