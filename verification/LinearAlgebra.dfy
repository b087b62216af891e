/**
  Vectors and square matrices over the words modulo x^16 + p, and the exchange step of
  Gauss-Jordan elimination: what one step keeps, when a pivot is zero, what the last step yields.
*/
module LinearAlgebra {
  import opened Gf2Poly
  import opened BinaryField

  type Vector = seq<Word>
  type Matrix = seq<seq<Word>>

  ghost predicate Square(m: Matrix, n: nat) {
    |m| == n && forall r :: 0 <= r < n ==> |m[r]| == n
  }

  ghost predicate IsZero(v: Vector) {
    forall k :: 0 <= k < |v| ==> v[k] == 0
  }

  function Zeros(n: nat): (v: Vector)
    ensures |v| == n && IsZero(v)
  {
    seq(n, _ => 0)
  }

  ghost function Dot(p: Word, a: Vector, z: Vector): Word
    requires |a| == |z|
  {
    if a == [] then 0 else Add(Mul(p, a[0], z[0]), Dot(p, a[1..], z[1..]))
  }

  ghost function Scale(p: Word, c: Word, a: Vector): (s: Vector)
    ensures |s| == |a|
  {
    seq(|a|, k requires 0 <= k < |a| => Mul(p, c, a[k]))
  }

  ghost function Sum(a: Vector, b: Vector): (s: Vector)
    requires |a| == |b|
    ensures |s| == |a|
  {
    seq(|a|, k requires 0 <= k < |a| => Add(a[k], b[k]))
  }

  // ---------- the scalar product is linear ----------

  lemma {:induction false} DotSnoc(p: Word, a: Vector, c: Word, z: Vector, v: Word)
    requires |a| == |z|
    ensures Dot(p, a + [c], z + [v]) == Add(Dot(p, a, z), Mul(p, c, v))
  {
    if a == [] {
      XorZero(Mul(p, c, v));
    } else {
      assert (a + [c])[1..] == a[1..] + [c] && (z + [v])[1..] == z[1..] + [v];
      DotSnoc(p, a[1..], c, z[1..], v);
      XorAssoc(Mul(p, a[0], z[0]), Dot(p, a[1..], z[1..]), Mul(p, c, v));
    }
  }

  lemma {:induction false} DotScale(p: Word, c: Word, a: Vector, z: Vector)
    requires |a| == |z|
    ensures Dot(p, Scale(p, c, a), z) == Mul(p, c, Dot(p, a, z))
  {
    if a == [] { MulUnits(p, c); } else {
      assert Scale(p, c, a)[1..] == Scale(p, c, a[1..]);
      DotScale(p, c, a[1..], z[1..]);
      MulAssoc(p, c, a[0], z[0]);
      MulAdd(p, c, Mul(p, a[0], z[0]), Dot(p, a[1..], z[1..]));
    }
  }

  lemma {:induction false} DotSum(p: Word, a: Vector, b: Vector, z: Vector)
    requires |a| == |b| == |z|
    ensures Dot(p, Sum(a, b), z) == Add(Dot(p, a, z), Dot(p, b, z))
  {
    if a == [] { XorZero(0); } else {
      assert Sum(a, b)[1..] == Sum(a[1..], b[1..]);
      DotSum(p, a[1..], b[1..], z[1..]);
      MulAdd(p, z[0], a[0], b[0]);
      XorSwap(Mul(p, a[0], z[0]), Mul(p, b[0], z[0]), Dot(p, a[1..], z[1..]), Dot(p, b[1..], z[1..]));
    }
  }

  lemma {:induction false} DotZero(p: Word, a: Vector, z: Vector)
    requires |a| == |z| && IsZero(z)
    ensures Dot(p, a, z) == 0
  {
    if a != [] { DotZero(p, a[1..], z[1..]); MulUnits(p, a[0]); XorZero(0); }
  }

  lemma {:induction false} DotPadded(p: Word, a: Vector, v: Vector, k: nat)
    requires |a| == |v| && k <= |a| && IsZero(v[k..])
    ensures Dot(p, a, v) == Dot(p, a[..k], v[..k])
    decreases k
  {
    if k == 0 { DotZero(p, a, v); } else {
      assert a[..k][1..] == a[1..][..k - 1] && v[..k][1..] == v[1..][..k - 1] && v[1..][k - 1..] == v[k..];
      DotPadded(p, a[1..], v[1..], k - 1);
    }
  }

  // ---------- the exchange step ----------

  /** y == A x, halfway: x[..i] and y[i..] are given as functions of x[i..] and y[..i]. */
  ghost predicate Exchanged(p: Word, b: Matrix, i: nat, x: Vector, y: Vector)
    requires Square(b, |x|) && |x| == |y| && i <= |x|
  {
    forall r :: 0 <= r < |x| ==> Result(i, x, y, r) == Dot(p, b[r], x[i..] + y[..i])
  }

  ghost function Result(i: nat, x: Vector, y: Vector, r: nat): Word
    requires |x| == |y| && r < |x|
  {
    if r < i then x[r] else y[r]
  }

  /** y is the image of x. */
  ghost predicate Maps(p: Word, a: Matrix, x: Vector, y: Vector) {
    && Square(a, |x|) && |x| == |y|
    && forall r :: 0 <= r < |x| ==> y[r] == Dot(p, a[r], x)
  }

  /** b describes the same relation between x and y as a, after i exchanges. */
  ghost predicate SameRelation(p: Word, a: Matrix, b: Matrix, i: nat, n: nat) {
    && Square(a, n) && Square(b, n) && i <= n
    && forall x: Vector, y: Vector :: |x| == n && |y| == n ==> (Maps(p, a, x, y) <==> Exchanged(p, b, i, x, y))
  }

  /** The row that holds the pivot, solved for the pivot's variable. */
  ghost function PivotRow(p: Word, row: Vector, inv: Word): Vector
    requires row != []
  {
    Scale(p, inv, row[1..]) + [inv]
  }

  /** Any other row, with the pivot's variable substituted. */
  ghost function OtherRow(p: Word, row: Vector, pivotRow: Vector): Vector
    requires |row| == |pivotRow| > 0
  {
    var last := |row| - 1;
    Sum(row[1..], Scale(p, row[0], pivotRow[..last])) + [Mul(p, row[0], pivotRow[last])]
  }

  ghost predicate IsExchange(p: Word, b: Matrix, c: Matrix, i: nat, n: nat, inv: Word) {
    && Square(b, n) && Square(c, n) && i < n
    && c[i] == PivotRow(p, b[i], inv)
    && forall r :: 0 <= r < n && r != i ==> c[r] == OtherRow(p, b[r], c[i])
  }

  lemma DotHead(p: Word, row: Vector, v: Word, rest: Vector)
    requires |row| == |rest| + 1
    ensures Dot(p, row, [v] + rest) == Add(Mul(p, row[0], v), Dot(p, row[1..], rest))
  {
    assert ([v] + rest)[1..] == rest;
  }

  lemma DotPivotRow(p: Word, row: Vector, inv: Word, rest: Vector, v: Word)
    requires |row| == |rest| + 1
    ensures Dot(p, PivotRow(p, row, inv), rest + [v]) == Mul(p, inv, Add(Dot(p, row[1..], rest), v))
  {
    DotSnoc(p, Scale(p, inv, row[1..]), inv, rest, v);
    DotScale(p, inv, row[1..], rest);
    MulAdd(p, inv, Dot(p, row[1..], rest), v);
  }

  lemma DotOtherRow(p: Word, row: Vector, pivotRow: Vector, rest: Vector, v: Word)
    requires |row| == |pivotRow| == |rest| + 1
    ensures Dot(p, OtherRow(p, row, pivotRow), rest + [v])
         == Add(Dot(p, row[1..], rest), Mul(p, row[0], Dot(p, pivotRow, rest + [v])))
  {
    var last := |row| - 1;
    var m, head := row[0], pivotRow[..last];
    assert pivotRow == head + [pivotRow[last]];
    DotSnoc(p, head, pivotRow[last], rest, v);
    DotSnoc(p, Sum(row[1..], Scale(p, m, head)), Mul(p, m, pivotRow[last]), rest, v);
    DotSum(p, row[1..], Scale(p, m, head), rest);
    DotScale(p, m, head, rest);
    MulAssoc(p, m, pivotRow[last], v);
    MulAdd(p, m, Dot(p, head, rest), Mul(p, pivotRow[last], v));
    XorAssoc(Dot(p, row[1..], rest), Mul(p, m, Dot(p, head, rest)), Mul(p, Mul(p, m, pivotRow[last]), v));
  }

  /** y == pivot*x + d holds exactly when x == inv*(d + y). */
  lemma SolveForPivot(p: Word, pivot: Word, inv: Word, x: Word, y: Word, d: Word)
    requires IsInverse(p, pivot, inv)
    ensures y == Add(Mul(p, pivot, x), d) <==> x == Mul(p, inv, Add(d, y))
  {
    var px := Mul(p, pivot, x);
    if y == Add(px, d) {
      XorComm(px, d); XorCancel(px, d);
      CancelByInverse(p, pivot, inv, x);
    }
    if x == Mul(p, inv, Add(d, y)) {
      CancelByInverse(p, pivot, inv, Add(d, y));
      XorComm(d, y); XorCancel(y, d);
    }
  }

  /** One exchange keeps the relation. */
  lemma ExchangeKeeps(p: Word, b: Matrix, c: Matrix, i: nat, n: nat, inv: Word, x: Vector, y: Vector)
    requires IsExchange(p, b, c, i, n, inv) && IsInverse(p, b[i][0], inv)
    requires |x| == n && |y| == n
    ensures Exchanged(p, b, i, x, y) <==> Exchanged(p, c, i + 1, x, y)
  {
    var rest := x[i + 1..] + y[..i];
    assert x[i..] + y[..i] == [x[i]] + rest;
    assert x[i + 1..] + y[..i + 1] == rest + [y[i]];
    var d := Dot(p, b[i][1..], rest);
    DotHead(p, b[i], x[i], rest);
    DotPivotRow(p, b[i], inv, rest, y[i]);
    SolveForPivot(p, b[i][0], inv, x[i], y[i], d);
    forall r | 0 <= r < n && r != i
      ensures Dot(p, b[r], [x[i]] + rest) == Add(Mul(p, b[r][0], x[i]), Dot(p, b[r][1..], rest))
      ensures Dot(p, c[r], rest + [y[i]])
           == Add(Mul(p, b[r][0], Dot(p, c[i], rest + [y[i]])), Dot(p, b[r][1..], rest))
    {
      DotHead(p, b[r], x[i], rest);
      DotOtherRow(p, b[r], c[i], rest, y[i]);
      XorComm(Dot(p, b[r][1..], rest), Mul(p, b[r][0], Dot(p, c[i], rest + [y[i]])));
    }
    ExchangeRows(p, b, c, i, x, y, [x[i]] + rest, rest + [y[i]]);
  }

  /** The row-by-row comparison behind ExchangeKeeps. */
  lemma ExchangeRows(p: Word, b: Matrix, c: Matrix, i: nat, x: Vector, y: Vector, z: Vector, z': Vector)
    requires |x| == |y| && i < |x| && Square(b, |x|) && Square(c, |x|)
    requires z == x[i..] + y[..i] && z' == x[i + 1..] + y[..i + 1]
    requires y[i] == Dot(p, b[i], z) <==> x[i] == Dot(p, c[i], z')
    requires forall r :: 0 <= r < |x| && r != i && x[i] == Dot(p, c[i], z') ==> Dot(p, b[r], z) == Dot(p, c[r], z')
    ensures Exchanged(p, b, i, x, y) <==> Exchanged(p, c, i + 1, x, y)
  {
    if Exchanged(p, b, i, x, y) {
      assert Result(i, x, y, i) == y[i];
      forall r | 0 <= r < |x| ensures Result(i + 1, x, y, r) == Dot(p, c[r], z') {
        if r != i { assert Result(i, x, y, r) == Result(i + 1, x, y, r); }
      }
    }
    if Exchanged(p, c, i + 1, x, y) {
      assert Result(i + 1, x, y, i) == x[i];
      forall r | 0 <= r < |x| ensures Result(i, x, y, r) == Dot(p, b[r], z) {
        if r != i { assert Result(i, x, y, r) == Result(i + 1, x, y, r); }
      }
    }
  }

  lemma RelationStart(p: Word, a: Matrix, n: nat)
    requires Square(a, n)
    ensures SameRelation(p, a, a, 0, n)
  {
    forall x: Vector, y: Vector | |x| == n && |y| == n
      ensures Maps(p, a, x, y) <==> Exchanged(p, a, 0, x, y)
    {
      assert x[0..] + y[..0] == x;
      forall r | 0 <= r < n ensures Result(0, x, y, r) == y[r] {}
    }
  }

  lemma RelationStep(p: Word, a: Matrix, b: Matrix, c: Matrix, i: nat, n: nat, inv: Word)
    requires SameRelation(p, a, b, i, n)
    requires IsExchange(p, b, c, i, n, inv) && IsInverse(p, b[i][0], inv)
    ensures SameRelation(p, a, c, i + 1, n)
  {
    forall x: Vector, y: Vector | |x| == n && |y| == n
      ensures Maps(p, a, x, y) <==> Exchanged(p, c, i + 1, x, y)
    {
      ExchangeKeeps(p, b, c, i, n, inv, x, y);
    }
  }

  // ---------- what the end yields ----------

  /** a and b undo each other, on either side. */
  ghost predicate MatrixInverse(p: Word, a: Matrix, b: Matrix, n: nat) {
    forall x: Vector, y: Vector :: |x| == n && |y| == n ==> (Maps(p, a, x, y) <==> Maps(p, b, y, x))
  }

  lemma RelationEnd(p: Word, a: Matrix, b: Matrix, n: nat)
    requires SameRelation(p, a, b, n, n)
    ensures MatrixInverse(p, a, b, n)
  {
    forall x: Vector, y: Vector | |x| == n && |y| == n
      ensures Maps(p, a, x, y) <==> Maps(p, b, y, x)
    {
      assert x[n..] + y[..n] == y;
      assert forall r :: 0 <= r < n ==> Result(n, x, y, r) == x[r];
    }
  }

  // ---------- pivots and leading blocks ----------

  /** The leading k*k block has no kernel: the k-th leading principal minor is not zero. */
  ghost predicate LeadingRegular(p: Word, a: Matrix, k: nat, n: nat)
    requires Square(a, n) && k <= n
  {
    forall v: Vector :: |v| == k && (forall r :: 0 <= r < k ==> Dot(p, a[r][..k], v) == 0) ==> IsZero(v)
  }

  ghost function Image(p: Word, a: Matrix, x: Vector): (y: Vector)
    requires Square(a, |x|)
    ensures Maps(p, a, x, y)
  {
    seq(|x|, r requires 0 <= r < |x| => Dot(p, a[r], x))
  }

  /** After k exchanges the leading k*k block is known to be regular. */
  lemma PivotsRegular(p: Word, a: Matrix, b: Matrix, k: nat, n: nat)
    requires SameRelation(p, a, b, k, n)
    ensures LeadingRegular(p, a, k, n)
  {
    forall v: Vector | |v| == k && (forall r :: 0 <= r < k ==> Dot(p, a[r][..k], v) == 0)
      ensures IsZero(v)
    {
      var x := v + Zeros(n - k);
      var y := Image(p, a, x);
      forall r | 0 <= r < k ensures y[r] == 0 {
        assert x[..k] == v && IsZero(x[k..]);
        DotPadded(p, a[r], x, k);
      }
      assert Exchanged(p, b, k, x, y);
      var z := x[k..] + y[..k];
      assert IsZero(z);
      forall r | 0 <= r < k ensures v[r] == 0 {
        DotZero(p, b[r], z);
        assert Result(k, x, y, r) == x[r] == v[r];
      }
    }
  }

  lemma DotUnit(p: Word, row: Vector, z: Vector)
    requires |row| == |z| > 0 && z[0] == 1 && IsZero(z[1..])
    ensures Dot(p, row, z) == row[0]
  {
    DotZero(p, row[1..], z[1..]);
    MulUnits(p, row[0]); XorZero(row[0]);
  }

  /** The vectors that witness a zero pivot: row 0 of every row, under the unit vector of variable i. */
  ghost function KernelX(b: Matrix, i: nat, n: nat): (x: Vector)
    requires Square(b, n) && i < n
    ensures |x| == n
  {
    seq(n, r requires 0 <= r < n => if r < i then b[r][0] else if r == i then 1 else 0)
  }

  ghost function KernelY(b: Matrix, i: nat, n: nat): (y: Vector)
    requires Square(b, n) && i < n
    ensures |y| == n
  {
    seq(n, r requires 0 <= r < n => if r < i then 0 else b[r][0])
  }

  lemma KernelExchanged(p: Word, b: Matrix, i: nat, n: nat)
    requires Square(b, n) && i < n
    ensures Exchanged(p, b, i, KernelX(b, i, n), KernelY(b, i, n))
  {
    var x, y := KernelX(b, i, n), KernelY(b, i, n);
    var z := x[i..] + y[..i];
    forall r | 0 <= r < n ensures Result(i, x, y, r) == Dot(p, b[r], z) {
      assert z[0] == 1 && IsZero(z[1..]);
      DotUnit(p, b[r], z);
    }
  }

  /** A zero pivot means that the next leading block is singular. */
  lemma ZeroPivotSingular(p: Word, a: Matrix, b: Matrix, i: nat, n: nat)
    requires SameRelation(p, a, b, i, n) && i < n && b[i][0] == 0
    ensures !LeadingRegular(p, a, i + 1, n)
  {
    var x, y := KernelX(b, i, n), KernelY(b, i, n);
    KernelExchanged(p, b, i, n);
    assert Maps(p, a, x, y);
    var v := x[..i + 1];
    forall r | 0 <= r < i + 1 ensures Dot(p, a[r][..i + 1], v) == 0 {
      assert IsZero(x[i + 1..]);
      DotPadded(p, a[r], x, i + 1);
    }
    assert v[i] == 1;
  }
}
