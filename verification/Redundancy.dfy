/**
  The erasure code: in-place inversion of a matrix held row by row in one array, encoding of one
  fragment, and decoding from as many fragments as there are data words in a row.
*/
module Redundancy {
  import opened Gf2Poly
  import opened BinaryField
  import opened LinearAlgebra
  import opened Vandermonde
  import opened Gbf

  // ---------- rows inside a flat array ----------

  lemma CellFits(i: nat, m: nat, j: nat, n: nat)
    requires i < m && j < n
    ensures 0 <= i * n + j < m * n && i * n + n <= m * n
  {
    assert i * n + n == (i + 1) * n <= m * n;
  }

  ghost function Row(s: seq<Word>, m: nat, n: nat, i: nat): (v: Vector)
    requires |s| == m * n && i < m
    ensures |v| == n
  {
    if n == 0 then [] else
      CellFits(i, m, 0, n);
      s[i * n..i * n + n]
  }

  lemma RowCell(s: seq<Word>, m: nat, n: nat, i: nat, j: nat)
    requires |s| == m * n && i < m && j < n
    ensures 0 <= i * n + j < |s| && Row(s, m, n, i)[j] == s[i * n + j]
  {
    CellFits(i, m, j, n);
  }

  lemma RowSlice(s: seq<Word>, m: nat, n: nat, i: nat, base: int)
    requires |s| == m * n && i < m && base == i * n && n > 0
    ensures 0 <= base && base + n <= |s| && Row(s, m, n, i) == s[base..base + n]
  {
    CellFits(i, m, 0, n);
  }

  ghost function MatrixOf(s: seq<Word>, n: nat): (a: Matrix)
    requires |s| == n * n
    ensures Square(a, n)
  {
    seq(n, i requires 0 <= i < n => Row(s, n, n, i))
  }

  /** s and t agree outside the n cells from base on. */
  ghost predicate OnlyRow(s: seq<Word>, t: seq<Word>, base: int, n: nat) {
    |s| == |t| && forall k :: 0 <= k < |s| && !(base <= k < base + n) ==> t[k] == s[k]
  }

  lemma RowsApart(n: nat, i: nat, r: nat)
    requires i != r
    ensures r * n + n <= i * n || i * n + n <= r * n
  {
    if r < i { assert (r + 1) * n <= i * n; } else { assert (i + 1) * n <= r * n; }
  }

  lemma OtherRowsKept(s: seq<Word>, t: seq<Word>, n: nat, i: nat, r: nat)
    requires |s| == n * n && i < n && r < n && r != i && OnlyRow(s, t, i * n, n)
    ensures Row(s, n, n, r) == Row(t, n, n, r)
  {
    CellFits(r, n, 0, n);
    RowsApart(n, i, r);
    var base := r * n;
    assert s[base..base + n] == t[base..base + n];
  }

  // ---------- inversion in place ----------

  /** The pivot's row: shifted left and scaled, the inverse of the pivot at the end. */
  method NormalizeRow(gbf: Tables, ghost p: Word, matrix: array<Word>, base: nat, size: nat, inv: Word)
    requires gbf.Ready(p) && matrix != gbf.clmod
    requires 0 < size && base + size <= matrix.Length
    modifies matrix
    ensures matrix[..][base..base + size] == PivotRow(p, old(matrix[..])[base..base + size], inv)
    ensures OnlyRow(old(matrix[..]), matrix[..], base, size)
  {
    ghost var was := matrix[..];
    for j := base to base + size - 1
      invariant gbf.Ready(p)
      invariant forall k :: base <= k < j ==> matrix[k] == Mul(p, inv, was[k + 1])
      invariant forall k :: j <= k < base + size ==> matrix[k] == was[k]
      invariant OnlyRow(was, matrix[..], base, size)
    {
      MulComm(p, matrix[j + 1], inv);
      var m := gbf.Mul(p, matrix[j + 1], inv);
      matrix[j] := m;
    }
    matrix[base + size - 1] := inv;
    PivotCells(p, was[base..base + size], inv, matrix[..][base..base + size]);
  }

  lemma PivotCells(p: Word, row: Vector, inv: Word, now: Vector)
    requires |row| == |now| > 0 && now[|row| - 1] == inv
    requires forall k :: 0 <= k < |row| - 1 ==> now[k] == Mul(p, inv, row[k + 1])
    ensures now == PivotRow(p, row, inv)
  {
    assert forall k :: 0 <= k < |row| - 1 ==> row[1..][k] == row[k + 1];
  }

  lemma OtherCells(p: Word, row: Vector, pivotRow: Vector, now: Vector)
    requires |row| == |pivotRow| == |now| > 0
    requires now[|row| - 1] == Mul(p, row[0], pivotRow[|row| - 1])
    requires forall k :: 0 <= k < |row| - 1 ==> now[k] == Add(row[k + 1], Mul(p, row[0], pivotRow[k]))
    ensures now == OtherRow(p, row, pivotRow)
  {
    assert forall k :: 0 <= k < |row| - 1 ==> row[1..][k] == row[k + 1];
  }

  /** Any other row: shifted left, with a multiple of the pivot's row added. */
  method EliminateRow(gbf: Tables, ghost p: Word, matrix: array<Word>, base: nat, pivotBase: nat, size: nat)
    requires gbf.Ready(p) && matrix != gbf.clmod
    requires 0 < size && base + size <= matrix.Length && pivotBase + size <= matrix.Length
    requires base + size <= pivotBase || pivotBase + size <= base
    modifies matrix
    ensures matrix[..][base..base + size]
         == OtherRow(p, old(matrix[..])[base..base + size], old(matrix[..])[pivotBase..pivotBase + size])
    ensures OnlyRow(old(matrix[..]), matrix[..], base, size)
  {
    ghost var was := matrix[..];
    ghost var row, pivotRow := was[base..base + size], was[pivotBase..pivotBase + size];
    var mul := matrix[base];
    for k := 0 to size - 1
      invariant gbf.Ready(p)
      invariant forall c :: 0 <= c < k ==> matrix[..][base..base + size][c] == Add(row[c + 1], Mul(p, mul, pivotRow[c]))
      invariant forall c :: k <= c < size ==> matrix[..][base..base + size][c] == row[c]
      invariant OnlyRow(was, matrix[..], base, size)
    {
      assert matrix[..][pivotBase + k] == pivotRow[k];
      assert matrix[..][base..base + size][k + 1] == row[k + 1];
      var m := gbf.Mul(p, mul, matrix[pivotBase + k]);
      ghost var before := matrix[..];
      matrix[base + k] := Add(matrix[base + k + 1], m);
      assert matrix[..][base..base + size] == before[base..base + size][k := matrix[base + k]];
    }
    assert matrix[..][pivotBase + size - 1] == pivotRow[size - 1];
    var m := gbf.Mul(p, mul, matrix[pivotBase + size - 1]);
    ghost var before := matrix[..];
    matrix[base + size - 1] := m;
    assert matrix[..][base..base + size] == before[base..base + size][size - 1 := m];
    OtherCells(p, row, pivotRow, matrix[..][base..base + size]);
  }

  /** What row r holds after the pivot's row and the first j other rows have been rewritten. */
  ghost function RowAfter(p: Word, b: Matrix, n: nat, i: nat, j: nat, inv: Word, r: nat): Vector
    requires Square(b, n) && i < n && r < n
  {
    if r == i then PivotRow(p, b[i], inv)
    else if r < j then OtherRow(p, b[r], PivotRow(p, b[i], inv))
    else b[r]
  }

  ghost predicate RowsRewritten(p: Word, b: Matrix, s: seq<Word>, n: nat, i: nat, j: nat, inv: Word)
    requires Square(b, n) && |s| == n * n && i < n
  {
    forall r: nat :: r < n ==> Row(s, n, n, r) == RowAfter(p, b, n, i, j, inv, r)
  }

  lemma FirstRowRewritten(p: Word, s: seq<Word>, t: seq<Word>, n: nat, i: nat, inv: Word)
    requires |s| == n * n && |t| == n * n && i < n && i * n + n <= n * n
    requires OnlyRow(s, t, i * n, n)
    requires t[i * n..i * n + n] == PivotRow(p, s[i * n..i * n + n], inv)
    ensures RowsRewritten(p, MatrixOf(s, n), t, n, i, 0, inv)
  {
    forall r: nat | r < n ensures Row(t, n, n, r) == RowAfter(p, MatrixOf(s, n), n, i, 0, inv, r) {
      if r != i { OtherRowsKept(s, t, n, i, r); }
    }
  }

  lemma NextRowRewritten(p: Word, b: Matrix, s: seq<Word>, t: seq<Word>, n: nat, i: nat, j: nat, inv: Word)
    requires Square(b, n) && |s| == n * n && |t| == n * n && i < n && j < n && j != i
    requires RowsRewritten(p, b, s, n, i, j, inv)
    requires OnlyRow(s, t, j * n, n)
    requires Row(t, n, n, j) == OtherRow(p, Row(s, n, n, j), Row(s, n, n, i))
    ensures RowsRewritten(p, b, t, n, i, j + 1, inv)
  {
    assert Row(s, n, n, i) == RowAfter(p, b, n, i, j, inv, i);
    forall r: nat | r < n ensures Row(t, n, n, r) == RowAfter(p, b, n, i, j + 1, inv, r) {
      assert Row(s, n, n, r) == RowAfter(p, b, n, i, j, inv, r);
      if r != j { OtherRowsKept(s, t, n, j, r); }
    }
  }

  lemma AllRowsRewritten(p: Word, s: seq<Word>, t: seq<Word>, n: nat, i: nat, inv: Word)
    requires |s| == n * n && |t| == n * n && i < n
    requires RowsRewritten(p, MatrixOf(s, n), t, n, i, n, inv)
    ensures IsExchange(p, MatrixOf(s, n), MatrixOf(t, n), i, n, inv)
  {
    var b, c := MatrixOf(s, n), MatrixOf(t, n);
    assert c[i] == Row(t, n, n, i) == RowAfter(p, b, n, i, n, inv, i);
    forall r | 0 <= r < n && r != i ensures c[r] == OtherRow(p, b[r], c[i]) {
      assert c[r] == Row(t, n, n, r) == RowAfter(p, b, n, i, n, inv, r);
    }
  }

  /** One other row of the pass. */
  method RewriteRow(gbf: Tables, ghost p: Word, ghost b: Matrix, matrix: array<Word>, size: nat, i: nat, j: nat,
                    ghost inv: Word)
    requires gbf.Ready(p) && matrix != gbf.clmod
    requires Square(b, size) && matrix.Length == size * size && i < size && j < size && i != j
    requires RowsRewritten(p, b, matrix[..], size, i, j, inv)
    modifies matrix
    ensures RowsRewritten(p, b, matrix[..], size, i, j + 1, inv)
  {
    var row, pivotRow := j * size, i * size;
    ghost var before := matrix[..];
    RowSlice(before, size, size, j, row); RowSlice(before, size, size, i, pivotRow);
    RowsApart(size, i, j);
    EliminateRow(gbf, p, matrix, row, pivotRow, size);
    ghost var after := matrix[..];
    RowSlice(after, size, size, j, row);
    NextRowRewritten(p, b, before, after, size, i, j, inv);
  }

  /** One pass of the elimination: the exchange of variable i. */
  method Exchange(gbf: Tables, ghost p: Word, matrix: array<Word>, size: nat, i: nat, inv: Word)
    requires gbf.Ready(p) && matrix != gbf.clmod
    requires matrix.Length == size * size && i < size
    modifies matrix
    ensures IsExchange(p, MatrixOf(old(matrix[..]), size), MatrixOf(matrix[..], size), i, size, inv)
  {
    ghost var was, b := matrix[..], MatrixOf(matrix[..], size);
    CellFits(i, size, 0, size);
    NormalizeRow(gbf, p, matrix, i * size, size, inv);
    FirstRowRewritten(p, was, matrix[..], size, i, inv);
    for j := 0 to size
      invariant gbf.Ready(p)
      invariant RowsRewritten(p, b, matrix[..], size, i, j, inv)
    {
      if i != j {
        RewriteRow(gbf, p, b, matrix, size, i, j, inv);
      }
    }
    AllRowsRewritten(p, was, matrix[..], size, i, inv);
  }

  /**
    The inverse in place. The result ok is false when a pivot is zero, where the source's assertion
    on the pivot stops it: that happens exactly when a leading principal minor is zero.
  */
  method InvMatrix(gbf: Tables, ghost p: Word, matrix: array<Word>, size: nat) returns (ok: bool)
    requires gbf.Ready(p) && matrix != gbf.clmod && Irreducible(Modulus(p))
    requires matrix.Length == size * size
    modifies matrix
    ensures ok <==> forall k :: 0 <= k <= size ==> LeadingRegular(p, MatrixOf(old(matrix[..]), size), k, size)
    ensures ok ==> MatrixInverse(p, MatrixOf(old(matrix[..]), size), MatrixOf(matrix[..], size), size)
  {
    ghost var a := MatrixOf(matrix[..], size);
    RelationStart(p, a, size);
    for i := 0 to size
      invariant gbf.Ready(p)
      invariant SameRelation(p, a, MatrixOf(matrix[..], size), i, size)
      invariant forall k :: 0 <= k < i ==> LeadingRegular(p, a, k, size)
    {
      ghost var b := MatrixOf(matrix[..], size);
      CellFits(i, size, 0, size);
      RowCell(matrix[..], size, size, i, 0);
      PivotsRegular(p, a, b, i, size);
      if matrix[i * size] == 0 {
        ZeroPivotSingular(p, a, b, i, size);
        return false;
      }
      var found, inv := gbf.Inv(p, matrix[i * size]);
      Exchange(gbf, p, matrix, size, i, inv);
      RelationStep(p, a, b, MatrixOf(matrix[..], size), i, size, inv);
    }
    PivotsRegular(p, a, MatrixOf(matrix[..], size), size, size);
    RelationEnd(p, a, MatrixOf(matrix[..], size), size);
    ok := true;
  }

  // ---------- encoding and decoding ----------

  /** Word j of the fragment for vec: a combination of row j of the data with powers of vec. */
  ghost function Symbol(p: Word, data: seq<Word>, vec: Word, numFrag: nat, size: nat, j: nat): Word
    requires |data| == size * numFrag && j < size
  {
    Dot(p, Row(data, size, numFrag, j), PowerRow(p, vec, numFrag))
  }

  /** That is the polynomial whose coefficients are numFrag words of the data, at vec. */
  lemma SymbolIsPolynomial(p: Word, data: seq<Word>, vec: Word, numFrag: nat, size: nat, j: nat)
    requires |data| == size * numFrag && j < size
    ensures var row := Row(data, size, numFrag, j);
      && Symbol(p, data, vec, numFrag, size, j) == Eval(p, row, vec)
      && forall i: nat :: i < numFrag ==> 0 <= j * numFrag + i < |data| && row[i] == data[j * numFrag + i]
  {
    var row := Row(data, size, numFrag, j);
    forall i: nat | i < numFrag ensures 0 <= j * numFrag + i < |data| && row[i] == data[j * numFrag + i] {
      RowCell(data, size, numFrag, j, i);
    }
    DotPowers(p, row, vec);
    DotComm(p, row, PowerRow(p, vec, numFrag));
  }

  lemma PowerNext(p: Word, vec: Word, i: nat)
    requires i > 0
    ensures Mul(p, Pow(p, vec, i - 1), vec) == Pow(p, vec, i)
    ensures PowerRow(p, vec, i + 1) == PowerRow(p, vec, i) + [Pow(p, vec, i)]
  {
    MulComm(p, Pow(p, vec, i - 1), vec);
  }

  /** The powers of vec, as both the encoder and the decoder compute them. */
  method FillPowers(gbf: Tables, ghost p: Word, x: array<Word>, base: nat, vec: Word, numFrag: nat)
    requires gbf.Ready(p) && x != gbf.clmod
    requires 0 < numFrag && base + numFrag <= x.Length
    modifies x
    ensures x[..][base..base + numFrag] == PowerRow(p, vec, numFrag)
    ensures OnlyRow(old(x[..]), x[..], base, numFrag)
  {
    ghost var was := x[..];
    x[base] := 1;
    assert x[..][base..base + 1] == PowerRow(p, vec, 1);
    for i := 1 to numFrag
      invariant gbf.Ready(p)
      invariant x[..][base..base + i] == PowerRow(p, vec, i)
      invariant OnlyRow(was, x[..], base, numFrag)
    {
      PowerNext(p, vec, i);
      assert x[base + i - 1] == x[..][base..base + i][i - 1];
      var m := gbf.Mul(p, x[base + i - 1], vec);
      ghost var before := x[..];
      x[base + i] := m;
      assert x[..][base..base + i + 1] == before[base..base + i] + [m];
    }
  }

  /** Sums up from the front, as the loops of the encoder and the decoder do. */
  lemma DotPrefix(p: Word, a: Vector, z: Vector, k: nat)
    requires |a| == |z| && k < |a|
    ensures Dot(p, a[..k + 1], z[..k + 1]) == Add(Dot(p, a[..k], z[..k]), Mul(p, a[k], z[k]))
  {
    assert a[..k + 1] == a[..k] + [a[k]] && z[..k + 1] == z[..k] + [z[k]];
    DotSnoc(p, a[..k], a[k], z[..k], z[k]);
  }

  /** The encoder's inner loop: one row of the data against the powers of vec. */
  method EncodeRow(gbf: Tables, ghost p: Word, data: array<Word>, start: nat, x: array<Word>, numFrag: nat)
    returns (v: Word, next: nat)
    requires gbf.Ready(p) && x.Length == numFrag && start + numFrag <= data.Length
    ensures v == Dot(p, data[..][start..start + numFrag], x[..])
    ensures next == start + numFrag
  {
    ghost var row, z := data[..][start..start + numFrag], x[..];
    v, next := 0, start;
    for j := 0 to numFrag
      invariant next == start + j
      invariant v == Dot(p, row[..j], z[..j])
    {
      DotPrefix(p, row, z, j);
      assert row[j] == data[next] && z[j] == x[j];
      var m := gbf.Mul(p, data[next], x[j]);
      v := Add(v, m);
      next := next + 1;
    }
    assert row[..numFrag] == row && z[..numFrag] == z;
  }

  method EncodeOne(gbf: Tables, ghost p: Word, out: array<Word>, data: array<Word>, vec: Word, numFrag: nat, size: nat)
    requires gbf.Ready(p) && out != gbf.clmod && out != data
    requires vec != 0 && numFrag > 0
    requires out.Length == size && data.Length == size * numFrag
    modifies out
    ensures forall j: nat :: j < size ==> out[j] == Symbol(p, data[..], vec, numFrag, size, j)
  {
    var x := new Word[numFrag];
    FillPowers(gbf, p, x, 0, vec, numFrag);
    assert x[..] == PowerRow(p, vec, numFrag);
    ghost var d := data[..];
    var next: nat := 0;
    for i := 0 to size
      invariant gbf.Ready(p)
      invariant x[..] == PowerRow(p, vec, numFrag) && data[..] == d
      invariant next == i * numFrag
      invariant forall j: nat :: j < i ==> out[j] == Symbol(p, d, vec, numFrag, size, j)
    {
      CellFits(i, size, 0, numFrag);
      assert Row(d, size, numFrag, i) == d[next..next + numFrag];
      var v;
      v, next := EncodeRow(gbf, p, data, next, x, numFrag);
      assert v == Symbol(p, d, vec, numFrag, size, i);
      assert next == (i + 1) * numFrag;
      out[i] := v;
    }
  }

  // ---------- decoding ----------

  /** Fragment k of data, at j. */
  ghost predicate IsEncoding(p: Word, original: seq<Word>, vec: seq<Word>, data: seq<Word>, numFrag: nat, size: nat)
    requires |original| == size * numFrag && |data| == numFrag * size && |vec| == numFrag
  {
    forall k: nat, j: nat :: k < numFrag && j < size ==>
      Row(data, numFrag, size, k)[j] == Symbol(p, original, vec[k], numFrag, size, j)
  }

  /** Column j of the fragments. */
  ghost function Column(data: seq<Word>, numFrag: nat, size: nat, j: nat): (v: Vector)
    requires |data| == numFrag * size && j < size
    ensures |v| == numFrag
  {
    seq(numFrag, k requires 0 <= k < numFrag => Row(data, numFrag, size, k)[j])
  }

  /** The fragments are the Vandermonde image of the rows of the original. */
  lemma EncodingMaps(p: Word, original: seq<Word>, vec: seq<Word>, data: seq<Word>, numFrag: nat, size: nat, j: nat)
    requires |original| == size * numFrag && |data| == numFrag * size && |vec| == numFrag && j < size
    ensures Maps(p, VandermondeMatrix(p, vec), Row(original, size, numFrag, j), Column(data, numFrag, size, j))
       <==> forall k: nat :: k < numFrag ==>
              Row(data, numFrag, size, k)[j] == Symbol(p, original, vec[k], numFrag, size, j)
  {
    var x, y := Row(original, size, numFrag, j), Column(data, numFrag, size, j);
    var a := VandermondeMatrix(p, vec);
    forall k: nat | k < numFrag
      ensures y[k] == Row(data, numFrag, size, k)[j]
      ensures Dot(p, a[k], x) == Symbol(p, original, vec[k], numFrag, size, j)
    {
      DotComm(p, a[k], x);
    }
    if Maps(p, a, x, y) {
      forall k: nat | k < numFrag
        ensures Row(data, numFrag, size, k)[j] == Symbol(p, original, vec[k], numFrag, size, j)
      {
        assert y[k] == Dot(p, a[k], x);
      }
    }
  }

  lemma {:induction false} DotComm(p: Word, a: Vector, b: Vector)
    requires |a| == |b|
    ensures Dot(p, a, b) == Dot(p, b, a)
  {
    if a != [] { MulComm(p, a[0], b[0]); DotComm(p, a[1..], b[1..]); }
  }

  lemma CellsApart(n: nat, r: nat, c: nat, r': nat, c': nat)
    requires c < n && c' < n && r * n + c == r' * n + c'
    ensures r == r' && c == c'
  {
    assert r < r' ==> (r + 1) * n <= r' * n;
    assert r' < r ==> (r' + 1) * n <= r * n;
  }

  /** Writing one cell changes one entry of one row. */
  lemma CellWritten(s: seq<Word>, m: nat, n: nat, r: nat, c: nat, v: Word, r': nat, c': nat)
    requires |s| == m * n && r < m && c < n && r * n + c < |s| && r' < m && c' < n
    ensures Row(s[r * n + c := v], m, n, r')[c'] == if r == r' && c == c' then v else Row(s, m, n, r')[c']
  {
    hide Row;
    RowCell(s, m, n, r', c');
    RowCell(s[r * n + c := v], m, n, r', c');
    if r * n + c == r' * n + c' { CellsApart(n, r, c, r', c'); }
  }

  lemma {:induction false} SameRows(s: seq<Word>, t: seq<Word>, m: nat, n: nat)
    requires |s| == m * n == |t|
    requires forall r: nat, c: nat :: r < m && c < n ==> Row(s, m, n, r)[c] == Row(t, m, n, r)[c]
    ensures s == t
  {
    forall k | 0 <= k < |s| ensures s[k] == t[k] {
      var r, c := k / n, k % n;
      assert r * n + c == k;
      assert r >= m ==> r * n >= m * n;
      RowCell(s, m, n, r, c); RowCell(t, m, n, r, c);
    }
  }

  /** The matrix of powers, one row per fragment. */
  method FillMatrix(gbf: Tables, ghost p: Word, x: array<Word>, vec: array<Word>, numFrag: nat)
    requires gbf.Ready(p) && x != gbf.clmod && x != vec
    requires 0 < numFrag && vec.Length == numFrag && x.Length == numFrag * numFrag
    modifies x
    ensures MatrixOf(x[..], numFrag) == VandermondeMatrix(p, vec[..])
  {
    ghost var vs := vec[..];
    for i := 0 to numFrag
      invariant gbf.Ready(p) && vec[..] == vs
      invariant forall r: nat :: r < i ==> Row(x[..], numFrag, numFrag, r) == PowerRow(p, vs[r], numFrag)
    {
      CellFits(i, numFrag, 0, numFrag);
      ghost var before := x[..];
      var base := i * numFrag;
      FillPowers(gbf, p, x, base, vec[i], numFrag);
      ghost var after := x[..];
      forall r: nat | r < i + 1 ensures Row(after, numFrag, numFrag, r) == PowerRow(p, vs[r], numFrag) {
        if r < i { OtherRowsKept(before, after, numFrag, i, r); }
        else { assert Row(after, numFrag, numFrag, i) == after[base..base + numFrag]; }
      }
    }
  }

  /** The decoder's inner loop: column j of the fragments against row i of the inverse. */
  method DecodeCell(gbf: Tables, ghost p: Word, data: array<Word>, x: array<Word>, numFrag: nat, size: nat, i: nat,
                    j: nat)
    returns (v: Word)
    requires gbf.Ready(p) && data.Length == numFrag * size && x.Length == numFrag * numFrag
    requires i < numFrag && j < size
    ensures v == Dot(p, Column(data[..], numFrag, size, j), Row(x[..], numFrag, numFrag, i))
  {
    ghost var column, row := Column(data[..], numFrag, size, j), Row(x[..], numFrag, numFrag, i);
    v := 0;
    for k := 0 to numFrag
      invariant v == Dot(p, column[..k], row[..k])
    {
      DotPrefix(p, column, row, k);
      RowCell(data[..], numFrag, size, k, j);
      RowCell(x[..], numFrag, numFrag, i, k);
      var m := gbf.Mul(p, data[k * size + j], x[i * numFrag + k]);
      v := Add(v, m);
    }
    assert column[..numFrag] == column && row[..numFrag] == row;
  }

  /** The decoded cells of fragments before i, and the first j of fragment i. */
  ghost predicate Decoded(p: Word, out: seq<Word>, data: seq<Word>, x: seq<Word>, numFrag: nat, size: nat, i: nat,
                          j: nat)
    requires |out| == size * numFrag && |data| == numFrag * size && |x| == numFrag * numFrag
  {
    forall c: nat, r: nat :: c < numFrag && r < size && (c < i || (c == i && r < j)) ==>
      Row(out, size, numFrag, r)[c] == Dot(p, Column(data, numFrag, size, r), Row(x, numFrag, numFrag, c))
  }

  lemma DecodedNext(p: Word, out: seq<Word>, next: seq<Word>, data: seq<Word>, x: seq<Word>,
                    numFrag: nat, size: nat, i: nat, j: nat)
    requires |out| == size * numFrag == |next| && |data| == numFrag * size && |x| == numFrag * numFrag
    requires i < numFrag && j < size
    requires Decoded(p, out, data, x, numFrag, size, i, j)
    requires forall c: nat, r: nat :: c < numFrag && r < size ==>
               Row(next, size, numFrag, r)[c]
               == (if r == j && c == i then Dot(p, Column(data, numFrag, size, j), Row(x, numFrag, numFrag, i))
                   else Row(out, size, numFrag, r)[c])
    ensures Decoded(p, next, data, x, numFrag, size, i, j + 1)
  {}

  method WriteCell(ghost p: Word, out: array<Word>, v: Word, numFrag: nat, size: nat, i: nat, j: nat,
                   ghost data: seq<Word>, ghost x: seq<Word>)
    requires out.Length == size * numFrag && |data| == numFrag * size && |x| == numFrag * numFrag
    requires i < numFrag && j < size
    requires Decoded(p, out[..], data, x, numFrag, size, i, j)
    requires v == Dot(p, Column(data, numFrag, size, j), Row(x, numFrag, numFrag, i))
    modifies out
    ensures Decoded(p, out[..], data, x, numFrag, size, i, j + 1)
  {
    ghost var before := out[..];
    CellFits(j, size, i, numFrag);
    out[j * numFrag + i] := v;
    ghost var after := before[j * numFrag + i := v];
    forall c: nat, r: nat | c < numFrag && r < size
      ensures Row(after, size, numFrag, r)[c] == if r == j && c == i then v else Row(before, size, numFrag, r)[c]
    {
      CellWritten(before, size, numFrag, j, i, v, r, c);
    }
    DecodedNext(p, before, after, data, x, numFrag, size, i, j);
    assert out[..] == after;
  }

  /** What the decoder writes is the one original whose fragments it was given. */
  lemma DecodedIsOriginal(p: Word, out: seq<Word>, data: seq<Word>, vec: seq<Word>, x: seq<Word>, numFrag: nat,
                          size: nat)
    requires |out| == size * numFrag && |data| == numFrag * size && |vec| == numFrag && |x| == numFrag * numFrag
    requires Decoded(p, out, data, x, numFrag, size, numFrag, 0)
    requires MatrixInverse(p, VandermondeMatrix(p, vec), MatrixOf(x, numFrag), numFrag)
    ensures IsEncoding(p, out, vec, data, numFrag, size)
    ensures forall original: seq<Word> ::
              |original| == size * numFrag && IsEncoding(p, original, vec, data, numFrag, size) ==> original == out
  {
    forall j: nat, original: seq<Word> | j < size && |original| == size * numFrag
      ensures (forall k: nat :: k < numFrag ==>
                Row(data, numFrag, size, k)[j] == Symbol(p, original, vec[k], numFrag, size, j))
         <==> Row(original, size, numFrag, j) == Row(out, size, numFrag, j)
    {
      DecodedRow(p, out, data, vec, x, numFrag, size, original, j);
    }
    forall original: seq<Word> | |original| == size * numFrag && IsEncoding(p, original, vec, data, numFrag, size)
      ensures original == out
    {
      forall j: nat | j < size ensures Row(original, size, numFrag, j) == Row(out, size, numFrag, j) {
        assert forall k: nat :: k < numFrag ==>
          Row(data, numFrag, size, k)[j] == Symbol(p, original, vec[k], numFrag, size, j);
      }
      SameRows(original, out, size, numFrag);
    }
  }

  lemma DecodedRow(p: Word, out: seq<Word>, data: seq<Word>, vec: seq<Word>, x: seq<Word>, numFrag: nat, size: nat,
                   original: seq<Word>, j: nat)
    requires |out| == size * numFrag && |data| == numFrag * size && |vec| == numFrag && |x| == numFrag * numFrag
    requires Decoded(p, out, data, x, numFrag, size, numFrag, 0)
    requires MatrixInverse(p, VandermondeMatrix(p, vec), MatrixOf(x, numFrag), numFrag)
    requires j < size && |original| == size * numFrag
    ensures (forall k: nat :: k < numFrag ==>
              Row(data, numFrag, size, k)[j] == Symbol(p, original, vec[k], numFrag, size, j))
       <==> Row(original, size, numFrag, j) == Row(out, size, numFrag, j)
  {
    var a, b := VandermondeMatrix(p, vec), MatrixOf(x, numFrag);
    var row, column := Row(original, size, numFrag, j), Column(data, numFrag, size, j);
    EncodingMaps(p, original, vec, data, numFrag, size, j);
    assert Maps(p, a, row, column) <==> Maps(p, b, column, row);
    forall r | 0 <= r < numFrag ensures Row(out, size, numFrag, j)[r] == Dot(p, b[r], column) {
      DotComm(p, column, b[r]);
    }
  }

  /**
    Decoding: from numFrag fragments made with distinct vectors, the original and nothing else.
    The inversion never meets a zero pivot.
  */
  method Decode(gbf: Tables, ghost p: Word, out: array<Word>, data: array<Word>, vec: array<Word>, numFrag: nat,
                size: nat)
    requires gbf.Ready(p) && Irreducible(Modulus(p))
    requires out != gbf.clmod && out != data && out != vec
    requires numFrag > 0 && vec.Length == numFrag && Distinct(vec[..])
    requires out.Length == size * numFrag && data.Length == numFrag * size
    modifies out
    ensures IsEncoding(p, out[..], vec[..], data[..], numFrag, size)
    ensures forall original: seq<Word> ::
      |original| == size * numFrag && IsEncoding(p, original, vec[..], data[..], numFrag, size) ==> original == out[..]
  {
    CellFits(0, numFrag, 0, numFrag);
    var x := new Word[numFrag * numFrag];
    FillMatrix(gbf, p, x, vec, numFrag);
    ghost var vs, d := vec[..], data[..];
    forall k: nat | k <= numFrag ensures LeadingRegular(p, VandermondeMatrix(p, vs), k, numFrag) {
      VandermondeRegular(p, vs, k);
    }
    var ok := InvMatrix(gbf, p, x, numFrag);
    assert ok;
    ghost var inverse := x[..];

    for i := 0 to numFrag
      invariant gbf.Ready(p) && x[..] == inverse && data[..] == d && vec[..] == vs
      invariant Decoded(p, out[..], d, inverse, numFrag, size, i, 0)
    {
      for j := 0 to size
        invariant gbf.Ready(p) && x[..] == inverse && data[..] == d && vec[..] == vs
        invariant Decoded(p, out[..], d, inverse, numFrag, size, i, j)
      {
        var v := DecodeCell(gbf, p, data, x, numFrag, size, i, j);
        WriteCell(p, out, v, numFrag, size, i, j, d, inverse);
      }
    }
    DecodedIsOriginal(p, out[..], d, vs, inverse, numFrag, size);
  }
}
