/**
 * Piece shapes as rectangular matrices, and `rotateMatrix`: the clockwise
 * quarter turn that maps every column, read bottom-up, to a row.
 */
module Shapes {

  /** A non-empty matrix whose rows all have the length of the first. */
  predicate IsMatrix<T>(m: seq<seq<T>>) {
    |m| > 0 && forall r :: 0 <= r < |m| ==> |m[r]| == |m[0]|
  }

  /** A shape has at least one row and one column, so it can be rotated again. */
  predicate IsShape<T>(m: seq<seq<T>>) {
    IsMatrix(m) && |m[0]| > 0
  }

  /** `Array.prototype.reverse`, on a value. */
  function Reverse<T>(s: seq<T>): (r: seq<T>)
    ensures |r| == |s|
    ensures forall k :: 0 <= k < |s| ==> r[k] == s[|s| - 1 - k]
  {
    if s == [] then [] else Reverse(s[1..]) + [s[0]]
  }

  /** `matrix.map(row => row[index])`. */
  function Column<T>(m: seq<seq<T>>, i: nat): (col: seq<T>)
    requires forall r :: 0 <= r < |m| ==> i < |m[r]|
    ensures |col| == |m|
  {
    seq(|m|, r requires 0 <= r < |m| => m[r][i])
  }

  /**
   * `rotateMatrix`: row `i` of the result is column `i` of `m`, reversed.
   * The first row must exist, because the source maps over `matrix[0]`.
   */
  function RotateMatrix<T>(m: seq<seq<T>>): (r: seq<seq<T>>)
    requires IsMatrix(m)
    ensures |r| == |m[0]|
    ensures forall i :: 0 <= i < |r| ==> |r[i]| == |m|
    ensures forall i, j :: 0 <= i < |r| && 0 <= j < |m| ==> r[i][j] == m[|m| - 1 - j][i]
  {
    var r := seq(|m[0]|, i requires 0 <= i < |m[0]| => Reverse(Column(m, i)));
    assert forall i :: 0 <= i < |r| ==> r[i] == Reverse(Column(m, i));
    r
  }

  /** Rotating a shape gives a shape again (R x C becomes C x R). */
  lemma RotateIsShape<T>(m: seq<seq<T>>)
    requires IsShape(m)
    ensures IsShape(RotateMatrix(m))
    ensures |RotateMatrix(m)| == |m[0]| && |RotateMatrix(m)[0]| == |m|
  {
  }

  /** Two quarter turns are a half turn: the shape is flipped both ways. */
  lemma RotateTwice<T>(m: seq<seq<T>>)
    requires IsShape(m)
    ensures var r := RotateMatrix(RotateMatrix(m));
      IsShape(r) && |r| == |m| && |r[0]| == |m[0]| &&
      forall i, j :: 0 <= i < |m| && 0 <= j < |m[0]| ==> r[i][j] == m[|m| - 1 - i][|m[0]| - 1 - j]
  {
    RotateIsShape(m);
    var r1 := RotateMatrix(m);
    RotateIsShape(r1);
    var r2 := RotateMatrix(r1);
    forall i, j | 0 <= i < |m| && 0 <= j < |m[0]|
      ensures r2[i][j] == m[|m| - 1 - i][|m[0]| - 1 - j]
    {
      assert r2[i][j] == r1[|r1| - 1 - j][i];
    }
  }

  /** Four clockwise quarter turns give back the original shape. */
  lemma {:induction false} RotateFourTimes<T>(m: seq<seq<T>>)
    requires IsShape(m)
    ensures RotateMatrix(RotateMatrix(RotateMatrix(RotateMatrix(m)))) == m
  {
    RotateTwice(m);
    var r2 := RotateMatrix(RotateMatrix(m));
    RotateTwice(r2);
    var r4 := RotateMatrix(RotateMatrix(r2));
    forall i | 0 <= i < |m|
      ensures r4[i] == m[i]
    {
      assert |r4[i]| == |m[i]|;
    }
  }


  // ---- occupied cells ----

  function B2I(b: bool): nat {
    if b then 1 else 0
  }

  /** Number of occupied cells in one row (counted from the back). */
  function RowCount(s: seq<bool>): nat {
    if s == [] then 0 else RowCount(s[..|s| - 1]) + B2I(s[|s| - 1])
  }

  /** Number of occupied cells of a matrix (counted over its rows, from the back). */
  function Count(m: seq<seq<bool>>): nat {
    if m == [] then 0 else Count(m[..|m| - 1]) + RowCount(m[|m| - 1])
  }

  /** Occupied cells of columns 0 .. n-1. */
  function ColumnsCount(m: seq<seq<bool>>, n: nat): nat
    requires forall r :: 0 <= r < |m| ==> n <= |m[r]|
  {
    if n == 0 then 0 else ColumnsCount(m, n - 1) + RowCount(Column(m, n - 1))
  }

  lemma {:induction false} RowCountAppend(a: seq<bool>, b: seq<bool>)
    ensures RowCount(a + b) == RowCount(a) + RowCount(b)
    decreases |b|
  {
    if b == [] {
      assert a + b == a;
    } else {
      assert (a + b)[..|a + b| - 1] == a + b[..|b| - 1];
      RowCountAppend(a, b[..|b| - 1]);
    }
  }

  lemma {:induction false} RowCountReverse(s: seq<bool>)
    ensures RowCount(Reverse(s)) == RowCount(s)
    decreases |s|
  {
    if s != [] {
      RowCountReverse(s[1..]);
      assert Reverse(s) == Reverse(s[1..]) + [s[0]];
      RowCountAppend(Reverse(s[1..]), [s[0]]);
      assert [s[0]][..0] == [];
      assert s == [s[0]] + s[1..];
      RowCountAppend([s[0]], s[1..]);
    }
  }

  /** Counting a prefix of the rotated rows is counting the same columns. */
  lemma {:induction false} RotatedPrefixCount(m: seq<seq<bool>>, n: nat)
    requires IsMatrix(m) && n <= |m[0]|
    ensures Count(RotateMatrix(m)[..n]) == ColumnsCount(m, n)
  {
    var r := RotateMatrix(m);
    if n > 0 {
      RotatedPrefixCount(m, n - 1);
      assert r[..n][..n - 1] == r[..n - 1];
      assert r[n - 1] == Reverse(Column(m, n - 1));
      RowCountReverse(Column(m, n - 1));
    } else {
      assert r[..n] == [];
    }
  }

  /** Adding a last row adds that row's first n cells to the column counts. */
  lemma {:induction false} ColumnsCountLastRow(m: seq<seq<bool>>, n: nat)
    requires |m| > 0
    requires forall r :: 0 <= r < |m| ==> n <= |m[r]|
    ensures ColumnsCount(m, n) == ColumnsCount(m[..|m| - 1], n) + RowCount(m[|m| - 1][..n])
  {
    var init, last := m[..|m| - 1], m[|m| - 1];
    if n > 0 {
      ColumnsCountLastRow(m, n - 1);
      var c := Column(m, n - 1);
      assert c[..|c| - 1] == Column(init, n - 1);
      assert c[|c| - 1] == last[n - 1];
      assert last[..n][..n - 1] == last[..n - 1];
    } else {
      assert last[..0] == [];
    }
  }

  /** Counting a matrix by rows or by columns gives the same number. */
  lemma {:induction false} CountByColumns(m: seq<seq<bool>>, w: nat)
    requires forall r :: 0 <= r < |m| ==> |m[r]| == w
    ensures Count(m) == ColumnsCount(m, w)
    decreases |m|
  {
    if m == [] {
      ColumnsCountEmpty(m, w);
    } else {
      CountByColumns(m[..|m| - 1], w);
      ColumnsCountLastRow(m, w);
      assert m[|m| - 1][..w] == m[|m| - 1];
    }
  }

  lemma {:induction false} ColumnsCountEmpty(m: seq<seq<bool>>, n: nat)
    requires m == []
    ensures ColumnsCount(m, n) == 0
  {
    if n > 0 {
      ColumnsCountEmpty(m, n - 1);
      assert Column(m, n - 1) == [];
    }
  }

  /** `rotateMatrix` neither adds nor loses occupied cells. */
  lemma RotatePreservesCount(m: seq<seq<bool>>)
    requires IsMatrix(m)
    ensures Count(RotateMatrix(m)) == Count(m)
  {
    var r := RotateMatrix(m);
    RotatedPrefixCount(m, |m[0]|);
    assert r[..|m[0]|] == r;
    CountByColumns(m, |m[0]|);
  }
}
