/** The matrix store shared by every kernel: square matrices as values
    (`seq<seq<int>>`), the reading of a 2-D array as such a value, the
    transpose and symmetry predicates every kernel is judged against, and the
    row-major flat layout used by the message-passing kernels.

    Elements are `int`: the kernels only copy elements and compare them with
    `==` / `!=`, so any type with equality would do. */
module Matrices {

  type Matrix = seq<seq<int>>

  /** Every row of `m` has exactly `cols` entries. */
  predicate Rect(m: Matrix, cols: int) {
    forall i :: 0 <= i < |m| ==> |m[i]| == cols
  }

  /** `m` is an n-by-n matrix with n = |m|. */
  predicate Square(m: Matrix) {
    Rect(m, |m|)
  }

  /** The reference transpose: entry (i, j) of the result is entry (j, i) of `m`. */
  function Transpose(m: Matrix): (t: Matrix)
    requires Square(m)
    ensures Square(t) && |t| == |m|
  {
    seq(|m|, i requires 0 <= i < |m| => seq(|m|, j requires 0 <= j < |m| => m[j][i]))
  }

  /** Symmetry as the kernels test it: every strictly-lower entry equals its mirror.
      The diagonal is never compared. */
  predicate IsSymmetric(m: Matrix)
    requires Square(m)
  {
    forall i, j :: 0 <= j < i < |m| ==> m[i][j] == m[j][i]
  }

  /** Every strictly-lower pair (i, j) that a row-major scan meets before
      position (r, c) matches its mirror: rows above r, and the first c
      entries of row r. */
  predicate LowerMatchesBefore(m: Matrix, r: int, c: int)
    requires Square(m)
  {
    forall i, j :: 0 <= j < i < |m| && (i < r || (i == r && j < c)) ==> m[i][j] == m[j][i]
  }

  /** Having scanned every row, the scan has seen the whole strict lower triangle. */
  lemma {:induction false} LowerMatchesAll(m: Matrix)
    requires Square(m)
    ensures LowerMatchesBefore(m, |m|, 0) <==> IsSymmetric(m)
  {
  }

  /** The value held by a 2-D array, row by row. */
  ghost function Rows(a: array2<int>): (m: Matrix)
    reads a
    ensures |m| == a.Length0 && Rect(m, a.Length1)
  {
    seq(a.Length0, i requires 0 <= i < a.Length0 reads a =>
      seq(a.Length1, j requires 0 <= j < a.Length1 reads a => a[i, j]))
  }

  ghost predicate IsSquareArray(a: array2<int>) reads a {
    a.Length0 == a.Length1
  }

  /** `result` holds the transpose of the square array `matrix`, cell by cell. */
  ghost predicate TransposedInto(result: array2<int>, matrix: array2<int>)
    reads result, matrix
  {
    IsSquareArray(matrix) && result.Length0 == result.Length1 == matrix.Length0 &&
    forall i, j :: 0 <= i < matrix.Length0 && 0 <= j < matrix.Length0 ==> result[i, j] == matrix[j, i]
  }

  /** A cell-by-cell transpose is the transpose of the matrix value. */
  lemma {:induction false} TransposedIntoRows(result: array2<int>, matrix: array2<int>)
    requires TransposedInto(result, matrix)
    ensures Rows(result) == Transpose(Rows(matrix))
  {
    var t := Transpose(Rows(matrix));
    forall i | 0 <= i < result.Length0 ensures Rows(result)[i] == t[i] {
    }
  }

  /** Transposing twice gives the matrix back. */
  lemma {:induction false} TransposeInvolution(m: Matrix)
    requires Square(m)
    ensures Transpose(Transpose(m)) == m
  {
    var t := Transpose(Transpose(m));
    forall i | 0 <= i < |m| ensures t[i] == m[i] {
      assert |t[i]| == |m[i]|;
    }
  }

  /** The symmetry test holds exactly when the matrix is its own transpose:
      the lower triangle decides the upper one and the diagonal is trivially equal. */
  lemma {:induction false} SymmetricIffTransposeFixed(m: Matrix)
    requires Square(m)
    ensures IsSymmetric(m) <==> Transpose(m) == m
  {
    if IsSymmetric(m) {
      var t := Transpose(m);
      forall i | 0 <= i < |m| ensures t[i] == m[i] {
        forall j | 0 <= j < |m| ensures t[i][j] == m[i][j] {
          if j < i {
            assert m[i][j] == m[j][i];
          } else if i < j {
            assert m[j][i] == m[i][j];
          }
        }
      }
    }
    if Transpose(m) == m {
      forall i, j | 0 <= j < i < |m| ensures m[i][j] == m[j][i] {
        assert Transpose(m)[i][j] == m[j][i];
      }
    }
  }

  // ---------------------------------------------------------------------
  // Row-major flat layout

  lemma {:induction false} MulLe(a: int, b: int, c: int)
    requires a <= b && 0 <= c
    ensures a * c <= b * c
  {
    assert b * c - a * c == (b - a) * c;
  }

  /** Row i of a rows-by-cols flat buffer occupies [i*cols, i*cols + cols). */
  lemma {:induction false} RowSpan(i: int, rows: int, cols: int)
    requires 0 <= i < rows && 0 <= cols
    ensures 0 <= i * cols && i * cols + cols <= rows * cols
  {
    MulLe(0, i, cols);
    MulLe(i + 1, rows, cols);
    assert (i + 1) * cols == i * cols + cols;
  }

  /** Row-major position arithmetic: (i, j) with j < cols lives at i*cols + j,
      and that position determines i and j. */
  lemma {:induction false} RowMajorIndex(i: int, j: int, rows: int, cols: int)
    requires 0 <= i < rows && 0 <= j < cols
    ensures 0 <= i * cols + j < rows * cols
    ensures (i * cols + j) / cols == i && (i * cols + j) % cols == j
  {
    RowSpan(i, rows, cols);
    var k := i * cols + j;
    var q, r := k / cols, k % cols;
    assert q * cols + r == k;
    assert (q - i) * cols == j - r;
    if q > i {
      MulLe(1, q - i, cols);
    } else if q < i {
      MulLe(1, i - q, cols);
    }
  }

  /** Every flat position below rows*cols splits into a row below `rows`
      and a column below `cols`. */
  lemma {:induction false} RowMajorSplit(k: int, rows: int, cols: int)
    requires 0 <= k < rows * cols && 0 < cols
    ensures 0 <= k / cols < rows && 0 <= k % cols < cols
    ensures k == (k / cols) * cols + k % cols
  {
    if k / cols >= rows {
      MulLe(rows, k / cols, cols);
    }
  }

  /** The row-major flat layout of a matrix with `cols` columns. */
  function Flatten(m: Matrix, cols: nat): (flat: seq<int>)
    requires Rect(m, cols)
    ensures |flat| == |m| * cols
  {
    seq(|m| * cols, k requires 0 <= k < |m| * cols =>
      RowMajorSplit(k, |m|, cols); m[k / cols][k % cols])
  }

  /** Row i of a flat buffer of `rows` rows of `cols` entries. */
  function RowOf(flat: seq<int>, rows: nat, cols: nat, i: nat): (row: seq<int>)
    requires |flat| == rows * cols && i < rows
    ensures |row| == cols
  {
    RowSpan(i, rows, cols);
    flat[i * cols .. i * cols + cols]
  }

  /** Reading a flat buffer back as `rows` rows of `cols` entries. */
  function Unflatten(flat: seq<int>, rows: nat, cols: nat): (m: Matrix)
    requires |flat| == rows * cols
    ensures |m| == rows && Rect(m, cols)
  {
    seq(rows, i requires 0 <= i < rows => RowOf(flat, rows, cols, i))
  }

  lemma {:induction false} FlattenAt(m: Matrix, cols: nat, i: int, j: int)
    requires Rect(m, cols) && 0 <= i < |m| && 0 <= j < cols
    ensures 0 <= i * cols + j < |Flatten(m, cols)|
    ensures Flatten(m, cols)[i * cols + j] == m[i][j]
  {
    RowMajorIndex(i, j, |m|, cols);
  }

  lemma {:induction false} UnflattenAt(flat: seq<int>, rows: nat, cols: nat, i: int, j: int)
    requires |flat| == rows * cols && 0 <= i < rows && 0 <= j < cols
    ensures 0 <= i * cols + j < |flat|
    ensures Unflatten(flat, rows, cols)[i][j] == flat[i * cols + j]
  {
    RowSpan(i, rows, cols);
    var base := i * cols;
    var row := RowOf(flat, rows, cols, i);
    assert row == flat[base .. base + cols];
    assert row[j] == flat[base + j];
    assert Unflatten(flat, rows, cols)[i] == row;
  }

  /** Reading back a flattened matrix gives the matrix. */
  lemma {:induction false} UnflattenFlatten(m: Matrix, cols: nat)
    requires Rect(m, cols)
    ensures Unflatten(Flatten(m, cols), |m|, cols) == m
  {
    var u := Unflatten(Flatten(m, cols), |m|, cols);
    forall i | 0 <= i < |m| ensures u[i] == m[i] {
      forall j | 0 <= j < cols ensures u[i][j] == m[i][j] {
        UnflattenAt(Flatten(m, cols), |m|, cols, i, j);
        FlattenAt(m, cols, i, j);
      }
    }
  }

  /** Flattening a read-back buffer gives the buffer. */
  lemma {:induction false} FlattenUnflatten(flat: seq<int>, rows: nat, cols: nat)
    requires |flat| == rows * cols
    ensures Flatten(Unflatten(flat, rows, cols), cols) == flat
  {
    var f := Flatten(Unflatten(flat, rows, cols), cols);
    forall k | 0 <= k < |flat| ensures f[k] == flat[k] {
      RowMajorSplit(k, rows, cols);
      UnflattenAt(flat, rows, cols, k / cols, k % cols);
    }
  }
}
