/** The "implicit" kernels: the sequential algorithms written so that the
    compiler may vectorise them, a blocked transpose and a cache-oblivious
    quadrant recursion. The block size is a parameter here; the source reads it
    from the global configuration. */
module Implicit {
  import opened Matrices
  import opened Tiling

  /** is_symmetric_implicit: the same row-major scan of the strict lower
      triangle as the sequential kernel, returning false at the first mismatch. */
  method IsSymmetricImplicit(matrix: array2<int>) returns (symmetric: bool, ghost stop: (int, int))
    requires IsSquareArray(matrix)
    ensures symmetric <==> IsSymmetric(Rows(matrix))
    ensures !symmetric ==>
      0 <= stop.1 < stop.0 < matrix.Length0 &&
      matrix[stop.0, stop.1] != matrix[stop.1, stop.0] &&
      LowerMatchesBefore(Rows(matrix), stop.0, stop.1)
  {
    var n := matrix.Length0;
    for i := 0 to n
      invariant LowerMatchesBefore(Rows(matrix), i, 0)
    {
      for j := 0 to i
        invariant LowerMatchesBefore(Rows(matrix), i, j)
      {
        if matrix[i, j] != matrix[j, i] {
          assert Rows(matrix)[i][j] != Rows(matrix)[j][i];
          return false, (i, j);
        }
      }
    }
    LowerMatchesAll(Rows(matrix));
    return true, (n, 0);
  }

  /** transpose_implicit: result[i][j] = matrix[j][i] for every i, j < n. */
  method TransposeImplicit(matrix: array2<int>) returns (result: array2<int>)
    requires IsSquareArray(matrix)
    ensures fresh(result)
    ensures TransposedInto(result, matrix)
    ensures Rows(result) == Transpose(Rows(matrix))
  {
    var n := matrix.Length0;
    result := new int[n, n];
    for i := 0 to n
      invariant forall r, c :: 0 <= r < i && 0 <= c < n ==> result[r, c] == matrix[c, r]
    {
      for j := 0 to n
        invariant forall r, c :: 0 <= r < i && 0 <= c < n ==> result[r, c] == matrix[c, r]
        invariant forall c :: 0 <= c < j ==> result[i, c] == matrix[c, i]
      {
        result[i, j] := matrix[j, i];
      }
    }
    TransposedIntoRows(result, matrix);
  }

  /** transpose_implicit_block_based: blockSize x blockSize tiles in row-major
      tile order, each clipped at n, so any n works, including n not a
      multiple of the block size. A block size below 1 would never advance
      the tile loops, hence the precondition. */
  method TransposeImplicitBlockBased(matrix: array2<int>, blockSize: int) returns (result: array2<int>)
    requires IsSquareArray(matrix) && 1 <= blockSize
    ensures fresh(result)
    ensures TransposedInto(result, matrix)
    ensures Rows(result) == Transpose(Rows(matrix))
  {
    var n := matrix.Length0;
    result := new int[n, n];
    var i := 0;
    while i < n
      invariant 0 <= i
      invariant forall r, c :: 0 <= r < n && r < i && 0 <= c < n ==> result[r, c] == matrix[c, r]
    {
      var j := 0;
      while j < n
        invariant 0 <= j
        invariant forall r, c :: 0 <= r < n && r < i && 0 <= c < n ==> result[r, c] == matrix[c, r]
        invariant forall r, c :: i <= r < Min(i + blockSize, n) && 0 <= c < n && c < j ==> result[r, c] == matrix[c, r]
      {
        TransposeTile(matrix, result, i, Min(i + blockSize, n), j, Min(j + blockSize, n));
        j := j + blockSize;
      }
      i := i + blockSize;
    }
    TransposedIntoRows(result, matrix);
  }

  /** transpose_implicit_recursive: writes transposed[j][i] = original[i][j]
      exactly for the cells (i, j) that `Covered` describes, and nothing else.
      `n` is passed along but, as in the source, never used. A negative block
      size would recurse forever on windows of side 0. */
  method TransposeImplicitRecursive(original: array2<int>, transposed: array2<int>,
                                    startRow: int, startCol: int, size: int, n: int, blockSize: int)
    requires IsSquareArray(original) && original.Length0 == n
    requires transposed.Length0 == transposed.Length1 == n && original != transposed
    requires 0 <= size && 0 <= blockSize
    requires 0 <= startRow && startRow + size <= n && 0 <= startCol && startCol + size <= n
    modifies transposed
    ensures Rows(transposed) == Recursed(old(Rows(transposed)), Rows(original), startRow, startCol, size, blockSize)
    decreases size, 1
  {
    ghost var before := Rows(transposed);
    if size <= blockSize {
      TransposeWindow(original, transposed, startRow, startCol, size, n);
      RecursedBase(Rows(transposed), before, Rows(original), startRow, startCol, size, blockSize);
    } else {
      ImplicitQuadrants(original, transposed, startRow, startCol, size, n, blockSize);
    }
  }

  /** The recursive case of transpose_implicit_recursive: the four quadrant
      calls in order, which together have the effect of the call on the whole
      window. */
  method ImplicitQuadrants(original: array2<int>, transposed: array2<int>,
                           startRow: int, startCol: int, size: int, n: int, blockSize: int)
    requires IsSquareArray(original) && original.Length0 == n
    requires transposed.Length0 == transposed.Length1 == n && original != transposed
    requires 0 <= blockSize < size
    requires 0 <= startRow && startRow + size <= n && 0 <= startCol && startCol + size <= n
    modifies transposed
    ensures Rows(transposed) == Recursed(old(Rows(transposed)), Rows(original), startRow, startCol, size, blockSize)
    decreases size, 0
  {
    ghost var before := Rows(transposed);
    var halfSize := size / 2;
    assert 0 <= halfSize && halfSize + halfSize <= size;
    ImplicitQuadrantRow(original, transposed, startRow, startCol, halfSize, n, blockSize);
    ImplicitQuadrantRow(original, transposed, startRow + halfSize, startCol, halfSize, n, blockSize);
    RecursedQuadrants(before, Rows(original), startRow, startCol, size, blockSize);
  }

  /** Two of the four quadrant calls: the quadrant at (row, col), then its
      right-hand neighbour. */
  method ImplicitQuadrantRow(original: array2<int>, transposed: array2<int>,
                             row: int, col: int, halfSize: int, n: int, blockSize: int)
    requires IsSquareArray(original) && original.Length0 == n
    requires transposed.Length0 == transposed.Length1 == n && original != transposed
    requires 0 <= halfSize && 0 <= blockSize
    requires 0 <= row && row + halfSize <= n && 0 <= col && col + halfSize + halfSize <= n
    modifies transposed
    ensures Rows(transposed) ==
      Recursed(Recursed(old(Rows(transposed)), Rows(original), row, col, halfSize, blockSize),
               Rows(original), row, col + halfSize, halfSize, blockSize)
    decreases halfSize, 2
  {
    TransposeImplicitRecursive(original, transposed, row, col, halfSize, n, blockSize);
    TransposeImplicitRecursive(original, transposed, row, col + halfSize, halfSize, n, blockSize);
  }

  /** transpose_implicit_cache_oblivious: runs the recursion on the whole
      matrix. Every cell the recursion covers holds the transpose; when n is a
      power of two (and the block size positive) or n fits in one block, that
      is every cell. Cells the recursion misses keep whatever the allocation
      left there. */
  method TransposeImplicitCacheOblivious(matrix: array2<int>, blockSize: int) returns (result: array2<int>)
    requires IsSquareArray(matrix) && 0 <= blockSize
    ensures fresh(result) && result.Length0 == result.Length1 == matrix.Length0
    ensures forall i, j ::
      (0 <= i < matrix.Length0 && 0 <= j < matrix.Length0 && Covered(i, j, 0, 0, matrix.Length0, blockSize))
      ==> result[j, i] == matrix[i, j]
    ensures matrix.Length0 <= blockSize || (IsPowerOfTwo(matrix.Length0) && 1 <= blockSize) ==>
      Rows(result) == Transpose(Rows(matrix))
  {
    var n := matrix.Length0;
    result := new int[n, n];
    TransposeImplicitRecursive(matrix, result, 0, 0, n, n, blockSize);
    forall i, j | 0 <= i < n && 0 <= j < n && Covered(i, j, 0, 0, n, blockSize) ensures result[j, i] == matrix[i, j] {
      assert result[j, i] == Rows(result)[j][i];
    }
    if n <= blockSize || (IsPowerOfTwo(n) && 1 <= blockSize) {
      forall i, j | 0 <= i < n && 0 <= j < n ensures result[j, i] == matrix[i, j] {
        CoveredWholeWindow(i, j, 0, 0, n, blockSize);
        assert result[j, i] == Rows(result)[j][i];
      }
      TransposedIntoRows(result, matrix);
    }
  }
}
