/** The shared-memory (OpenMP) kernels, run sequentially. Every output cell is
    written by exactly one iteration, tile or task, and every write stores
    matrix[c][r] into result[r][c], so the thread schedule cannot change the
    result; the symmetry flag is only ever lowered, so its reduction is a
    logical AND whose order does not matter. */
module Omp {
  import opened Matrices
  import opened Tiling

  /** is_symmetric_omp: the flag starts true and a mismatching pair only ever
      sets it to false, so the final flag is the AND of all comparisons.
      Cancellation only lets threads stop early; it is not modelled, and the
      scan here visits every pair. */
  method IsSymmetricOmp(matrix: array2<int>) returns (isSymmetric: bool)
    requires IsSquareArray(matrix)
    ensures isSymmetric <==> IsSymmetric(Rows(matrix))
  {
    var n := matrix.Length0;
    isSymmetric := true;
    for i := 0 to n
      invariant isSymmetric <==> LowerMatchesBefore(Rows(matrix), i, 0)
    {
      for j := 0 to i
        invariant isSymmetric <==> LowerMatchesBefore(Rows(matrix), i, j)
      {
        if matrix[i, j] != matrix[j, i] {
          assert Rows(matrix)[i][j] != Rows(matrix)[j][i];
          isSymmetric := false;
        }
      }
    }
    LowerMatchesAll(Rows(matrix));
  }

  /** Rows [lo, hi) of the strict lower triangle match their mirrors: the
      private flag of a thread that was given those rows. */
  predicate BandMatches(m: Matrix, lo: int, hi: int)
    requires Square(m)
  {
    forall i, j :: lo <= i < hi && 0 <= j < i < |m| ==> m[i][j] == m[j][i]
  }

  /** `bounds` cuts the rows [0, n) into consecutive bands, one per thread. */
  predicate IsRowPartition(bounds: seq<int>, n: int) {
    |bounds| >= 1 && bounds[0] == 0 && bounds[|bounds| - 1] == n &&
    forall k :: 0 <= k < |bounds| - 1 ==> bounds[k] <= bounds[k + 1]
  }

  /** The `&&` reduction of the threads' private flags. */
  function AndReduce(m: Matrix, bounds: seq<int>): bool
    requires Square(m)
    decreases |bounds|
  {
    if |bounds| <= 1 then true
    else BandMatches(m, bounds[0], bounds[1]) && AndReduce(m, bounds[1..])
  }

  lemma {:induction false} AndReduceBands(m: Matrix, bounds: seq<int>)
    requires Square(m) && |bounds| >= 1
    requires forall k :: 0 <= k < |bounds| - 1 ==> bounds[k] <= bounds[k + 1]
    ensures AndReduce(m, bounds) == BandMatches(m, bounds[0], bounds[|bounds| - 1])
    decreases |bounds|
  {
    if |bounds| > 1 {
      var rest := bounds[1..];
      AndReduceBands(m, rest);
      assert rest[|rest| - 1] == bounds[|bounds| - 1];
      assert bounds[0] <= bounds[1];
      MonotoneBounds(rest);
      assert bounds[1] <= bounds[|bounds| - 1];
    }
  }

  lemma {:induction false} MonotoneBounds(bounds: seq<int>)
    requires |bounds| >= 1
    requires forall k :: 0 <= k < |bounds| - 1 ==> bounds[k] <= bounds[k + 1]
    ensures bounds[0] <= bounds[|bounds| - 1]
    decreases |bounds|
  {
    if |bounds| > 1 {
      MonotoneBounds(bounds[1..]);
    }
  }

  /** However the rows are split into bands among the threads, the reduced
      flag is the symmetry of the matrix. */
  lemma {:induction false} ReductionIsSymmetry(m: Matrix, bounds: seq<int>)
    requires Square(m) && IsRowPartition(bounds, |m|)
    ensures AndReduce(m, bounds) <==> IsSymmetric(m)
  {
    AndReduceBands(m, bounds);
  }

  /** transpose_omp: result[i][j] = matrix[j][i] over the collapsed i, j loops. */
  method TransposeOmp(matrix: array2<int>) returns (result: array2<int>)
    requires IsSquareArray(matrix)
    ensures fresh(result)
    ensures TransposedInto(result, matrix)
    ensures Rows(result) == Transpose(Rows(matrix))
  {
    var n := matrix.Length0;
    result := new int[n, n];
    for i := 0 to n
      invariant forall r, c :: 0 <= r < i && 0 <= c < n ==> result[r, c] == matrix[c, r]
    {
      for j := 0 to n
        invariant forall r, c :: 0 <= r < i && 0 <= c < n ==> result[r, c] == matrix[c, r]
        invariant forall c :: 0 <= c < j ==> result[i, c] == matrix[c, i]
      {
        result[i, j] := matrix[j, i];
      }
    }
    TransposedIntoRows(result, matrix);
  }

  /** transpose_omp_block_based: blockSize x blockSize tiles clipped at n,
      handed out dynamically; run here in row-major tile order. */
  method TransposeOmpBlockBased(matrix: array2<int>, blockSize: int) returns (result: array2<int>)
    requires IsSquareArray(matrix) && 1 <= blockSize
    ensures fresh(result)
    ensures TransposedInto(result, matrix)
    ensures Rows(result) == Transpose(Rows(matrix))
  {
    var n := matrix.Length0;
    result := new int[n, n];
    var i := 0;
    while i < n
      invariant 0 <= i
      invariant forall r, c :: 0 <= r < n && r < i && 0 <= c < n ==> result[r, c] == matrix[c, r]
    {
      var j := 0;
      while j < n
        invariant 0 <= j
        invariant forall r, c :: 0 <= r < n && r < i && 0 <= c < n ==> result[r, c] == matrix[c, r]
        invariant forall r, c :: i <= r < Min(i + blockSize, n) && 0 <= c < n && c < j ==> result[r, c] == matrix[c, r]
      {
        TransposeTile(matrix, result, i, Min(i + blockSize, n), j, Min(j + blockSize, n));
        j := j + blockSize;
      }
      i := i + blockSize;
    }
    TransposedIntoRows(result, matrix);
  }

  /** transpose_omp_tile_distributed: the same clipped tiles, with rows of
      tiles assigned to threads statically; run here in row-major tile order. */
  method TransposeOmpTileDistributed(matrix: array2<int>, tileSize: int) returns (result: array2<int>)
    requires IsSquareArray(matrix) && 1 <= tileSize
    ensures fresh(result)
    ensures TransposedInto(result, matrix)
    ensures Rows(result) == Transpose(Rows(matrix))
  {
    var n := matrix.Length0;
    result := new int[n, n];
    var i := 0;
    while i < n
      invariant 0 <= i
      invariant forall r, c :: 0 <= r < n && r < i && 0 <= c < n ==> result[r, c] == matrix[c, r]
    {
      var j := 0;
      while j < n
        invariant 0 <= j
        invariant forall r, c :: 0 <= r < n && r < i && 0 <= c < n ==> result[r, c] == matrix[c, r]
        invariant forall r, c :: i <= r < Min(i + tileSize, n) && 0 <= c < n && c < j ==> result[r, c] == matrix[c, r]
      {
        TransposeTile(matrix, result, i, Min(i + tileSize, n), j, Min(j + tileSize, n));
        j := j + tileSize;
      }
      i := i + tileSize;
    }
    TransposedIntoRows(result, matrix);
  }

  /** transpose_omp_tasks: one thread enumerates the tiles and spawns one task
      per tile covering [i, max_ii) x [j, max_jj); the taskwait joins them
      all. Each task is run here as soon as it is spawned. */
  method TransposeOmpTasks(matrix: array2<int>, tileSize: int) returns (result: array2<int>)
    requires IsSquareArray(matrix) && 1 <= tileSize
    ensures fresh(result)
    ensures TransposedInto(result, matrix)
    ensures Rows(result) == Transpose(Rows(matrix))
  {
    var n := matrix.Length0;
    result := new int[n, n];
    var i := 0;
    while i < n
      invariant 0 <= i
      invariant forall r, c :: 0 <= r < n && r < i && 0 <= c < n ==> result[r, c] == matrix[c, r]
    {
      var maxRow := if i + tileSize > n then n else i + tileSize;
      var j := 0;
      while j < n
        invariant 0 <= j
        invariant forall r, c :: 0 <= r < n && r < i && 0 <= c < n ==> result[r, c] == matrix[c, r]
        invariant forall r, c :: i <= r < maxRow && 0 <= c < n && c < j ==> result[r, c] == matrix[c, r]
      {
        var maxCol := if j + tileSize > n then n else j + tileSize;
        TransposeTile(matrix, result, i, maxRow, j, maxCol);
        j := j + tileSize;
      }
      i := i + tileSize;
    }
    TransposedIntoRows(result, matrix);
  }

  /** transpose_recursive: the quadrant recursion, its four quadrant calls
      spawned as tasks and joined; run here in spawn order. The quadrants
      reach disjoint cells (Tiling.QuadrantsDisjoint), so the order is
      immaterial. */
  method TransposeRecursive(original: array2<int>, transposed: array2<int>,
                            startRow: int, startCol: int, size: int, n: int, blockSize: int)
    requires IsSquareArray(original) && original.Length0 == n
    requires transposed.Length0 == transposed.Length1 == n && original != transposed
    requires 0 <= size && 0 <= blockSize
    requires 0 <= startRow && startRow + size <= n && 0 <= startCol && startCol + size <= n
    modifies transposed
    ensures Rows(transposed) == Recursed(old(Rows(transposed)), Rows(original), startRow, startCol, size, blockSize)
    decreases size, 1
  {
    ghost var before := Rows(transposed);
    if size <= blockSize {
      TransposeWindow(original, transposed, startRow, startCol, size, n);
      RecursedBase(Rows(transposed), before, Rows(original), startRow, startCol, size, blockSize);
    } else {
      TransposeQuadrants(original, transposed, startRow, startCol, size, n, blockSize);
    }
  }

  /** The recursive case of transpose_recursive: the four quadrant calls,
      which together have the effect of the call on the whole window. */
  method TransposeQuadrants(original: array2<int>, transposed: array2<int>,
                            startRow: int, startCol: int, size: int, n: int, blockSize: int)
    requires IsSquareArray(original) && original.Length0 == n
    requires transposed.Length0 == transposed.Length1 == n && original != transposed
    requires 0 <= blockSize < size
    requires 0 <= startRow && startRow + size <= n && 0 <= startCol && startCol + size <= n
    modifies transposed
    ensures Rows(transposed) == Recursed(old(Rows(transposed)), Rows(original), startRow, startCol, size, blockSize)
    decreases size, 0
  {
    ghost var before := Rows(transposed);
    var halfSize := size / 2;
    assert 0 <= halfSize && halfSize + halfSize <= size;
    TransposeQuadrantRow(original, transposed, startRow, startCol, halfSize, n, blockSize);
    TransposeQuadrantRow(original, transposed, startRow + halfSize, startCol, halfSize, n, blockSize);
    RecursedQuadrants(before, Rows(original), startRow, startCol, size, blockSize);
  }

  /** Two of the four quadrant calls, in spawn order: the quadrant at
      (row, col) and its right-hand neighbour. */
  method TransposeQuadrantRow(original: array2<int>, transposed: array2<int>,
                              row: int, col: int, halfSize: int, n: int, blockSize: int)
    requires IsSquareArray(original) && original.Length0 == n
    requires transposed.Length0 == transposed.Length1 == n && original != transposed
    requires 0 <= halfSize && 0 <= blockSize
    requires 0 <= row && row + halfSize <= n && 0 <= col && col + halfSize + halfSize <= n
    modifies transposed
    ensures Rows(transposed) ==
      Recursed(Recursed(old(Rows(transposed)), Rows(original), row, col, halfSize, blockSize),
               Rows(original), row, col + halfSize, halfSize, blockSize)
    decreases halfSize, 2
  {
    TransposeRecursive(original, transposed, row, col, halfSize, n, blockSize);
    TransposeRecursive(original, transposed, row, col + halfSize, halfSize, n, blockSize);
  }

  /** transpose_cache_oblivious: the recursion on the whole matrix from a
      single thread. The full transpose when n is a power of two (block size
      at least 1) or n fits in one block; otherwise only the covered cells. */
  method TransposeCacheOblivious(matrix: array2<int>, blockSize: int) returns (result: array2<int>)
    requires IsSquareArray(matrix) && 0 <= blockSize
    ensures fresh(result) && result.Length0 == result.Length1 == matrix.Length0
    ensures forall i, j ::
      (0 <= i < matrix.Length0 && 0 <= j < matrix.Length0 && Covered(i, j, 0, 0, matrix.Length0, blockSize))
      ==> result[j, i] == matrix[i, j]
    ensures matrix.Length0 <= blockSize || (IsPowerOfTwo(matrix.Length0) && 1 <= blockSize) ==>
      Rows(result) == Transpose(Rows(matrix))
  {
    var n := matrix.Length0;
    result := new int[n, n];
    TransposeRecursive(matrix, result, 0, 0, n, n, blockSize);
    forall i, j | 0 <= i < n && 0 <= j < n && Covered(i, j, 0, 0, n, blockSize) ensures result[j, i] == matrix[i, j] {
      assert result[j, i] == Rows(result)[j][i];
    }
    if n <= blockSize || (IsPowerOfTwo(n) && 1 <= blockSize) {
      forall i, j | 0 <= i < n && 0 <= j < n ensures result[j, i] == matrix[i, j] {
        CoveredWholeWindow(i, j, 0, 0, n, blockSize);
        assert result[j, i] == Rows(result)[j][i];
      }
      TransposedIntoRows(result, matrix);
    }
  }
}
