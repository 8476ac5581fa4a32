/** The earlier OpenMP kernels, run sequentially: the same algorithms as
    module Omp, with the tile side fixed at compile time. */
module Parallel {
  import opened Matrices
  import opened Tiling

  /** The fixed tile side of this version. */
  const BlockSize: int := 16

  /** is_symmetric_omp (earlier version): the flag starts true and is only
      ever set to false; with the collapsed loops reduced by `&&`, the result
      is the AND of every strictly-lower comparison. */
  method IsSymmetricOmp(matrix: array2<int>) returns (isSymmetric: bool)
    requires IsSquareArray(matrix)
    ensures isSymmetric <==> IsSymmetric(Rows(matrix))
  {
    var n := matrix.Length0;
    isSymmetric := true;
    var i := 0;
    while i < n
      invariant 0 <= i <= n
      invariant isSymmetric <==> LowerMatchesBefore(Rows(matrix), i, 0)
    {
      var j := 0;
      while j < i
        invariant 0 <= j <= i
        invariant isSymmetric <==> LowerMatchesBefore(Rows(matrix), i, j)
      {
        if matrix[i, j] != matrix[j, i] {
          assert Rows(matrix)[i][j] != Rows(matrix)[j][i];
          isSymmetric := false;
        }
        j := j + 1;
      }
      i := i + 1;
    }
    LowerMatchesAll(Rows(matrix));
  }

  /** transpose_omp (earlier version): result[i][j] = matrix[j][i]. */
  method TransposeOmp(matrix: array2<int>) returns (result: array2<int>)
    requires IsSquareArray(matrix)
    ensures fresh(result)
    ensures TransposedInto(result, matrix)
    ensures Rows(result) == Transpose(Rows(matrix))
  {
    var n := matrix.Length0;
    result := new int[n, n];
    var i := 0;
    while i < n
      invariant 0 <= i <= n
      invariant forall r, c :: 0 <= r < i && 0 <= c < n ==> result[r, c] == matrix[c, r]
    {
      var j := 0;
      while j < n
        invariant 0 <= j <= n
        invariant forall r, c :: 0 <= r < i && 0 <= c < n ==> result[r, c] == matrix[c, r]
        invariant forall c :: 0 <= c < j ==> result[i, c] == matrix[c, i]
      {
        result[i, j] := matrix[j, i];
        j := j + 1;
      }
      i := i + 1;
    }
    TransposedIntoRows(result, matrix);
  }

  /** transpose_omp_block_based (earlier version): 16 x 16 tiles clipped at n,
      for every n, including n not a multiple of 16. */
  method TransposeOmpBlockBased(matrix: array2<int>) returns (result: array2<int>)
    requires IsSquareArray(matrix)
    ensures fresh(result)
    ensures TransposedInto(result, matrix)
    ensures Rows(result) == Transpose(Rows(matrix))
  {
    var n := matrix.Length0;
    result := new int[n, n];
    var i := 0;
    while i < n
      invariant 0 <= i
      invariant forall r, c :: 0 <= r < n && r < i && 0 <= c < n ==> result[r, c] == matrix[c, r]
    {
      var j := 0;
      while j < n
        invariant 0 <= j
        invariant forall r, c :: 0 <= r < n && r < i && 0 <= c < n ==> result[r, c] == matrix[c, r]
        invariant forall r, c :: i <= r < Min(i + BlockSize, n) && 0 <= c < n && c < j ==> result[r, c] == matrix[c, r]
      {
        TransposeTile(matrix, result, i, Min(i + BlockSize, n), j, Min(j + BlockSize, n));
        j := j + BlockSize;
      }
      i := i + BlockSize;
    }
    TransposedIntoRows(result, matrix);
  }
}
