/** The sequential reference kernels: the correctness oracle for every other tier. */
module Sequential {
  import opened Matrices

  /** is_symmetric_sequential: scans the strict lower triangle row by row and
      returns false at the first entry that differs from its mirror.
      The ghost `stop` names the pair at which the scan returned false. */
  method IsSymmetricSequential(matrix: array2<int>) returns (symmetric: bool, ghost stop: (int, int))
    requires IsSquareArray(matrix)
    ensures symmetric <==> IsSymmetric(Rows(matrix))
    ensures matrix.Length0 <= 1 ==> symmetric
    ensures !symmetric ==>
      0 <= stop.1 < stop.0 < matrix.Length0 &&
      matrix[stop.0, stop.1] != matrix[stop.1, stop.0] &&
      LowerMatchesBefore(Rows(matrix), stop.0, stop.1)
  {
    var n := matrix.Length0;
    var i := 0;
    while i < n
      invariant 0 <= i <= n
      invariant LowerMatchesBefore(Rows(matrix), i, 0)
    {
      var j := 0;
      while j < i
        invariant 0 <= j <= i
        invariant LowerMatchesBefore(Rows(matrix), i, j)
      {
        if matrix[i, j] != matrix[j, i] {
          assert Rows(matrix)[i][j] != Rows(matrix)[j][i];
          return false, (i, j);
        }
        j := j + 1;
      }
      i := i + 1;
    }
    LowerMatchesAll(Rows(matrix));
    return true, (n, 0);
  }

  /** transpose_sequential: a freshly allocated n-by-n result with
      result[i][j] = matrix[j][i]; the input is only read. */
  method TransposeSequential(matrix: array2<int>) returns (result: array2<int>)
    requires IsSquareArray(matrix)
    ensures fresh(result)
    ensures TransposedInto(result, matrix)
    ensures Rows(result) == Transpose(Rows(matrix))
  {
    var n := matrix.Length0;
    result := new int[n, n];
    for i := 0 to n
      invariant forall r, c :: 0 <= r < i && 0 <= c < n ==> result[r, c] == matrix[c, r]
    {
      for j := 0 to n
        invariant forall r, c :: 0 <= r < i && 0 <= c < n ==> result[r, c] == matrix[c, r]
        invariant forall c :: 0 <= c < j ==> result[i, c] == matrix[c, i]
      {
        result[i, j] := matrix[j, i];
      }
    }
    TransposedIntoRows(result, matrix);
  }
}
