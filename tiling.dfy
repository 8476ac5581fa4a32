/** What the tiled and recursive transposes share: the copy of one clipped
    tile, why the tiles of a blocked loop nest write every result cell exactly
    once, and which cells the quadrant recursion reaches. */
module Tiling {
  import opened Matrices

  function Min(a: int, b: int): (m: int)
    ensures m <= a && m <= b && (m == a || m == b)
  {
    if a < b then a else b
  }

  /** The cell (r, c) of the result lies in the tile [rowLo, rowHi) x [colLo, colHi). */
  predicate InTile(r: int, c: int, rowLo: int, rowHi: int, colLo: int, colHi: int) {
    rowLo <= r < rowHi && colLo <= c < colHi
  }

  /** The two innermost loops of every tiled kernel: for each row index k of
      the tile and each column index l, result[k][l] = matrix[l][k]. Cells
      outside the tile keep their value. */
  method TransposeTile(matrix: array2<int>, result: array2<int>,
                       rowLo: int, rowHi: int, colLo: int, colHi: int)
    requires IsSquareArray(matrix) && result.Length0 == result.Length1 == matrix.Length0
    requires matrix != result
    requires 0 <= rowLo <= rowHi <= matrix.Length0 && 0 <= colLo <= colHi <= matrix.Length0
    modifies result
    ensures forall r, c :: 0 <= r < result.Length0 && 0 <= c < result.Length0 ==>
      result[r, c] == if InTile(r, c, rowLo, rowHi, colLo, colHi) then matrix[c, r] else old(result[r, c])
  {
    var k := rowLo;
    while k < rowHi
      invariant rowLo <= k <= rowHi
      invariant forall r, c :: 0 <= r < result.Length0 && 0 <= c < result.Length0 ==>
        result[r, c] == if InTile(r, c, rowLo, k, colLo, colHi) then matrix[c, r] else old(result[r, c])
    {
      var l := colLo;
      while l < colHi
        invariant colLo <= l <= colHi
        invariant forall r, c :: 0 <= r < result.Length0 && 0 <= c < result.Length0 ==>
          result[r, c] ==
            if InTile(r, c, rowLo, k, colLo, colHi) || InTile(r, c, k, k + 1, colLo, l) then matrix[c, r]
            else old(result[r, c])
      {
        result[k, l] := matrix[l, k];
        l := l + 1;
      }
      k := k + 1;
    }
  }

  /** The tiles of a loop `for (i = 0; i < n; i += b)` are [t*b, t*b + b) for
      t = 0, 1, ...; a coordinate r >= 0 lies in exactly one of them, the one
      with t = r / b. So along both axes the tiles are disjoint and cover
      every cell, and each result cell is written by exactly one tile. */
  lemma {:induction false} TileOfCoordinate(r: int, b: int, t: int)
    requires 0 <= r && 1 <= b && 0 <= t
    ensures t * b <= r < t * b + b <==> t == r / b
  {
    var q := r / b;
    assert q * b <= r < q * b + b;
    if t < q {
      MulLe(t + 1, q, b);
      assert (t + 1) * b == t * b + b;
    } else if t > q {
      MulLe(q + 1, t, b);
      assert (q + 1) * b == q * b + b;
    }
  }

  // ---------------------------------------------------------------------
  // The cache-oblivious quadrant recursion

  predicate IsPowerOfTwo(x: int)
    decreases x
  {
    x == 1 || (x > 1 && x % 2 == 0 && IsPowerOfTwo(x / 2))
  }

  /** The square [row, row + size) x [col, col + size) of the original
      matrix that one call of the quadrant recursion works on. */
  datatype Window = Window(row: int, col: int, size: int)

  /** The cells (i, j) of the original matrix whose transpose the quadrant
      recursion on window w writes: a window no larger than the block size is
      copied whole; a larger one is split into four windows of side
      size / 2 (rounded down). */
  predicate CoveredIn(i: int, j: int, w: Window, blockSize: int)
    requires 0 <= w.size && 0 <= blockSize
    decreases w.size
  {
    if w.size <= blockSize then
      w.row <= i < w.row + w.size && w.col <= j < w.col + w.size
    else
      var h := w.size / 2;
      CoveredIn(i, j, Window(w.row, w.col, h), blockSize) ||
      CoveredIn(i, j, Window(w.row, w.col + h, h), blockSize) ||
      CoveredIn(i, j, Window(w.row + h, w.col, h), blockSize) ||
      CoveredIn(i, j, Window(w.row + h, w.col + h, h), blockSize)
  }

  /** CoveredIn for the window [startRow, startRow + size) x
      [startCol, startCol + size), the arguments the source passes. */
  predicate Covered(i: int, j: int, startRow: int, startCol: int, size: int, blockSize: int)
    requires 0 <= size && 0 <= blockSize
  {
    CoveredIn(i, j, Window(startRow, startCol, size), blockSize)
  }

  /** What the quadrant recursion on a window leaves in `transposed`, which
      is indexed [j][i] as the source writes it: original[i][j] for every
      covered cell (i, j), and the entry as it was everywhere else. */
  function Recursed(before: Matrix, original: Matrix, startRow: int, startCol: int, size: int, blockSize: int): (after: Matrix)
    requires Square(before) && Square(original) && |before| == |original| && 0 <= size && 0 <= blockSize
    ensures Square(after) && |after| == |before|
  {
    seq(|before|, j requires 0 <= j < |before| =>
      seq(|before|, i requires 0 <= i < |before| =>
        if Covered(i, j, startRow, startCol, size, blockSize) then original[i][j] else before[j][i]))
  }

  /** The base case: a window no larger than the block size is copied whole,
      so a window copy is the recursion's effect. */
  lemma {:induction false} RecursedBase(after: Matrix, before: Matrix, original: Matrix,
                     startRow: int, startCol: int, size: int, blockSize: int)
    requires Square(after) && Square(before) && Square(original)
    requires |after| == |before| == |original| && 0 <= size <= blockSize
    requires forall i, j {:trigger after[j][i]} :: 0 <= i < |original| && 0 <= j < |original| ==>
      after[j][i] ==
        if startRow <= i < startRow + size && startCol <= j < startCol + size then original[i][j] else before[j][i]
    ensures after == Recursed(before, original, startRow, startCol, size, blockSize)
  {
    var whole := Recursed(before, original, startRow, startCol, size, blockSize);
    forall j | 0 <= j < |after| ensures after[j] == whole[j] {
      forall i | 0 <= i < |after| ensures after[j][i] == whole[j][i] {
        assert Covered(i, j, startRow, startCol, size, blockSize) <==>
          startRow <= i < startRow + size && startCol <= j < startCol + size;
      }
    }
  }

  /** The recursive case: the four quadrant calls made one after the other
      have the effect of the call on the whole window. */
  lemma {:induction false} RecursedQuadrants(before: Matrix, original: Matrix, startRow: int, startCol: int, size: int, blockSize: int)
    requires Square(before) && Square(original) && |before| == |original| && 0 <= blockSize < size
    ensures var h := size / 2;
      var first := Recursed(before, original, startRow, startCol, h, blockSize);
      var second := Recursed(first, original, startRow, startCol + h, h, blockSize);
      var third := Recursed(second, original, startRow + h, startCol, h, blockSize);
      Recursed(third, original, startRow + h, startCol + h, h, blockSize) ==
      Recursed(before, original, startRow, startCol, size, blockSize)
  {
    var h := size / 2;
    var first := Recursed(before, original, startRow, startCol, h, blockSize);
    var second := Recursed(first, original, startRow, startCol + h, h, blockSize);
    var third := Recursed(second, original, startRow + h, startCol, h, blockSize);
    var fourth := Recursed(third, original, startRow + h, startCol + h, h, blockSize);
    var whole := Recursed(before, original, startRow, startCol, size, blockSize);
    forall j | 0 <= j < |before| ensures fourth[j] == whole[j] {
      RecursedQuadrantsRow(before, original, startRow, startCol, size, blockSize, j);
    }
  }

  /** RecursedQuadrants on one row j of `transposed`. */
  lemma {:induction false} RecursedQuadrantsRow(before: Matrix, original: Matrix, startRow: int, startCol: int, size: int,
                                                blockSize: int, j: int)
    requires Square(before) && Square(original) && |before| == |original| && 0 <= blockSize < size
    requires 0 <= j < |before|
    ensures var h := size / 2;
      var first := Recursed(before, original, startRow, startCol, h, blockSize);
      var second := Recursed(first, original, startRow, startCol + h, h, blockSize);
      var third := Recursed(second, original, startRow + h, startCol, h, blockSize);
      Recursed(third, original, startRow + h, startCol + h, h, blockSize)[j] ==
      Recursed(before, original, startRow, startCol, size, blockSize)[j]
  {
    forall i | 0 <= i < |before|
      ensures var h := size / 2;
        var first := Recursed(before, original, startRow, startCol, h, blockSize);
        var second := Recursed(first, original, startRow, startCol + h, h, blockSize);
        var third := Recursed(second, original, startRow + h, startCol, h, blockSize);
        Recursed(third, original, startRow + h, startCol + h, h, blockSize)[j][i] ==
        Recursed(before, original, startRow, startCol, size, blockSize)[j][i]
    {
      RecursedQuadrantsAt(before, original, startRow, startCol, size, blockSize, i, j);
    }
  }

  /** RecursedQuadrants at one cell (i, j). */
  lemma {:induction false} RecursedQuadrantsAt(before: Matrix, original: Matrix, startRow: int, startCol: int, size: int,
                                               blockSize: int, i: int, j: int)
    requires Square(before) && Square(original) && |before| == |original| && 0 <= blockSize < size
    requires 0 <= i < |before| && 0 <= j < |before|
    ensures var h := size / 2;
      var first := Recursed(before, original, startRow, startCol, h, blockSize);
      var second := Recursed(first, original, startRow, startCol + h, h, blockSize);
      var third := Recursed(second, original, startRow + h, startCol, h, blockSize);
      Recursed(third, original, startRow + h, startCol + h, h, blockSize)[j][i] ==
      Recursed(before, original, startRow, startCol, size, blockSize)[j][i]
  {
    var h := size / 2;
    var first := Recursed(before, original, startRow, startCol, h, blockSize);
    var second := Recursed(first, original, startRow, startCol + h, h, blockSize);
    var third := Recursed(second, original, startRow + h, startCol, h, blockSize);
    CoveredQuadrants(i, j, startRow, startCol, size, blockSize);
    assert third[j][i] == if Covered(i, j, startRow + h, startCol, h, blockSize) then original[i][j] else second[j][i];
    assert second[j][i] == if Covered(i, j, startRow, startCol + h, h, blockSize) then original[i][j] else first[j][i];
  }

  /** The base case of both quadrant recursions: transposed[j][i] = original[i][j]
      for the whole window, row by row of the original. */
  method TransposeWindow(original: array2<int>, transposed: array2<int>,
                         startRow: int, startCol: int, size: int, n: int)
    requires IsSquareArray(original) && original.Length0 == n
    requires transposed.Length0 == transposed.Length1 == n && original != transposed
    requires 0 <= size && 0 <= startRow && startRow + size <= n && 0 <= startCol && startCol + size <= n
    modifies transposed
    ensures forall i, j :: 0 <= i < n && 0 <= j < n ==>
      transposed[j, i] ==
        if startRow <= i < startRow + size && startCol <= j < startCol + size then original[i, j]
        else old(transposed[j, i])
  {
    for i := startRow to startRow + size
      invariant forall r, c :: 0 <= r < n && 0 <= c < n ==>
        transposed[c, r] ==
          if startRow <= r < i && startCol <= c < startCol + size then original[r, c] else old(transposed[c, r])
    {
      for j := startCol to startCol + size
        invariant forall r, c :: 0 <= r < n && 0 <= c < n ==>
          transposed[c, r] ==
            if (startRow <= r < i && startCol <= c < startCol + size) || (r == i && startCol <= c < j)
            then original[r, c] else old(transposed[c, r])
      {
        transposed[j, i] := original[i, j];
      }
    }
  }

  /** One step of the recursion: a window larger than the block size covers
      exactly what its four quadrants cover. */
  lemma {:induction false} CoveredQuadrants(i: int, j: int, startRow: int, startCol: int, size: int, blockSize: int)
    requires 0 <= blockSize < size
    ensures var h := size / 2;
      Covered(i, j, startRow, startCol, size, blockSize) <==>
        Covered(i, j, startRow, startCol, h, blockSize) || Covered(i, j, startRow, startCol + h, h, blockSize) ||
        Covered(i, j, startRow + h, startCol, h, blockSize) || Covered(i, j, startRow + h, startCol + h, h, blockSize)
  {
  }

  /** A cell outside the window is never reached: the four quadrants lie
      inside the window, since two halves never exceed the whole. */
  lemma {:induction false} OutsideNotCovered(i: int, j: int, startRow: int, startCol: int, size: int, blockSize: int)
    requires 0 <= size && 0 <= blockSize
    requires !(startRow <= i < startRow + size && startCol <= j < startCol + size)
    ensures !Covered(i, j, startRow, startCol, size, blockSize)
    decreases size
  {
    if size > blockSize {
      var h := size / 2;
      assert 0 <= h && h + h <= size;
      OutsideNotCovered(i, j, startRow, startCol, h, blockSize);
      OutsideNotCovered(i, j, startRow, startCol + h, h, blockSize);
      OutsideNotCovered(i, j, startRow + h, startCol, h, blockSize);
      OutsideNotCovered(i, j, startRow + h, startCol + h, h, blockSize);
      CoveredQuadrants(i, j, startRow, startCol, size, blockSize);
    }
  }

  /** The recursion never reaches outside its window. */
  lemma {:induction false} CoveredInWindow(i: int, j: int, startRow: int, startCol: int, size: int, blockSize: int)
    requires 0 <= size && 0 <= blockSize
    requires Covered(i, j, startRow, startCol, size, blockSize)
    ensures startRow <= i < startRow + size && startCol <= j < startCol + size
  {
    if !(startRow <= i < startRow + size && startCol <= j < startCol + size) {
      OutsideNotCovered(i, j, startRow, startCol, size, blockSize);
    }
  }

  /** The four quadrant calls reach pairwise disjoint sets of cells. */
  lemma {:induction false} QuadrantsDisjoint(i: int, j: int, startRow: int, startCol: int, size: int, blockSize: int)
    requires 0 <= size && 0 <= blockSize && size > blockSize
    ensures var h := size / 2;
      var q0 := Covered(i, j, startRow, startCol, h, blockSize);
      var q1 := Covered(i, j, startRow, startCol + h, h, blockSize);
      var q2 := Covered(i, j, startRow + h, startCol, h, blockSize);
      var q3 := Covered(i, j, startRow + h, startCol + h, h, blockSize);
      !(q0 && q1) && !(q0 && q2) && !(q0 && q3) && !(q1 && q2) && !(q1 && q3) && !(q2 && q3)
  {
    var h := size / 2;
    if Covered(i, j, startRow, startCol, h, blockSize) {
      CoveredInWindow(i, j, startRow, startCol, h, blockSize);
    }
    if Covered(i, j, startRow, startCol + h, h, blockSize) {
      CoveredInWindow(i, j, startRow, startCol + h, h, blockSize);
    }
    if Covered(i, j, startRow + h, startCol, h, blockSize) {
      CoveredInWindow(i, j, startRow + h, startCol, h, blockSize);
    }
    if Covered(i, j, startRow + h, startCol + h, h, blockSize) {
      CoveredInWindow(i, j, startRow + h, startCol + h, h, blockSize);
    }
  }

  /** A cell covered by one of the four quadrant calls is covered by the call
      on the whole window. */
  lemma {:induction false} CoveredByQuadrant(i: int, j: int, startRow: int, startCol: int, size: int, blockSize: int,
                                             row: int, col: int)
    requires 0 <= blockSize < size
    requires row == startRow || row == startRow + size / 2
    requires col == startCol || col == startCol + size / 2
    requires Covered(i, j, row, col, size / 2, blockSize)
    ensures Covered(i, j, startRow, startCol, size, blockSize)
  {
    CoveredQuadrants(i, j, startRow, startCol, size, blockSize);
  }

  /** A power of two above 1 splits into two equal halves that are powers of
      two themselves. */
  lemma {:induction false} HalfOfPowerOfTwo(x: int)
    requires IsPowerOfTwo(x) && x > 1
    ensures var h := x / 2; 1 <= h && h + h == x && IsPowerOfTwo(h)
  {
    assert x % 2 == 0 && IsPowerOfTwo(x / 2);
  }

  /** A window no larger than the block size, or a power-of-two window with a
      positive block size, is reached in full. */
  lemma {:induction false} CoveredWholeWindow(i: int, j: int, startRow: int, startCol: int, size: int, blockSize: int)
    requires 0 <= size && 0 <= blockSize
    requires size <= blockSize || (IsPowerOfTwo(size) && 1 <= blockSize)
    requires startRow <= i < startRow + size && startCol <= j < startCol + size
    ensures Covered(i, j, startRow, startCol, size, blockSize)
    decreases size
  {
    if size > blockSize {
      var h := size / 2;
      HalfOfPowerOfTwo(size);
      var row := if i < startRow + h then startRow else startRow + h;
      var col := if j < startCol + h then startCol else startCol + h;
      CoveredWholeWindow(i, j, row, col, h, blockSize);
      CoveredByQuadrant(i, j, startRow, startCol, size, blockSize, row, col);
    }
  }

  /** An odd window larger than the block size loses its last row and its last
      column: the four quadrants of side (size - 1) / 2 stop one short. */
  lemma {:induction false} OddWindowSkipsLastRowAndColumn(i: int, j: int, startRow: int, startCol: int, size: int, blockSize: int)
    requires 0 <= blockSize < size && size % 2 == 1
    requires i == startRow + size - 1 || j == startCol + size - 1
    ensures !Covered(i, j, startRow, startCol, size, blockSize)
  {
    var h := size / 2;
    assert 0 <= h && h + h + 1 == size;
    OutsideNotCovered(i, j, startRow, startCol, h, blockSize);
    OutsideNotCovered(i, j, startRow, startCol + h, h, blockSize);
    OutsideNotCovered(i, j, startRow + h, startCol, h, blockSize);
    OutsideNotCovered(i, j, startRow + h, startCol + h, h, blockSize);
    CoveredQuadrants(i, j, startRow, startCol, size, blockSize);
  }
}
