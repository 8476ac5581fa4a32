/** The message-passing kernels. Each rank's loops over its own buffers are
    methods; the collectives (scatter, gather, broadcast, all-to-all) are pure
    functions from the ranks' send buffers to their receive buffers, and a
    kernel's effect on the whole group is the composition of the two.

    The layouts the code produces are stated as they are: for more than one
    process the gathered buffer of transpose_mpi is not the row-major
    transpose, and the all-to-all kernel fills only the first n/size rows of
    its result (see the Findings section of the README). */
module Mpi {
  import opened Matrices

  // ---------------------------------------------------------------------
  // Collectives

  /** MPI_Scatter from rank 0: rank p receives elements
      [p*count, p*count + count) of rank 0's send buffer. */
  function Scatter(send: seq<int>, size: nat, count: nat): (recv: seq<seq<int>>)
    requires |send| == size * count
    ensures |recv| == size && Rect(recv, count)
  {
    Unflatten(send, size, count)
  }

  /** MPI_Gather to rank 0: the ranks' send buffers, concatenated in rank order. */
  function Gather(send: seq<seq<int>>, count: nat): (recv: seq<int>)
    requires Rect(send, count)
    ensures |recv| == |send| * count
  {
    Flatten(send, count)
  }

  /** MPI_Bcast from rank 0: every rank ends with rank 0's value. */
  function Bcast<T>(root: T, size: nat): (recv: seq<T>)
    ensures |recv| == size
    ensures forall k :: 0 <= k < size ==> recv[k] == root
  {
    seq(size, _ => root)
  }

  /** MPI_Alltoall: chunk q of rank p's send buffer becomes chunk p of rank
      q's receive buffer. */
  function Alltoall(send: seq<seq<int>>, count: nat): (recv: seq<seq<int>>)
    requires Rect(send, |send| * count)
    ensures |recv| == |send| && Rect(recv, |send| * count)
  {
    var size := |send|;
    seq(size, q requires 0 <= q < size =>
      Flatten(seq(size, p requires 0 <= p < size => Unflatten(send[p], size, count)[q]), count))
  }

  /** Gathering what was scattered restores the send buffer. */
  lemma {:induction false} GatherScatter(send: seq<int>, size: nat, count: nat)
    requires |send| == size * count
    ensures Gather(Scatter(send, size, count), count) == send
  {
    FlattenUnflatten(send, size, count);
  }

  lemma {:induction false} AlltoallAt(send: seq<seq<int>>, count: nat, q: int, p: int, t: int)
    requires Rect(send, |send| * count)
    requires 0 <= q < |send| && 0 <= p < |send| && 0 <= t < count
    ensures 0 <= p * count + t < |send| * count && 0 <= q * count + t < |send| * count
    ensures Alltoall(send, count)[q][p * count + t] == send[p][q * count + t]
  {
    var size := |send|;
    var column := seq(size, p' requires 0 <= p' < size => Unflatten(send[p'], size, count)[q]);
    assert Alltoall(send, count)[q] == Flatten(column, count);
    FlattenAt(column, count, p, t);
    UnflattenAt(send[p], size, count, q, t);
  }

  /** Exchanging twice gives every rank its own send buffer back. */
  lemma {:induction false} AlltoallInvolution(send: seq<seq<int>>, count: nat)
    requires Rect(send, |send| * count)
    ensures Alltoall(Alltoall(send, count), count) == send
  {
    var size := |send|;
    var once := Alltoall(send, count);
    var twice := Alltoall(once, count);
    forall p | 0 <= p < size ensures twice[p] == send[p] {
      forall k | 0 <= k < size * count ensures twice[p][k] == send[p][k] {
        RowMajorSplit(k, size, count);
        var q, t := k / count, k % count;
        AlltoallAt(once, count, p, q, t);
        AlltoallAt(send, count, q, p, t);
      }
    }
  }

  // ---------------------------------------------------------------------
  // The local step of the row-block kernels

  /** A rank's chunk of `rows` rows of n entries, rewritten so that entry
      (i, j) moves to position j*rows + i (local_transposed in the source). */
  function LocalTransposed(local: seq<int>, rows: nat, n: nat): (lt: seq<int>)
    requires |local| == rows * n
    ensures |lt| == rows * n
  {
    seq(rows * n, k requires 0 <= k < rows * n =>
      RowMajorSplit(k, n, rows);
      RowMajorIndex(k % rows, k / rows, rows, n);
      local[(k % rows) * n + k / rows])
  }

  lemma {:induction false} LocalTransposedAt(local: seq<int>, rows: nat, n: nat, i: int, j: int)
    requires |local| == rows * n && 0 <= i < rows && 0 <= j < n
    ensures 0 <= j * rows + i < rows * n && 0 <= i * n + j < rows * n
    ensures LocalTransposed(local, rows, n)[j * rows + i] == local[i * n + j]
  {
    RowMajorIndex(j, i, n, rows);
    RowMajorIndex(i, j, rows, n);
  }

  /** The local step is a permutation of the chunk: the same step with the
      roles of rows and columns swapped undoes it. */
  lemma {:induction false} LocalTransposedRoundTrip(local: seq<int>, rows: nat, n: nat)
    requires |local| == rows * n
    ensures LocalTransposed(LocalTransposed(local, rows, n), n, rows) == local
  {
    var lt := LocalTransposed(local, rows, n);
    var back := LocalTransposed(lt, n, rows);
    forall k | 0 <= k < rows * n ensures back[k] == local[k] {
      RowMajorSplit(k, rows, n);
      var i, j := k / n, k % n;
      LocalTransposedAt(lt, n, rows, j, i);
      LocalTransposedAt(local, rows, n, i, j);
    }
  }

  /** Position k of the local output has been written once the row loop has
      passed row k % rows, or is on it and the column loop has passed k / rows. */
  ghost predicate LocalDone(k: int, rows: nat, i: int, j: int) {
    rows > 0 && (k % rows < i || (k % rows == i && k / rows < j))
  }

  /** The local loop nest of is_symmetric_mpi and transpose_mpi:
      local_transposed[j*rows + i] = local_matrix[i*n + j]. */
  method LocalTranspose(local: array<int>, rowsPerProc: nat, n: nat) returns (localTransposed: array<int>)
    requires local.Length == rowsPerProc * n
    ensures fresh(localTransposed)
    ensures localTransposed[..] == LocalTransposed(local[..], rowsPerProc, n)
  {
    ghost var spec := LocalTransposed(local[..], rowsPerProc, n);
    localTransposed := new int[rowsPerProc * n];
    for i := 0 to rowsPerProc
      invariant forall k :: 0 <= k < rowsPerProc * n && LocalDone(k, rowsPerProc, i, 0) ==> localTransposed[k] == spec[k]
    {
      for j := 0 to n
        invariant forall k :: 0 <= k < rowsPerProc * n && LocalDone(k, rowsPerProc, i, j) ==> localTransposed[k] == spec[k]
      {
        LocalTransposedAt(local[..], rowsPerProc, n, i, j);
        RowMajorIndex(j, i, n, rowsPerProc);
        var w := j * rowsPerProc + i;
        localTransposed[w] := local[i * n + j];
        forall k | 0 <= k < rowsPerProc * n && LocalDone(k, rowsPerProc, i, j + 1)
          ensures localTransposed[k] == spec[k]
        {
          if k % rowsPerProc == i && k / rowsPerProc == j {
            RowMajorSplit(k, n, rowsPerProc);
          }
        }
      }
      forall k | 0 <= k < rowsPerProc * n && LocalDone(k, rowsPerProc, i + 1, 0)
        ensures localTransposed[k] == spec[k]
      {
        RowMajorSplit(k, n, rowsPerProc);
        assert LocalDone(k, rowsPerProc, i, n);
      }
    }
    forall k | 0 <= k < rowsPerProc * n ensures localTransposed[k] == spec[k] {
      RowMajorSplit(k, n, rowsPerProc);
      assert LocalDone(k, rowsPerProc, rowsPerProc, 0);
    }
  }

  // ---------------------------------------------------------------------
  // Flat buffers and 2-D matrices

  /** flatten_matrix: row i is copied to flat[i*n .. i*n + n), so that
      flat[i*n + j] = matrix[i][j]. */
  method FlattenMatrix(matrix: array2<int>) returns (flat: array<int>)
    requires IsSquareArray(matrix)
    ensures fresh(flat)
    ensures flat[..] == Flatten(Rows(matrix), matrix.Length0)
  {
    var n := matrix.Length0;
    ghost var spec := Flatten(Rows(matrix), n);
    flat := new int[n * n];
    for i := 0 to n
      invariant i * n <= n * n
      invariant flat[..i * n] == spec[..i * n]
    {
      RowSpan(i, n, n);
      for j := 0 to n
        invariant flat[..i * n + j] == spec[..i * n + j]
      {
        FlattenAt(Rows(matrix), n, i, j);
        flat[i * n + j] := matrix[i, j];
      }
      assert (i + 1) * n == i * n + n;
    }
  }

  /** create_2d_matrix: row i of the result is flat[i*cols .. i*cols + cols). */
  method Create2DMatrix(flat: array<int>, rows: nat, cols: nat) returns (matrix: array2<int>)
    requires flat.Length == rows * cols
    ensures fresh(matrix)
    ensures Rows(matrix) == Unflatten(flat[..], rows, cols)
  {
    ghost var spec := Unflatten(flat[..], rows, cols);
    matrix := new int[rows, cols];
    for i := 0 to rows
      invariant forall r, c :: 0 <= r < i && 0 <= c < cols ==> matrix[r, c] == spec[r][c]
    {
      for j := 0 to cols
        invariant forall r, c :: 0 <= r < i && 0 <= c < cols ==> matrix[r, c] == spec[r][c]
        invariant forall c :: 0 <= c < j ==> matrix[i, c] == spec[i][c]
      {
        UnflattenAt(flat[..], rows, cols, i, j);
        matrix[i, j] := flat[i * cols + j];
      }
    }
    forall r | 0 <= r < rows ensures Rows(matrix)[r] == spec[r] {
    }
  }

  // ---------------------------------------------------------------------
  // Row blocks

  datatype Option<T> = None | Some(value: T)

  /** With n a multiple of size and b = n / size, every rank owns b whole
      rows, and the chunk counts of the collectives add up. */
  lemma {:induction false} ChunkCount(n: nat, size: nat)
    requires 1 <= size && n % size == 0
    ensures n == size * (n / size)
    ensures n * n == size * ((n / size) * n)
    ensures (n / size) * n == size * ((n / size) * (n / size))
    ensures 1 <= n ==> 1 <= n / size
  {
    var b := n / size;
    assert n == size * b;
    calc {
      n * n;
      (size * b) * n;
      size * (b * n);
    }
    calc {
      b * n;
      b * (size * b);
      size * (b * b);
    }
    if 1 <= n && b < 1 {
      MulLe(b, 0, size);
    }
  }

  /** The row-major index matrix m[i][j] = i*n + j, whose entries are all
      distinct and whose layout can therefore be read off any buffer. */
  function IndexMatrix(n: nat): (m: Matrix)
    ensures Square(m) && |m| == n
  {
    seq(n, i requires 0 <= i < n => seq(n, j requires 0 <= j < n => i * n + j))
  }

  // ---------------------------------------------------------------------
  // transpose_mpi and is_symmetric_mpi

  /** Rank 0's flat_transposed in transpose_mpi and is_symmetric_mpi: the
      flattened matrix is scattered in chunks of n/size rows, every rank
      applies the local step, and the chunks are gathered in rank order. */
  function GatheredTranspose(m: Matrix, size: nat): (gathered: seq<int>)
    requires Square(m) && 1 <= size && |m| % size == 0
    ensures |gathered| == |m| * |m|
  {
    var n := |m|;
    var r := n / size;
    ChunkCount(n, size);
    var local := Scatter(Flatten(m, n), size, r * n);
    Gather(seq(size, p requires 0 <= p < size => LocalTransposed(local[p], r, n)), r * n)
  }

  /** Scattering the flattened matrix in chunks of r rows gives rank p the
      rows [p*r, p*r + r), row-major. */
  lemma {:induction false} ScatteredAtRows(m: Matrix, size: nat, r: nat, p: int, i: int, j: int)
    requires Square(m) && |m| == size * r && |m| * |m| == size * (r * |m|)
    requires 0 <= p < size && 0 <= i < r && 0 <= j < |m|
    ensures 0 <= p * r + i < |m| && 0 <= i * |m| + j < r * |m|
    ensures Scatter(Flatten(m, |m|), size, r * |m|)[p][i * |m| + j] == m[p * r + i][j]
  {
    var n := |m|;
    var flat := Flatten(m, n);
    RowMajorIndex(i, j, r, n);
    UnflattenAt(flat, size, r * n, p, i * n + j);
    RowMajorIndex(p, i, size, r);
    FlattenAt(m, n, p * r + i, j);
    BlockOffset(p, r, i, n, j);
  }

  /** The offset of entry (i, j) of row block p, counted from the start of
      the whole buffer. */
  lemma {:induction false} BlockOffset(p: int, r: int, i: int, n: int, j: int)
    ensures (p * r + i) * n + j == p * (r * n) + (i * n + j)
  {
    calc {
      (p * r + i) * n + j;
      (p * r) * n + i * n + j;
      p * (r * n) + (i * n + j);
    }
  }

  lemma {:induction false} ScatteredAt(m: Matrix, size: nat, p: int, i: int, j: int)
    requires Square(m) && 1 <= size && |m| % size == 0
    requires 0 <= p < size && 0 <= i < |m| / size && 0 <= j < |m|
    ensures |m| * |m| == size * ((|m| / size) * |m|)
    ensures 0 <= p * (|m| / size) + i < |m| && 0 <= i * |m| + j < (|m| / size) * |m|
    ensures Scatter(Flatten(m, |m|), size, (|m| / size) * |m|)[p][i * |m| + j] == m[p * (|m| / size) + i][j]
  {
    ChunkCount(|m|, size);
    ScatteredAtRows(m, size, |m| / size, p, i, j);
  }

  /** The layout of the gathered buffer: chunk p holds, at offset j*r + i,
      the entry (p*r + i, j) of the matrix (r = n / size). */
  lemma {:induction false} GatheredAt(m: Matrix, size: nat, p: int, i: int, j: int)
    requires Square(m) && 1 <= size && |m| % size == 0
    requires 0 <= p < size && 0 <= i < |m| / size && 0 <= j < |m|
    ensures 0 <= p * (|m| / size) + i < |m|
    ensures 0 <= p * ((|m| / size) * |m|) + (j * (|m| / size) + i) < |m| * |m|
    ensures GatheredTranspose(m, size)[p * ((|m| / size) * |m|) + (j * (|m| / size) + i)] == m[p * (|m| / size) + i][j]
  {
    var n := |m|;
    var r := n / size;
    ScatteredAt(m, size, p, i, j);
    var local := Scatter(Flatten(m, n), size, r * n);
    var parts := seq(size, p' requires 0 <= p' < size => LocalTransposed(local[p'], r, n));
    assert GatheredTranspose(m, size) == Flatten(parts, r * n);
    LocalTransposedAt(local[p], r, n, i, j);
    FlattenAt(parts, r * n, p, j * r + i);
  }

  /** transpose_mpi as written: rank 0 returns the gathered buffer read back
      as an n x n matrix; every other rank returns nothing. */
  function TransposeMpi(m: Matrix, size: nat, rank: nat): (result: Option<Matrix>)
    requires Square(m) && 1 <= size && rank < size && |m| % size == 0
    ensures result.Some? <==> rank == 0
    ensures result.Some? ==> Square(result.value) && |result.value| == |m|
  {
    if rank == 0 then Some(Unflatten(GatheredTranspose(m, size), |m|, |m|)) else None
  }

  /** On a single process the gathered buffer is the transpose. */
  lemma {:induction false} TransposeMpiSingleProcess(m: Matrix)
    requires Square(m)
    ensures TransposeMpi(m, 1, 0) == Some(Transpose(m))
  {
    var n := |m|;
    var g := GatheredTranspose(m, 1);
    var u := Unflatten(g, n, n);
    var t := Transpose(m);
    assert n / 1 == n;
    forall x | 0 <= x < n ensures u[x] == t[x] {
      forall y | 0 <= y < n ensures u[x][y] == t[x][y] {
        UnflattenAt(g, n, n, x, y);
        GatheredAt(m, 1, 0, y, x);
        assert 0 * (n * n) + (x * n + y) == x * n + y;
      }
    }
    assert u == t;
  }

  /** With two or more processes, rank 0's result is not the transpose: on
      the index matrix, entry (0, r) of the result is m[0][1] = 1, where the
      transpose holds m[r][0] = r*n. */
  lemma {:induction false} TransposeMpiNotTranspose(n: nat, size: nat)
    requires 2 <= size && 1 <= n && n % size == 0
    ensures TransposeMpi(IndexMatrix(n), size, 0) != Some(Transpose(IndexMatrix(n)))
  {
    var m := IndexMatrix(n);
    ChunkCount(n, size);
    var r := n / size;
    MulLe(2, size, r);
    var g := GatheredTranspose(m, size);
    UnflattenAt(g, n, n, 0, r);
    GatheredAt(m, size, 0, 0, 1);
    assert Unflatten(g, n, n)[0][r] == 1;
    MulLe(1, r, n);
    assert Transpose(m)[0][r] == r * n;
  }

  /** Where entry (x, y) of the transpose sits in the gathered buffer: in the
      chunk of the rank that owned row y, at offset x*r + (y mod r). */
  function GatheredIndex(x: int, y: int, n: nat, size: nat): (k: int)
    requires 1 <= size && n % size == 0 && 0 <= x < n && 0 <= y < n
    ensures 0 <= k < n * n
  {
    ChunkCount(n, size);
    var r := n / size;
    RowMajorSplit(y, size, r);
    RowMajorIndex(x, y % r, n, r);
    RowMajorIndex(y / r, x * r + y % r, size, r * n);
    (y / r) * (r * n) + (x * r + y % r)
  }

  /** The root-side reassembly transpose_mpi needs after the gather: entry
      (x, y) is read from the chunk of the rank that owned row y. */
  function Reassembled(gathered: seq<int>, n: nat, size: nat): (t: Matrix)
    requires 1 <= size && n % size == 0 && |gathered| == n * n
    ensures Square(t) && |t| == n
  {
    seq(n, x requires 0 <= x < n =>
      seq(n, y requires 0 <= y < n => gathered[GatheredIndex(x, y, n, size)]))
  }

  /** transpose_mpi with the reassembly: rank 0 returns the transpose. */
  function TransposeMpiCorrected(m: Matrix, size: nat, rank: nat): (result: Option<Matrix>)
    requires Square(m) && 1 <= size && rank < size && |m| % size == 0
    ensures result.Some? <==> rank == 0
  {
    if rank == 0 then Some(Reassembled(GatheredTranspose(m, size), |m|, size)) else None
  }

  lemma {:induction false} ReassembledIsTranspose(m: Matrix, size: nat)
    requires Square(m) && 1 <= size && |m| % size == 0
    ensures Reassembled(GatheredTranspose(m, size), |m|, size) == Transpose(m)
  {
    var n := |m|;
    ChunkCount(n, size);
    var r := n / size;
    var t := Reassembled(GatheredTranspose(m, size), n, size);
    forall x | 0 <= x < n ensures t[x] == Transpose(m)[x] {
      forall y | 0 <= y < n ensures t[x][y] == m[y][x] {
        RowMajorSplit(y, size, r);
        GatheredAt(m, size, y / r, y % r, x);
      }
    }
  }

  /** For every number of processes that divides n, rank 0 of the corrected
      kernel returns the transpose. */
  lemma {:induction false} TransposeMpiCorrectedIsTranspose(m: Matrix, size: nat)
    requires Square(m) && 1 <= size && |m| % size == 0
    ensures TransposeMpiCorrected(m, size, 0) == Some(Transpose(m))
  {
    ReassembledIsTranspose(m, size);
  }

  /** is_symmetric_mpi as written: false when size does not divide n;
      otherwise rank 0 compares the flattened matrix with the gathered buffer
      and broadcasts the verdict, which every rank returns. */
  function IsSymmetricMpi(m: Matrix, size: nat, rank: nat): (symmetric: bool)
    requires Square(m) && 1 <= size && rank < size
    ensures |m| % size != 0 ==> !symmetric
    ensures symmetric <==> |m| % size == 0 && Flatten(m, |m|) == GatheredTranspose(m, size)
  {
    var n := |m|;
    n % size == 0 && Bcast(Flatten(m, n) == GatheredTranspose(m, size), size)[rank]
  }

  /** Every rank returns the same verdict: rank 0's, broadcast. */
  lemma {:induction false} IsSymmetricMpiAgreement(m: Matrix, size: nat, rank: nat)
    requires Square(m) && 1 <= size && rank < size
    ensures IsSymmetricMpi(m, size, rank) == IsSymmetricMpi(m, size, 0)
  {
  }

  /** Two flattened square matrices are equal exactly when the matrices are. */
  lemma {:induction false} FlattenInjective(a: Matrix, b: Matrix)
    requires Square(a) && Square(b) && |a| == |b|
    ensures Flatten(a, |a|) == Flatten(b, |a|) <==> a == b
  {
    if Flatten(a, |a|) == Flatten(b, |a|) {
      UnflattenFlatten(a, |a|);
      UnflattenFlatten(b, |a|);
    }
  }

  /** On a single process the verdict is the symmetry of the matrix. */
  lemma {:induction false} IsSymmetricMpiSingleProcess(m: Matrix)
    requires Square(m)
    ensures IsSymmetricMpi(m, 1, 0) <==> IsSymmetric(m)
  {
    var n := |m|;
    TransposeMpiSingleProcess(m);
    FlattenUnflatten(GatheredTranspose(m, 1), n, n);
    FlattenInjective(m, Transpose(m));
    SymmetricIffTransposeFixed(m);
  }

  /** With one row per process the local step moves nothing, the gathered
      buffer is the flattened matrix itself, and every matrix is reported
      symmetric. */
  lemma {:induction false} IsSymmetricMpiOneRowPerProcess(m: Matrix, rank: nat)
    requires Square(m) && 1 <= |m| && rank < |m|
    ensures IsSymmetricMpi(m, |m|, rank)
  {
    var n := |m|;
    ChunkCount(n, n);
    var flat := Flatten(m, n);
    var local := Scatter(flat, n, n);
    var parts := seq(n, p requires 0 <= p < n => LocalTransposed(local[p], 1, n));
    forall p | 0 <= p < n ensures parts[p] == local[p] {
      forall k | 0 <= k < n ensures parts[p][k] == local[p][k] {
        LocalTransposedAt(local[p], 1, n, 0, k);
      }
    }
    assert parts == local;
    GatherScatter(flat, n, n);
  }

  /** The asymmetric matrix [[1, 2], [3, 4]] on two processes is reported
      symmetric. */
  lemma {:induction false} IsSymmetricMpiAcceptsAsymmetric()
    ensures !IsSymmetric([[1, 2], [3, 4]])
    ensures IsSymmetricMpi([[1, 2], [3, 4]], 2, 0)
  {
    var m: Matrix := [[1, 2], [3, 4]];
    assert m[1][0] != m[0][1];
    IsSymmetricMpiOneRowPerProcess(m, 0);
  }

  /** is_symmetric_mpi comparing against the reassembled transpose. */
  function IsSymmetricMpiCorrected(m: Matrix, size: nat, rank: nat): (symmetric: bool)
    requires Square(m) && 1 <= size && rank < size
    ensures |m| % size != 0 ==> !symmetric
  {
    var n := |m|;
    n % size == 0 &&
    Bcast(Flatten(m, n) == Flatten(Reassembled(GatheredTranspose(m, size), n, size), n), size)[rank]
  }

  /** For every number of processes that divides n, every rank of the
      corrected kernel returns whether the matrix is symmetric. */
  lemma {:induction false} IsSymmetricMpiCorrectedIsSymmetric(m: Matrix, size: nat, rank: nat)
    requires Square(m) && 1 <= size && rank < size && |m| % size == 0
    ensures IsSymmetricMpiCorrected(m, size, rank) <==> IsSymmetric(m)
  {
    ReassembledIsTranspose(m, size);
    FlattenInjective(m, Transpose(m));
    SymmetricIffTransposeFixed(m);
  }

  /** The root's scan in is_symmetric_mpi: both loops stop as soon as the
      flag drops, and the flag is true exactly when the buffers agree. */
  method CompareFlat(flatMatrix: array<int>, flatTransposed: array<int>, n: nat) returns (isSymmetric: bool)
    requires flatMatrix.Length == n * n && flatTransposed.Length == n * n
    ensures isSymmetric <==> flatMatrix[..] == flatTransposed[..]
  {
    isSymmetric := true;
    var i := 0;
    while i < n && isSymmetric
      invariant 0 <= i <= n
      invariant i * n <= n * n
      invariant isSymmetric ==> flatMatrix[..i * n] == flatTransposed[..i * n]
      invariant !isSymmetric ==> flatMatrix[..] != flatTransposed[..]
    {
      RowSpan(i, n, n);
      var j := 0;
      while j < n && isSymmetric
        invariant 0 <= j <= n
        invariant isSymmetric ==> flatMatrix[..i * n + j] == flatTransposed[..i * n + j]
        invariant !isSymmetric ==> flatMatrix[..] != flatTransposed[..]
      {
        if flatMatrix[i * n + j] != flatTransposed[i * n + j] {
          assert flatMatrix[..][i * n + j] != flatTransposed[..][i * n + j];
          isSymmetric := false;
        } else {
          assert flatMatrix[..i * n + j + 1] == flatMatrix[..i * n + j] + [flatMatrix[i * n + j]];
          assert flatTransposed[..i * n + j + 1] == flatTransposed[..i * n + j] + [flatTransposed[i * n + j]];
        }
        j := j + 1;
      }
      assert (i + 1) * n == i * n + n;
      i := i + 1;
    }
    if isSymmetric {
      assert flatMatrix[..] == flatMatrix[..n * n];
      assert flatTransposed[..] == flatTransposed[..n * n];
    }
  }

  // ---------------------------------------------------------------------
  // alltoall_transpose_mpi

  /** Exact division of a multiple. */
  lemma {:induction false} DivMultiple(size: int, x: int)
    requires 1 <= size
    ensures (size * x) / size == x
  {
    var q := (size * x) / size;
    if q < x {
      MulLe(q + 1, x, size);
    } else if q > x {
      MulLe(x + 1, q, size);
    }
  }

  /** The counts alltoall_transpose_mpi computes in C integer arithmetic: a
      chunk of the all-to-all is b*n/size = b*b entries, and the offset of
      chunk p in the receive buffer, p*b*n/size, is p*(b*b). */
  lemma {:induction false} AlltoallCounts(n: nat, size: nat, p: nat)
    requires 1 <= size && n % size == 0
    ensures (n / size) * n / size == (n / size) * (n / size)
    ensures p * (n / size) * n / size == p * ((n / size) * (n / size))
  {
    ChunkCount(n, size);
    var b := n / size;
    DivMultiple(size, b * b);
    calc {
      p * b * n;
      p * (b * n);
      p * (size * (b * b));
      size * (p * (b * b));
    }
    DivMultiple(size, p * (b * b));
  }

  lemma {:induction false} RowOffset(lo: int, i: int, n: int, j: int)
    ensures (lo + i) * n + j == lo * n + (i * n + j)
  {
  }

  /** Rows [lo, lo + count) of a flattened n x n matrix. */
  function RowBlock(flat: seq<int>, n: nat, lo: nat, count: nat): (block: seq<int>)
    requires |flat| == n * n && lo + count <= n
    ensures |block| == count * n
  {
    MulLe(lo + count, n, n);
    RowOffset(lo, count, n, 0);
    flat[lo * n .. lo * n + count * n]
  }

  /** Entry (i, j) of a row block, read from the whole buffer. */
  lemma {:induction false} RowBlockAt(flat: seq<int>, n: nat, lo: nat, count: nat, i: int, j: int)
    requires |flat| == n * n && lo + count <= n && 0 <= i < count && 0 <= j < n
    ensures 0 <= i * n + j < count * n && 0 <= (lo + i) * n + j < n * n
    ensures RowBlock(flat, n, lo, count)[i * n + j] == flat[(lo + i) * n + j]
  {
    RowMajorIndex(i, j, count, n);
    RowMajorIndex(lo + i, j, n, n);
    RowOffset(lo, i, n, j);
  }

  /** The packing loop of alltoall_transpose_mpi: rank `rank` sends its block
      of b = n / size whole rows, send[i*n + j] = flat[(rank*b + i)*n + j]. */
  method PackSendBuffer(flatMatrix: array<int>, n: nat, size: nat, rank: nat) returns (send: array<int>)
    requires 1 <= size && rank < size && n % size == 0 && flatMatrix.Length == n * n
    ensures fresh(send)
    ensures rank * (n / size) + n / size <= n
    ensures send[..] == RowBlock(flatMatrix[..], n, rank * (n / size), n / size)
  {
    var b := n / size;
    ChunkCount(n, size);
    RowSpan(rank, size, b);
    ghost var lo := rank * b;
    ghost var block := RowBlock(flatMatrix[..], n, lo, b);
    send := new int[b * n];
    for i := 0 to b
      invariant forall k :: 0 <= k < |block| && k < i * n ==> send[k] == block[k]
    {
      for j := 0 to n
        invariant forall k :: 0 <= k < |block| && k < i * n + j ==> send[k] == block[k]
      {
        RowBlockAt(flatMatrix[..], n, lo, b, i, j);
        send[i * n + j] := flatMatrix[(rank * b + i) * n + j];
      }
      assert (i + 1) * n == i * n + n;
    }
    assert |block| <= b * n;
  }

  /** Where entry (j, c) of the rearranged rows comes from in the receive
      buffer: chunk c / b, row c mod b of the b x b block, column j. */
  function RecvIndex(j: int, c: int, n: nat, size: nat): (s: int)
    requires 1 <= size && n % size == 0 && 0 <= j < n / size && 0 <= c < n
    ensures 0 <= s < (n / size) * n
  {
    var b := n / size;
    ChunkCount(n, size);
    RowMajorSplit(c, size, b);
    RowMajorIndex(c % b, j, b, b);
    RowMajorIndex(c / b, (c % b) * b + j, size, b * b);
    (c / b) * (b * b) + ((c % b) * b + j)
  }

  /** The rearrangement loop: rows [0, b) of transposed_flat, where
      transposed_flat[j*n + p*b + i] = recv[p*b*b + i*b + j]. */
  function RearrangedRows(recv: seq<int>, n: nat, size: nat): (rows: seq<int>)
    requires 1 <= size && n % size == 0 && |recv| == (n / size) * n
    ensures |rows| == (n / size) * n
  {
    var b := n / size;
    Flatten(seq(b, j requires 0 <= j < b =>
      seq(n, c requires 0 <= c < n => recv[RecvIndex(j, c, n, size)])), n)
  }

  lemma {:induction false} RearrangedAt(recv: seq<int>, n: nat, size: nat, p: int, i: int, j: int)
    requires 1 <= size && n % size == 0 && |recv| == (n / size) * n
    requires 0 <= p < size && 0 <= i < n / size && 0 <= j < n / size
    ensures 0 <= p * (n / size) + i < n
    ensures 0 <= j * n + (p * (n / size) + i) < (n / size) * n
    ensures 0 <= p * ((n / size) * (n / size)) + (i * (n / size) + j) < (n / size) * n
    ensures RearrangedRows(recv, n, size)[j * n + (p * (n / size) + i)] ==
            recv[p * ((n / size) * (n / size)) + (i * (n / size) + j)]
  {
    var b := n / size;
    ChunkCount(n, size);
    RowMajorIndex(p, i, size, b);
    var rows := seq(b, j' requires 0 <= j' < b =>
      seq(n, c requires 0 <= c < n => recv[RecvIndex(j', c, n, size)]));
    FlattenAt(rows, n, j, p * b + i);
    assert RecvIndex(j, p * b + i, n, size) == p * (b * b) + (i * b + j);
  }

  /** Rearranged so far: the loops over p, i, j have passed the entry k of
      rows [0, b), whose column c = k mod n lies in chunk c / b at row
      c mod b, and whose row is k / n. */
  ghost predicate RearrangeDone(k: int, n: nat, b: nat, p: int, i: int, j: int) {
    n > 0 && b > 0 &&
    var c := k % n;
    c / b < p || (c / b == p && (c % b < i || (c % b == i && k / n < j)))
  }

  ghost predicate RearrangeState(cur: seq<int>, before: seq<int>, rows: seq<int>,
                                 n: nat, b: nat, p: int, i: int, j: int)
    requires |cur| == |before| == n * n && |rows| == b * n
  {
    forall k :: 0 <= k < n * n ==>
      cur[k] == if k < b * n && RearrangeDone(k, n, b, p, i, j) then rows[k] else before[k]
  }

  lemma {:induction false} RearrangeStep(cur: seq<int>, before: seq<int>, rows: seq<int>, n: nat, size: nat, b: nat,
                      p: int, i: int, j: int, v: int)
    requires n == size * b && |cur| == |before| == n * n && |rows| == b * n
    requires 0 <= p < size && 0 <= i < b && 0 <= j < b
    requires RearrangeState(cur, before, rows, n, b, p, i, j)
    ensures 0 <= j * n + (p * b + i) < b * n <= n * n
    ensures v == rows[j * n + (p * b + i)] ==>
      RearrangeState(cur[j * n + (p * b + i) := v], before, rows, n, b, p, i, j + 1)
  {
    RowMajorIndex(p, i, size, b);
    RowMajorIndex(j, p * b + i, b, n);
    MulLe(b, n, n);
    var w := j * n + (p * b + i);
    if v == rows[w] {
      var next := cur[w := v];
      forall k | 0 <= k < b * n
        ensures RearrangeDone(k, n, b, p, i, j + 1) <==> RearrangeDone(k, n, b, p, i, j) || k == w
      {
        RearrangeDoneNext(k, n, size, b, p, i, j);
      }
    }
  }

  /** The entry written at step (p, i, j) is the only one that step adds to
      the ones already done. */
  lemma {:induction false} RearrangeDoneNext(k: int, n: nat, size: nat, b: nat, p: int, i: int, j: int)
    requires n == size * b && 0 <= p < size && 0 <= i < b && 0 <= j < b && 0 <= k < b * n
    ensures RearrangeDone(k, n, b, p, i, j + 1) <==> RearrangeDone(k, n, b, p, i, j) || k == j * n + (p * b + i)
  {
    RowMajorIndex(p, i, size, b);
    RowMajorIndex(j, p * b + i, b, n);
    if k % n / b == p && k % n % b == i && k / n == j {
      RowMajorSplit(k, b, n);
      RowMajorSplit(k % n, size, b);
    }
  }

  lemma {:induction false} RearrangeStart(before: seq<int>, rows: seq<int>, n: nat, b: nat)
    requires |before| == n * n && |rows| == b * n
    ensures RearrangeState(before, before, rows, n, b, 0, 0, 0)
  {
    forall k | 0 <= k < n * n && n > 0 && b > 0
      ensures !RearrangeDone(k, n, b, 0, 0, 0)
    {
      assert 0 <= k / n && 0 <= k % n / b;
    }
  }

  lemma {:induction false} RearrangeNextRow(cur: seq<int>, before: seq<int>, rows: seq<int>, n: nat, b: nat, p: int, i: int)
    requires |cur| == |before| == n * n && |rows| == b * n
    requires RearrangeState(cur, before, rows, n, b, p, i, b)
    ensures RearrangeState(cur, before, rows, n, b, p, i + 1, 0)
  {
    forall k | 0 <= k < n * n && k < b * n && RearrangeDone(k, n, b, p, i + 1, 0)
      ensures RearrangeDone(k, n, b, p, i, b)
    {
      RowMajorSplit(k, b, n);
    }
  }

  lemma {:induction false} RearrangeNextChunk(cur: seq<int>, before: seq<int>, rows: seq<int>, n: nat, size: nat, b: nat, p: int)
    requires n == size * b && |cur| == |before| == n * n && |rows| == b * n
    requires RearrangeState(cur, before, rows, n, b, p, b, 0)
    ensures RearrangeState(cur, before, rows, n, b, p + 1, 0, 0)
  {
    forall k | 0 <= k < n * n && k < b * n && RearrangeDone(k, n, b, p + 1, 0, 0)
      ensures RearrangeDone(k, n, b, p, b, 0)
    {
      RowMajorSplit(k, b, n);
      RowMajorSplit(k % n, size, b);
    }
  }

  lemma {:induction false} RearrangeFinished(cur: seq<int>, before: seq<int>, rows: seq<int>, n: nat, size: nat, b: nat)
    requires n == size * b && |cur| == |before| == n * n && |rows| == b * n && b * n <= n * n
    requires RearrangeState(cur, before, rows, n, b, size, 0, 0)
    ensures cur[..b * n] == rows && cur[b * n..] == before[b * n..]
  {
    forall k | 0 <= k < b * n ensures cur[k] == rows[k] {
      RowMajorSplit(k, b, n);
      RowMajorSplit(k % n, size, b);
      assert RearrangeDone(k, n, b, size, 0, 0);
    }
  }

  /** The innermost loop of the rearrangement: row i of the b x b block
      received from rank p becomes column p*b + i of rows [0, b). */
  method RearrangeBlockRow(recv: array<int>, transposedFlat: array<int>, n: nat, size: nat, p: nat, i: nat,
                           ghost before: seq<int>, ghost rows: seq<int>)
    requires 1 <= size && n % size == 0 && p < size && i < n / size
    requires recv.Length == (n / size) * n && transposedFlat.Length == n * n && recv != transposedFlat
    requires |before| == n * n && rows == RearrangedRows(recv[..], n, size)
    requires RearrangeState(transposedFlat[..], before, rows, n, n / size, p, i, 0)
    modifies transposedFlat
    ensures RearrangeState(transposedFlat[..], before, rows, n, n / size, p, i + 1, 0)
  {
    var b := n / size;
    ChunkCount(n, size);
    AlltoallCounts(n, size, p);
    for j := 0 to b
      invariant RearrangeState(transposedFlat[..], before, rows, n, b, p, i, j)
    {
      RearrangedAt(recv[..], n, size, p, i, j);
      assert p * b * n / size + i * (n / size) + j == p * (b * b) + (i * b + j);
      var v := recv[p * b * n / size + i * (n / size) + j];
      ghost var cur := transposedFlat[..];
      RearrangeStep(cur, before, rows, n, size, b, p, i, j, v);
      transposedFlat[j * n + p * b + i] := v;
      assert transposedFlat[..] == cur[j * n + (p * b + i) := v];
    }
    RearrangeNextRow(transposedFlat[..], before, rows, n, b, p, i);
  }

  /** The middle loop of the rearrangement: the b x b block received from
      rank p becomes columns [p*b, p*b + b) of rows [0, b). */
  method RearrangeChunk(recv: array<int>, transposedFlat: array<int>, n: nat, size: nat, p: nat,
                        ghost before: seq<int>, ghost rows: seq<int>)
    requires 1 <= size && n % size == 0 && p < size
    requires recv.Length == (n / size) * n && transposedFlat.Length == n * n && recv != transposedFlat
    requires |before| == n * n && rows == RearrangedRows(recv[..], n, size)
    requires RearrangeState(transposedFlat[..], before, rows, n, n / size, p, 0, 0)
    modifies transposedFlat
    ensures RearrangeState(transposedFlat[..], before, rows, n, n / size, p + 1, 0, 0)
  {
    var b := n / size;
    for i := 0 to b
      invariant RearrangeState(transposedFlat[..], before, rows, n, b, p, i, 0)
    {
      RearrangeBlockRow(recv, transposedFlat, n, size, p, i, before, rows);
    }
    ChunkCount(n, size);
    RearrangeNextChunk(transposedFlat[..], before, rows, n, size, b, p);
  }

  /** The rearrangement loop of alltoall_transpose_mpi, with the receive
      offsets computed in C integer arithmetic. It writes rows [0, b) of
      transposed_flat and leaves rows [b, n) as they were. */
  method Rearrange(recv: array<int>, transposedFlat: array<int>, n: nat, size: nat)
    requires 1 <= size && n % size == 0
    requires recv.Length == (n / size) * n && transposedFlat.Length == n * n && recv != transposedFlat
    modifies transposedFlat
    ensures (n / size) * n <= n * n
    ensures transposedFlat[..(n / size) * n] == RearrangedRows(recv[..], n, size)
    ensures transposedFlat[(n / size) * n..] == old(transposedFlat[(n / size) * n..])
  {
    ghost var rows := RearrangedRows(recv[..], n, size);
    ghost var before := transposedFlat[..];
    RearrangeStart(before, rows, n, n / size);
    for p := 0 to size
      invariant RearrangeState(transposedFlat[..], before, rows, n, n / size, p, 0, 0)
    {
      RearrangeChunk(recv, transposedFlat, n, size, p, before, rows);
    }
    var b := n / size;
    assert n == size * b;
    MulLe(b, n, n);
    RearrangeFinished(transposedFlat[..], before, rows, n, size, b);
  }

  /** The send buffers of alltoall_transpose_mpi: after the broadcast every
      rank holds the flattened matrix, and rank p packs its rows
      [p*b, p*b + b). */
  function RowBlockSends(m: Matrix, size: nat): (send: seq<seq<int>>)
    requires Square(m) && 1 <= size && |m| % size == 0
    ensures |send| == size && Rect(send, size * ((|m| / size) * |m| / size))
  {
    var n := |m|;
    var b := n / size;
    ChunkCount(n, size);
    AlltoallCounts(n, size, 0);
    seq(size, p requires 0 <= p < size =>
      RowSpan(p, size, b);
      RowBlock(Bcast(Flatten(m, n), size)[p], n, p * b, b))
  }

  /** alltoall_transpose_mpi as written: rows [0, b) of rank `rank`'s
      transposed_flat (rows [b, n) are never written; see Rearrange). */
  function AlltoallTransposeAsWritten(m: Matrix, size: nat, rank: nat): (rows: seq<int>)
    requires Square(m) && 1 <= size && rank < size && |m| % size == 0
    ensures |rows| == (|m| / size) * |m|
  {
    var n := |m|;
    var recv := Alltoall(RowBlockSends(m, size), (n / size) * n / size)[rank];
    ChunkCount(n, size);
    AlltoallCounts(n, size, 0);
    RearrangedRows(recv, n, size)
  }

  /** What rank `rank` places at column p*b + i of row j: the run of b*b
      consecutive entries that rank p sent it, read at offset i*b + j, that
      is entry rank*b*b + i*b + j of rank p's row block. */
  lemma {:induction false} AlltoallAsWrittenAt(m: Matrix, size: nat, rank: nat, p: int, i: int, j: int)
    requires Square(m) && 1 <= size && rank < size && |m| % size == 0
    requires 0 <= p < size && 0 <= i < |m| / size && 0 <= j < |m| / size
    ensures 0 <= j * |m| + (p * (|m| / size) + i) < (|m| / size) * |m|
    ensures 0 <= p * (|m| / size) * |m| + (rank * ((|m| / size) * (|m| / size)) + (i * (|m| / size) + j)) < |m| * |m|
    ensures AlltoallTransposeAsWritten(m, size, rank)[j * |m| + (p * (|m| / size) + i)] ==
            Flatten(m, |m|)[p * (|m| / size) * |m| + (rank * ((|m| / size) * (|m| / size)) + (i * (|m| / size) + j))]
  {
    var n := |m|;
    var b := n / size;
    ChunkCount(n, size);
    AlltoallCounts(n, size, 0);
    var sends := RowBlockSends(m, size);
    var recv := Alltoall(sends, b * b);
    RearrangedAt(recv[rank], n, size, p, i, j);
    RowMajorIndex(i, j, b, b);
    AlltoallAt(sends, b * b, rank, p, i * b + j);
    RowMajorIndex(rank, i * b + j, size, b * b);
    RowSpan(p, size, b);
    RowMajorSplit(rank * (b * b) + (i * b + j), b, n);
    var t := rank * (b * b) + (i * b + j);
    RowBlockAt(Flatten(m, n), n, p * b, b, t / n, t % n);
    RowOffset(p * b, t / n, n, t % n);
  }

  /** On a single process the kernel produces the whole transpose. */
  lemma {:induction false} AlltoallAsWrittenSingleProcess(m: Matrix)
    requires Square(m)
    ensures AlltoallTransposeAsWritten(m, 1, 0) == Flatten(Transpose(m), |m|)
  {
    var n := |m|;
    var result := AlltoallTransposeAsWritten(m, 1, 0);
    var ft := Flatten(Transpose(m), n);
    assert n / 1 == n;
    forall k | 0 <= k < n * n ensures result[k] == ft[k] {
      RowMajorSplit(k, n, n);
      var j, i := k / n, k % n;
      AlltoallAsWrittenAt(m, 1, 0, 0, i, j);
      assert 0 * n * n + (0 * (n * n) + (i * n + j)) == i * n + j;
      FlattenAt(m, n, i, j);
      FlattenAt(Transpose(m), n, j, i);
    }
  }

  /** With two processes and n = 4, rank 0 puts m[0][2] where the transpose
      has m[1][0]: entry 1 of the index matrix's result is 2, not 4. */
  lemma {:induction false} AlltoallAsWrittenMisplaces()
    ensures AlltoallTransposeAsWritten(IndexMatrix(4), 2, 0)[1] == 2
    ensures Flatten(Transpose(IndexMatrix(4)), 4)[1] == 4
  {
    var m := IndexMatrix(4);
    AlltoallAsWrittenAt(m, 2, 0, 0, 1, 0);
    FlattenAt(m, 4, 0, 2);
    FlattenAt(Transpose(m), 4, 0, 1);
  }

  /** The b x b block of a flattened n x n matrix whose top-left entry is
      (rowLo, colLo), flattened row-major. */
  function Tile(flat: seq<int>, n: nat, rowLo: nat, colLo: nat, b: nat): (tile: seq<int>)
    requires |flat| == n * n && rowLo + b <= n && colLo + b <= n
    ensures |tile| == b * b
  {
    Flatten(seq(b, t requires 0 <= t < b =>
      seq(b, u requires 0 <= u < b =>
        RowMajorIndex(rowLo + t, colLo + u, n, n);
        flat[(rowLo + t) * n + (colLo + u)])), b)
  }

  /** The packing the rearrangement loop expects: chunk q of rank p's send
      buffer is the block of rows [p*b, p*b + b) and columns [q*b, q*b + b). */
  function TileSends(m: Matrix, size: nat): (send: seq<seq<int>>)
    requires Square(m) && 1 <= size && |m| % size == 0
    ensures |send| == size && Rect(send, size * ((|m| / size) * (|m| / size)))
  {
    var n := |m|;
    var b := n / size;
    ChunkCount(n, size);
    seq(size, p requires 0 <= p < size =>
      RowSpan(p, size, b);
      Flatten(seq(size, q requires 0 <= q < size =>
        RowSpan(q, size, b);
        Tile(Bcast(Flatten(m, n), size)[p], n, p * b, q * b, b)), b * b))
  }

  /** alltoall_transpose_mpi with the block packing: rows [0, b) of rank
      `rank`'s transposed_flat. */
  function AlltoallTransposeCorrected(m: Matrix, size: nat, rank: nat): (rows: seq<int>)
    requires Square(m) && 1 <= size && rank < size && |m| % size == 0
    ensures |rows| == (|m| / size) * |m|
  {
    var n := |m|;
    ChunkCount(n, size);
    RearrangedRows(Alltoall(TileSends(m, size), (n / size) * (n / size))[rank], n, size)
  }

  lemma {:induction false} TileAt(flat: seq<int>, n: nat, rowLo: nat, colLo: nat, b: nat, t: int, u: int)
    requires |flat| == n * n && rowLo + b <= n && colLo + b <= n && 0 <= t < b && 0 <= u < b
    ensures 0 <= t * b + u < b * b && 0 <= (rowLo + t) * n + (colLo + u) < n * n
    ensures Tile(flat, n, rowLo, colLo, b)[t * b + u] == flat[(rowLo + t) * n + (colLo + u)]
  {
    var rowsOfTile := seq(b, t' requires 0 <= t' < b =>
      seq(b, u' requires 0 <= u' < b =>
        RowMajorIndex(rowLo + t', colLo + u', n, n);
        flat[(rowLo + t') * n + (colLo + u')]));
    assert Tile(flat, n, rowLo, colLo, b) == Flatten(rowsOfTile, b);
    RowMajorIndex(t, u, b, b);
    RowMajorIndex(rowLo + t, colLo + u, n, n);
    FlattenAt(rowsOfTile, b, t, u);
  }

  lemma {:induction false} TileSendsAt(m: Matrix, size: nat, p: int, q: int, i: int, j: int)
    requires Square(m) && 1 <= size && |m| % size == 0
    requires 0 <= p < size && 0 <= q < size && 0 <= i < |m| / size && 0 <= j < |m| / size
    ensures 0 <= q * ((|m| / size) * (|m| / size)) + (i * (|m| / size) + j) < size * ((|m| / size) * (|m| / size))
    ensures 0 <= p * (|m| / size) + i < |m| && 0 <= q * (|m| / size) + j < |m|
    ensures TileSends(m, size)[p][q * ((|m| / size) * (|m| / size)) + (i * (|m| / size) + j)] ==
            m[p * (|m| / size) + i][q * (|m| / size) + j]
  {
    var n := |m|;
    var b := n / size;
    assert n == size * b;
    RowSpan(p, size, b);
    RowSpan(q, size, b);
    var flat := Flatten(m, n);
    var tiles := seq(size, q' requires 0 <= q' < size =>
      RowSpan(q', size, b);
      Tile(Bcast(flat, size)[p], n, p * b, q' * b, b));
    assert TileSends(m, size)[p] == Flatten(tiles, b * b);
    RowMajorIndex(i, j, b, b);
    FlattenAt(tiles, b * b, q, i * b + j);
    TileAt(flat, n, p * b, q * b, b, i, j);
    RowMajorIndex(p, i, size, b);
    RowMajorIndex(q, j, size, b);
    FlattenAt(m, n, p * b + i, q * b + j);
  }

  /** With the block packing, rank q's rows [0, b) are rows [q*b, q*b + b) of
      the transpose, for every number of processes that divides n. */
  lemma {:induction false} AlltoallCorrectedIsTransposeBlock(m: Matrix, size: nat, rank: nat)
    requires Square(m) && 1 <= size && rank < size && |m| % size == 0
    ensures rank * (|m| / size) + |m| / size <= |m|
    ensures AlltoallTransposeCorrected(m, size, rank) ==
            RowBlock(Flatten(Transpose(m), |m|), |m|, rank * (|m| / size), |m| / size)
  {
    var n := |m|;
    var b := n / size;
    ChunkCount(n, size);
    RowSpan(rank, size, b);
    var lhs := AlltoallTransposeCorrected(m, size, rank);
    var rhs := RowBlock(Flatten(Transpose(m), n), n, rank * b, b);
    forall k | 0 <= k < b * n ensures lhs[k] == rhs[k] {
      AlltoallCorrectedAt(m, size, rank, k);
    }
  }

  /** AlltoallCorrectedIsTransposeBlock at one entry k of rank q's block. */
  lemma {:induction false} AlltoallCorrectedAt(m: Matrix, size: nat, rank: nat, k: int)
    requires Square(m) && 1 <= size && rank < size && |m| % size == 0
    requires 0 <= k < (|m| / size) * |m|
    ensures rank * (|m| / size) + |m| / size <= |m|
    ensures k < |AlltoallTransposeCorrected(m, size, rank)| &&
            k < |RowBlock(Flatten(Transpose(m), |m|), |m|, rank * (|m| / size), |m| / size)| &&
            AlltoallTransposeCorrected(m, size, rank)[k] ==
            RowBlock(Flatten(Transpose(m), |m|), |m|, rank * (|m| / size), |m| / size)[k]
  {
    var n := |m|;
    var b := n / size;
    ChunkCount(n, size);
    RowSpan(rank, size, b);
    RowMajorSplit(k, b, n);
    var j, c := k / n, k % n;
    var sends := TileSends(m, size);
    var recv := Alltoall(sends, b * b);
    RowMajorSplit(c, size, b);
    var p, i := c / b, c % b;
    RearrangedAt(recv[rank], n, size, p, i, j);
    RowMajorIndex(i, j, b, b);
    AlltoallAt(sends, b * b, rank, p, i * b + j);
    TileSendsAt(m, size, p, rank, i, j);
    RowBlockAt(Flatten(Transpose(m), n), n, rank * b, b, j, c);
    RowMajorIndex(rank, j, size, b);
    FlattenAt(Transpose(m), n, rank * b + j, c);
  }

  /** Concatenating the row blocks of all ranks gives back the whole buffer. */
  lemma {:induction false} RowBlocksConcat(flat: seq<int>, n: nat, size: nat)
    requires 1 <= size && n % size == 0 && |flat| == n * n
    ensures forall p :: 0 <= p < size ==> p * (n / size) + n / size <= n
    ensures Flatten(seq(size, p requires 0 <= p < size =>
              RowSpan(p, size, n / size); RowBlock(flat, n, p * (n / size), n / size)), (n / size) * n) == flat
  {
    var b := n / size;
    assert n == size * b;
    assert n * n == size * (b * n) by {
      calc {
        n * n;
        (size * b) * n;
        size * (b * n);
      }
    }
    forall p | 0 <= p < size ensures p * b + b <= n {
      RowSpan(p, size, b);
    }
    var blocks := seq(size, p requires 0 <= p < size =>
      RowSpan(p, size, b); RowBlock(flat, n, p * b, b));
    var whole := Flatten(blocks, b * n);
    forall k | 0 <= k < n * n ensures whole[k] == flat[k] {
      RowMajorSplit(k, size, b * n);
      var p, t := k / (b * n), k % (b * n);
      FlattenAt(blocks, b * n, p, t);
      RowBlockOffset(flat, n, size, b, p, t);
    }
  }

  lemma {:induction false} RowBlockOffset(flat: seq<int>, n: nat, size: nat, b: nat, p: int, t: int)
    requires n == size * b && |flat| == n * n && 0 <= p < size && 0 <= t < b * n
    ensures p * b + b <= n && 0 <= p * (b * n) + t < n * n
    ensures RowBlock(flat, n, p * b, b)[t] == flat[p * (b * n) + t]
  {
    RowSpan(p, size, b);
    MulLe(p * b + b, n, n);
    assert (p * b) * n == p * (b * n);
    assert (p * b + b) * n == p * (b * n) + b * n;
  }

  /** Gathering every rank's corrected rows in rank order gives the
      flattened transpose. */
  lemma {:induction false} AlltoallCorrectedAssembles(m: Matrix, size: nat)
    requires Square(m) && 1 <= size && |m| % size == 0
    ensures Flatten(seq(size, q requires 0 <= q < size => AlltoallTransposeCorrected(m, size, q)),
                    (|m| / size) * |m|) == Flatten(Transpose(m), |m|)
  {
    var n := |m|;
    var b := n / size;
    var ft := Flatten(Transpose(m), n);
    var slabs := seq(size, q requires 0 <= q < size => AlltoallTransposeCorrected(m, size, q));
    var blocks := seq(size, p requires 0 <= p < size =>
      RowSpan(p, size, b); RowBlock(ft, n, p * b, b));
    forall q | 0 <= q < size ensures slabs[q] == blocks[q] {
      AlltoallCorrectedIsTransposeBlock(m, size, q);
    }
    assert slabs == blocks;
    RowBlocksConcat(ft, n, size);
  }
}
