# PARCO transpose and symmetry kernels in Dafny

This project models the kernels of PARCO, a benchmark of square-matrix
transposition and symmetry checking at three levels of parallelism, and
proves what each kernel computes:

- the sequential reference (`sequential.dfy`);
- the "implicit" variants written for compiler vectorisation (`implicit.dfy`);
- the OpenMP kernels (`omp.dfy`, and the earlier version with a fixed tile
  side of 16 in `parallel.dfy`). They are run as sequential loops, because
  every result cell is written by exactly one iteration or tile.
- the MPI kernels (`mpi.dfy`). Scatter, gather, broadcast and all-to-all are
  pure functions from send buffers to receive buffers. The per-rank loops
  are methods tied to those functions.
- the result checks `correct_transpose` and `test_randomness` (`utils.dfy`);
- the command-line parser `init_config` (`config.dfy`).

Matrix elements are `int`. The kernels only copy elements and compare them
with `==` and `!=`. A C `float **` matrix is an `array2<int>`. Its value is
the sequence of rows `Rows(a)`, compared with the reference `Transpose` and
`IsSymmetric` in `matrices.dfy`. That module also holds the row-major
`Flatten`/`Unflatten` pair used by the MPI buffers, and `tiling.dfy` holds
what the tiled and recursive kernels share: clipped tiles, tile coverage,
and the cells the quadrant recursion reaches.

No kernel writes its input. The methods have no `modifies` clause for it,
so Dafny checks that they only read it.

The quadrant recursion (`transpose_implicit_recursive`,
`transpose_recursive`) halves its window with `size / 2`. It covers the
whole window when the size is at most the block size, or when the size is a
power of two and the block size is at least 1. An odd window larger than
the block size loses its last row and column. Both directions are proved,
and the cache-oblivious entry points promise the full transpose only under
the covering condition.

For more than one process the MPI kernels do not compute the transpose
that their names promise. The model states what the code computes, proves it
equal to the transpose for one process, and gives a corrected variant
beside it (see Findings).

## Model

| member | source | states |
|---|---|---|
| Matrices.LowerMatchesAll | src/sequential.c:11-26 | the row-major scan of the strict lower triangle that finds no mismatch has established symmetry, and conversely |
| Matrices.TransposedIntoRows | src/sequential.c:48-52 | a result with result[i][j] == matrix[j][i] for every cell holds the reference transpose |
| Matrices.TransposeInvolution | src/sequential.c:48-52 | transposing twice gives back the original matrix |
| Matrices.SymmetricIffTransposeFixed | src/sequential.c:14-15 | a matrix is symmetric exactly when it equals its transpose |
| Matrices.FlattenAt | src/mpi_parallel.c:16-18 | the row-major buffer holds m[i][j] at index i*cols + j |
| Matrices.UnflattenAt | src/mpi_parallel.c:30-41 | row i of the rebuilt matrix holds flat[i*cols + j] at column j |
| Matrices.UnflattenFlatten | src/mpi_parallel.c:10-44 | rebuilding a flattened matrix gives the matrix back |
| Matrices.FlattenUnflatten | src/mpi_parallel.c:10-44 | flattening a rebuilt buffer gives the buffer back |
| Sequential.IsSymmetricSequential | src/sequential.c:7-36 | true exactly when every strictly-lower entry equals its mirror; true for n <= 1; on false, the ghost result names the first mismatching pair (i, j), j < i, in row-major order |
| Sequential.TransposeSequential | src/sequential.c:38-62 | a fresh n-by-n result equal to the transpose of the input |
| Tiling.Min | src/implicit_parallel.c:96-99 | the clipped tile bound is the smaller of its two arguments |
| Tiling.TransposeTile | src/implicit_parallel.c:96-102 | the two inner tile loops write result[k][l] = matrix[l][k] inside the tile and leave every other cell unchanged |
| Tiling.TileOfCoordinate | src/implicit_parallel.c:90-103 | a coordinate lies in exactly one tile [t*b, t*b + b), the one with t = r / b, so tiles are disjoint and cover the matrix |
| Tiling.TransposeWindow | src/implicit_parallel.c:118-127 | the base case writes transposed[j][i] = original[i][j] for the whole window and nothing outside it |
| Tiling.RecursedBase | src/implicit_parallel.c:118-127 | a window no larger than the block size is copied whole, and that copy is the effect the recursion specifies for it |
| Tiling.RecursedQuadrants | src/implicit_parallel.c:128-136 | the four quadrant calls, applied one after the other in call order, have the effect specified for the call on the whole window |
| Tiling.OutsideNotCovered | src/implicit_parallel.c:116-137 | no cell outside the window [startRow, startRow + size) x [startCol, startCol + size) is covered by the recursion on it |
| Tiling.CoveredByQuadrant | src/implicit_parallel.c:130-135 | a cell covered by one of the four quadrant calls is covered by the call on the whole window |
| Tiling.CoveredInWindow | src/implicit_parallel.c:116-137 | the recursion writes only inside its window |
| Tiling.QuadrantsDisjoint | src/implicit_parallel.c:130-135 | the four quadrant calls reach pairwise disjoint cells |
| Tiling.CoveredWholeWindow | src/implicit_parallel.c:118-136 | a window no larger than the block size, or a power-of-two window with block size at least 1, is covered in full |
| Tiling.OddWindowSkipsLastRowAndColumn | src/implicit_parallel.c:130-135 | an odd window larger than the block size is not covered on its last row or its last column |
| Implicit.IsSymmetricImplicit | src/implicit_parallel.c:8-39 | true exactly when the matrix is symmetric; on false, the first mismatch in row-major order |
| Implicit.TransposeImplicit | src/implicit_parallel.c:41-71 | a fresh result equal to the transpose |
| Implicit.TransposeImplicitBlockBased | src/implicit_parallel.c:73-114 | for every block size >= 1, including n not a multiple of it, the result equals the transpose |
| Implicit.TransposeImplicitRecursive | src/implicit_parallel.c:116-137 | transposed[j][i] = original[i][j] for exactly the covered cells of the window; every other cell unchanged |
| Implicit.ImplicitQuadrants | src/implicit_parallel.c:128-136 | the recursive case: the four quadrant calls leave `transposed` as the recursion on the whole window specifies |
| Implicit.ImplicitQuadrantRow | src/implicit_parallel.c:132-135 | two neighbouring quadrant calls, in call order, compose their specified effects |
| Implicit.TransposeImplicitCacheOblivious | src/implicit_parallel.c:139-158 | every covered cell holds the transpose; the whole result is the transpose when n <= block size or n is a power of two and the block size >= 1 |
| Omp.IsSymmetricOmp | src/omp_parallel.c:7-35 | the flag, started true and only ever set false, ends true exactly when the matrix is symmetric |
| Omp.AndReduceBands | src/omp_parallel.c:14-24 | the AND of the threads' flags over consecutive row bands is the check over the union of the bands |
| Omp.ReductionIsSymmetry | src/omp_parallel.c:14-24 | for every split of the rows among threads the reduced flag is the symmetry of the matrix |
| Omp.TransposeOmp | src/omp_parallel.c:37-70 | a fresh result equal to the transpose |
| Omp.TransposeOmpBlockBased | src/omp_parallel.c:72-107 | for every block size >= 1 the clipped tiles produce the transpose |
| Omp.TransposeOmpTileDistributed | src/omp_parallel.c:110-147 | for every tile size >= 1 the result equals the transpose |
| Omp.TransposeOmpTasks | src/omp_parallel.c:149-194 | the tasks over [i, min(i+t, n)) x [j, min(j+t, n)) together produce the transpose |
| Omp.TransposeRecursive | src/omp_parallel.c:196-224 | transposed[j][i] = original[i][j] for exactly the covered cells of the window; every other cell unchanged |
| Omp.TransposeQuadrants | src/omp_parallel.c:205-222 | the recursive case: the four quadrant tasks, run in spawn order up to the taskwait, leave `transposed` as the recursion on the whole window specifies |
| Omp.TransposeQuadrantRow | src/omp_parallel.c:209-219 | two neighbouring quadrant tasks, in spawn order, compose their specified effects |
| Omp.TransposeCacheOblivious | src/omp_parallel.c:226-258 | covered cells hold the transpose; the whole result is the transpose when n <= block size or n is a power of two and the block size >= 1 |
| Parallel.IsSymmetricOmp | src/parallel.c:8-31 | true exactly when every strictly-lower entry equals its mirror |
| Parallel.TransposeOmp | src/parallel.c:33-62 | a fresh result equal to the transpose |
| Parallel.TransposeOmpBlockBased | src/parallel.c:64-89 | with the fixed tile side 16 the result equals the transpose for every n |
| Mpi.Scatter | src/mpi_parallel.c:85-94 | each of the size ranks receives a chunk of count elements |
| Mpi.Gather | src/mpi_parallel.c:134-143 | the root receives size * count elements |
| Mpi.Bcast | src/mpi_parallel.c:172 | every rank receives the root's value |
| Mpi.Alltoall | src/mpi_parallel.c:402-403 | every rank receives a buffer of size * count elements |
| Mpi.GatherScatter | src/mpi_parallel.c:85-143 | gathering the scattered chunks rebuilds the root's buffer |
| Mpi.AlltoallAt | src/mpi_parallel.c:402-403 | chunk p of rank q's receive buffer is chunk q of rank p's send buffer |
| Mpi.AlltoallInvolution | src/mpi_parallel.c:402-403 | two all-to-all exchanges give back the send buffers |
| Mpi.LocalTransposedAt | src/mpi_parallel.c:116-120 | the local step puts local[i*n + j] at index j*rows + i |
| Mpi.LocalTransposedRoundTrip | src/mpi_parallel.c:116-120 | the local step undone with rows and n swapped gives the chunk back, so it is a permutation |
| Mpi.LocalTranspose | src/mpi_parallel.c:116-120 | the loop nest fills a fresh buffer with the local transpose of the chunk |
| Mpi.FlattenMatrix | src/mpi_parallel.c:10-20 | the row copies fill a fresh buffer with the row-major flattening of the matrix |
| Mpi.Create2DMatrix | src/mpi_parallel.c:23-44 | the row copies build a fresh rows-by-cols matrix whose row i is flat[i*cols .. i*cols + cols) |
| Mpi.ScatteredAt | src/mpi_parallel.c:85-94 | after the scatter, rank p's chunk holds m[p*r + i][j] at i*n + j, with r = n/size |
| Mpi.GatheredAt | src/mpi_parallel.c:271-313 | after the gather, rank 0 holds m[p*r + i][j] at p*r*n + j*r + i |
| Mpi.GatheredTranspose | src/mpi_parallel.c:243-313 | rank 0's gathered buffer after scatter, local transpose and gather has n*n entries (its contents: Mpi.GatheredAt) |
| Mpi.TransposeMpi | src/mpi_parallel.c:327-349 | a matrix is returned on rank 0 and on no other rank, n by n |
| Mpi.TransposeMpiSingleProcess | src/mpi_parallel.c:271-337 | with one process the result on rank 0 is the transpose |
| Mpi.TransposeMpiNotTranspose | src/mpi_parallel.c:271-337 | with two or more processes the result is not the transpose of the matrix m[i][j] = i*n + j |
| Mpi.ReassembledIsTranspose | src/mpi_parallel.c:326-329 | reading the gathered buffer at p*r*n + y*r + i for cell (x, y), x = p*r + i, gives the transpose |
| Mpi.TransposeMpiCorrected | src/mpi_parallel.c:327-337 | the corrected kernel also returns a matrix on rank 0 only |
| Mpi.TransposeMpiCorrectedIsTranspose | src/mpi_parallel.c:190-350 | the corrected kernel returns the transpose for every process count that divides n |
| Mpi.IsSymmetricMpi | src/mpi_parallel.c:46-172 | false on every rank when size does not divide n; true exactly when size divides n and the flattened matrix equals the gathered buffer |
| Mpi.IsSymmetricMpiAgreement | src/mpi_parallel.c:57-172 | every rank returns rank 0's verdict after the broadcast |
| Mpi.IsSymmetricMpiSingleProcess | src/mpi_parallel.c:159-167 | with one process the verdict is the symmetry of the matrix |
| Mpi.IsSymmetricMpiOneRowPerProcess | src/mpi_parallel.c:116-120 | with one row per process every matrix is reported symmetric |
| Mpi.IsSymmetricMpiAcceptsAsymmetric | src/mpi_parallel.c:116-167 | the asymmetric matrix [[1, 2], [3, 4]] on two processes is reported symmetric |
| Mpi.IsSymmetricMpiCorrected | src/mpi_parallel.c:55-61 | the corrected check keeps the divisibility test: false on every rank when size does not divide n (its verdict otherwise: Mpi.IsSymmetricMpiCorrectedIsSymmetric) |
| Mpi.IsSymmetricMpiCorrectedIsSymmetric | src/mpi_parallel.c:159-167 | the corrected comparison is true on every rank exactly when the matrix is symmetric |
| Mpi.CompareFlat | src/mpi_parallel.c:159-167 | the scan with early exit is true exactly when the two buffers are equal |
| Mpi.RowBlockAt | src/mpi_parallel.c:392-396 | the row block holds flat[(lo + i)*n + j] at i*n + j |
| Mpi.RowBlockSends | src/mpi_parallel.c:378-403 | after the broadcast rank p packs its rows [p*b, p*b + b): size send buffers of size chunks of b*n/size entries each (contents: Mpi.RowBlockAt) |
| Mpi.PackSendBuffer | src/mpi_parallel.c:392-396 | the send buffer is rows [rank*b, rank*b + b) of the flattened matrix, with b = n/size |
| Mpi.RearrangedAt | src/mpi_parallel.c:417-423 | the rearranged rows hold recv[p*b*b + i*b + j] at j*n + p*b + i |
| Mpi.RearrangeBlockRow | src/mpi_parallel.c:419-421 | the innermost loop writes the j-run of one (p, i) pair and nothing else |
| Mpi.RearrangeChunk | src/mpi_parallel.c:418-422 | the middle loop writes every entry taken from sender p |
| Mpi.Rearrange | src/mpi_parallel.c:417-423 | rows [0, b) of transposed_flat are the rearranged receive buffer and rows [b, n) are not written |
| Mpi.AlltoallTransposeAsWritten | src/mpi_parallel.c:352-445 | each rank computes b rows of n entries |
| Mpi.AlltoallAsWrittenAt | src/mpi_parallel.c:392-423 | entry j*n + p*b + i of rank r's rows is entry p*b*n + r*b*b + i*b + j of the flattened matrix |
| Mpi.AlltoallAsWrittenSingleProcess | src/mpi_parallel.c:392-426 | with one process the result is the flattened transpose |
| Mpi.AlltoallAsWrittenMisplaces | src/mpi_parallel.c:402-423 | for n = 4 on two processes, rank 0's entry 1 is 2 where the transpose has 4 |
| Mpi.TileSendsAt | src/mpi_parallel.c:392-403 | in the corrected exchange, chunk q of rank p's send buffer is the b-by-b tile (p, q) of the matrix |
| Mpi.AlltoallTransposeCorrected | src/mpi_parallel.c:392-423 | with b-by-b tiles packed, rank q computes b rows of n entries (their contents: Mpi.AlltoallCorrectedIsTransposeBlock) |
| Mpi.AlltoallCorrectedIsTransposeBlock | src/mpi_parallel.c:392-423 | the corrected kernel leaves on each rank its b rows of the transpose |
| Mpi.AlltoallCorrectedAt | src/mpi_parallel.c:392-423 | each entry of the corrected kernel's block on rank q is the matching entry of the transpose |
| Mpi.AlltoallCorrectedAssembles | src/mpi_parallel.c:417-426 | the ranks' rows of the corrected kernel, in rank order, are the whole flattened transpose |
| Utils.CorrectTranspose | src/utils.c:13-25 | "Correct" exactly when the two matrices are equal; on "Not correct", the first mismatch in row-major order |
| Utils.CountInRow | src/utils.c:33-41 | scanning one row of m2 either passes a count of 1, and then v occurs more than once in m2, or leaves the count of v in the rows up to this one |
| Utils.CountsMoreThanOnce | src/utils.c:32-43 | the inner scan stops with "Not random" exactly when the value occurs at least twice in m2 |
| Utils.TestRandomness | src/utils.c:28-47 | "Random" exactly when no entry of m1 occurs more than once in m2 |
| Utils.RandomAgainstItselfIffDistinct | src/utils.c:28-47 | a matrix tested against itself is "Random" exactly when its entries are pairwise distinct |
| Configuration.ApplyCluster | src/config.c:106-123 | a cluster changes only the three benchmark switches, each only to 1; it fails only on a letter of the cluster other than s, i and o, which the error names |
| Configuration.ParseFrom | src/config.c:31-144 | init_config's loop from argv[i]: a missing value is reported only for a value flag in last position, and curr_run is never changed |
| Configuration.ExitStatus | src/config.c:33-143 | the parse exits with status 0 exactly on --help, 1 on every error |
| Configuration.ConfigStore.constructor | src/config.c:8 | the global configuration starts with every field zero |
| Configuration.ConfigStore.InitConfig | src/config.c:11-156 | the argv loop returns the parse's outcome and assigns the global only when the whole vector is accepted |
| Configuration.NoArgumentsGivesDefaults | src/config.c:13-21 | with no arguments: dimension 1024, verbosity 0, block size 4, one run, four threads, no benchmark |
| Configuration.ClusterMeaning | src/config.c:106-123 | a cluster is accepted exactly when all its letters are s, i or o, and switches on exactly the benchmarks named |
| Configuration.BareDashChangesNothing | src/config.c:106-107 | a bare "-" is accepted and changes nothing |
| Configuration.ParsedIsSane | src/config.c:61-139 | every installed configuration has verbosity in [0, 2], positive runs and threads, and switches 0 or 1 |
| Configuration.ParseStep | src/config.c:48-139 | one accepted argument, with its value if it takes one, moves the parse to the next argument position; a value flag's setting becomes its value, every other flag's setting is unchanged, and sane settings stay sane |
| Configuration.ParseReaches | src/config.c:31-144 | an accepted parse passes through every argument position on its way, with some settings |
| Configuration.FlagKept | src/config.c:31-144 | a value flag that the rest of the parse does not meet as an argument keeps its setting |
| Configuration.ParseIsSane | src/config.c:31-155 | the same, for the parse from argv[1] with the defaults |
| Configuration.TrailingValueFlagFails | src/config.c:49-58 | a value flag with no argument after it is an error naming the flag |
| Configuration.RangeChecks | src/config.c:61-139 | a verbosity outside [0, 2], or runs or threads <= 0, is an error carrying the value |
| Configuration.LastOccurrenceWins | src/config.c:31-144 | for each of --matrix-dimension, --verbose, --block-size, --runs and --threads, the last occurrence the parse reaches sets the installed value, whatever occurrences and other arguments come before it |
| Configuration.RepeatedBlockSizeExample | src/config.c:78-87 | `--block-size 4 -s --block-size 8` is accepted and installs block size 8 |
| Configuration.UnknownArgumentFails | src/config.c:140-143 | an argument not starting with '-', or an unrecognised long option, is an error |
| Configuration.HelpEndsParse | src/config.c:33-46 | --help ends the parse whatever follows it |

## Left out

- Matrix elements are `int`, not IEEE `float`. C's `!=` on NaN is true even between identical bit patterns, so a matrix holding NaN is reported asymmetric; the model does not capture that.
- Timing (`clock_gettime`, `omp_get_wtime`, `MPI_Wtime`, the `*time` out-parameter), every `printf` and verbosity branch, and `print_matrix` are output only and are not modelled.
- Allocation failure and the cleanup and `exit`/`MPI_Abort` paths after it are not modelled; every allocation succeeds.
- OpenMP scheduling, `atomic`, `cancel`, tasks and `taskwait` are not modelled: each kernel runs its iterations or tasks in one fixed order. The tiles are disjoint (Tiling.TileOfCoordinate, Tiling.QuadrantsDisjoint), so any order writes the same cells.
- A `float **` matrix is an `array2<int>`: rows cannot alias each other or the input, so writes through shared rows are not modelled.
- Cells that the C code leaves uninitialised (after `malloc`) are unspecified in the model. Those are the cells the quadrant recursion misses for sizes that are not powers of two, and rows [n/size, n) of `transposed_flat` in `alltoall_transpose_mpi`.
- Implicit.TransposeImplicitBlockBased, Omp.TransposeOmpBlockBased, Omp.TransposeOmpTileDistributed and Omp.TransposeOmpTasks require a block or tile size of at least 1: for n >= 1, a size of 0 or less makes the tile loops never advance and the C code does not terminate (for n == 0 the loops do not run at all).
- Implicit.TransposeImplicitRecursive, Omp.TransposeRecursive and the cache-oblivious entry points require a block size of at least 0: with a negative one the recursion never reaches its base case.
- Mpi.TransposeMpi and Mpi.AlltoallTransposeAsWritten require the process count to divide n. The source assumes it without checking (src/mpi_parallel.c:217); only is_symmetric_mpi tests it, and that test is modelled.
- Mpi.AlltoallTransposeAsWritten gives the rows [0, n/size) that the rearrangement writes, not the whole n-by-n matrix that `create_2d_matrix` copies from `transposed_flat`.
- MPI communicators, barriers, error codes and the dummy one-byte buffer of the non-root ranks are not modelled; the collectives always succeed.
- 32-bit overflow of `n * n`, `rows_per_proc * n` and `block_size * n` is not modelled: all arithmetic is unbounded.
- `atoi` is a parameter of the parser, and so is the overflow of its result.
- Arguments are assumed to contain no NUL character, so `strlen` is the length of the string.
- include/config.h declares fields that disagree with those src/config.c sets. The model follows src/config.c, and `get_config` is the `ConfigStore` object itself.
- The driver (src/main.c), matrix generation (src/init_matrix.c) and the plotting script (parser.py) are not part of this model.

## Findings

| source | as written | input that shows it | evidently intended | confidence | as-written member | corrected member |
|---|---|---|---|---|---|---|
| src/mpi_parallel.c:271-337 | transpose_mpi gathers each rank's local transpose (j*r + i within the chunk) and rebuilds the gathered buffer as a row-major n-by-n matrix | m[i][j] = i*n + j on 2 or more processes: result entry (0, n/size) is 1 instead of (n/size)*n | rank 0 returns the transpose of the matrix | not executed | Mpi.TransposeMpiNotTranspose | Mpi.TransposeMpiCorrected |
| src/mpi_parallel.c:116-167 | is_symmetric_mpi compares the matrix with the same gathered chunk-local transposes | [[1, 2], [3, 4]] on 2 processes is reported symmetric; with one row per process every matrix is | true exactly when the matrix is symmetric | not executed | Mpi.IsSymmetricMpiAcceptsAsymmetric | Mpi.IsSymmetricMpiCorrected |
| src/mpi_parallel.c:392-423 | alltoall_transpose_mpi sends contiguous runs of b*b entries of its row block instead of b-by-b tiles, and writes only rows [0, b) of transposed_flat | m[i][j] = i*4 + j on 2 processes: rank 0's entry 1 is 2, the transpose has 4 | each rank ends with its b rows of the transpose | not executed | Mpi.AlltoallAsWrittenMisplaces | Mpi.AlltoallTransposeCorrected |
