# Dense integer matrix multiplication, blocked and naïve, in Dafny

This project models the matrix-multiplication core of three benchmark
programs in `reto2hpc-main/`. All three multiply two square n × n integer
matrices A and B into C. Each program has two kernels:

- a naïve triple loop;
- a cache-blocked (tiled) loop nest that adds the same products in a different order.

The programs are:

- `multiplicacion_matrices.c`: both kernels, run sequentially over `int**` matrices.
- `multiplicacion_openmp.c`: the same two kernels with OpenMP work-sharing pragmas
  attached. The model reads them as the sequential loops that they annotate.
- `multiplicacion_procesos.c`: row-range kernels that write into one flat row-major
  buffer `C[i*n+j]` shared by forked worker processes. `main` checks its arguments,
  caps the process count at n, and splits the rows among the workers.

The meaning of every kernel is the ghost function `MatMul.Dot(A, B, i, j, lo, hi)`,
the sum of `A[i,k]*B[k,j]` over `k` in `[lo, hi)`. Every kernel is proved to
leave `Dot(A, B, i, j, 0, n)` in each cell that it is responsible for:

- The blocked kernels do this for every positive block size, so their result
  equals the naïve one and does not depend on the tuning constant.
- The row kernels also leave every cell outside their rows unchanged. This
  frame property is why workers with disjoint row ranges can share the buffer.
- The row partition is proved to cover `[0, n)` exactly once, with no empty
  range once the process count has been capped.

Files:

- `cli.dfy`: module `Cli`, the outcome of each program's argument check.
- `matmul.dfy`: module `MatMul`. It holds the specification (`Dot`, `IsProduct`) and
  the loop nests common to the two `int**` programs: the zeroing pass, the innermost
  accumulation, and the blocked nest, which is the same text in both files.
- `matrices.dfy`, `openmp.dfy` and `processes.dfy`: one module per program.

Three details of the code that the model follows:

- The process row kernel blocks only k and j, in the order kk → jj → i. It does
  not block i.
- Only the process program caps the worker count at n. The OpenMP program keeps
  any positive thread count.
- No kernel writes a cell of C only once. Every kernel clears the cell first.
  The blocked kernels then read, add and write it once per k-block, and the
  naïve ones once per k.

## Model

| member | source | states |
|---|---|---|
| `MatMul.DotSplit` | reto2hpc-main/multiplicacion_matrices.c:33-46 | the sum over `[lo, hi)` is the sum over `[lo, mid)` plus the sum over `[mid, hi)`; this lets the blocked nests add the k-blocks one after another |
| `MatMul.BlockEnd` | reto2hpc-main/multiplicacion_matrices.c:35-37 | a block bound `i_end`/`j_end`/`k_end` never exceeds n or start + BLOCK_SIZE, equals one of them, and lies strictly above a block start that is below n |
| `MatMul.AccumulateDot` | reto2hpc-main/multiplicacion_matrices.c:42-46 | the running `sum` loop returns its initial value plus the sum of `A[i,k]*B[k,j]` for k in `[lo, hi)` |
| `MatMul.ZeroRows` | reto2hpc-main/multiplicacion_matrices.c:26-28 | after the per-row `memset` every cell of C is 0 |
| `MatMul.AccumulateTile` | reto2hpc-main/multiplicacion_matrices.c:40-48 | one (ii, jj, kk) step adds the partial sum over `[kk, k_end)` to each cell of the tile `[ii, i_end) × [jj, j_end)` and changes no other cell |
| `MatMul.TileProduct` | reto2hpc-main/multiplicacion_openmp.c:38-54 | after the kk loop of one (ii, jj) tile, each cell of that tile has gained its full sum over `[0, n)`, and every cell outside the tile is unchanged |
| `MatMul.BlockedProduct` | reto2hpc-main/multiplicacion_matrices.c:22-52 | for every block size > 0, including one ≥ n, the blocked nest leaves `C[i][j] = Σ_{k<n} A[i][k]·B[k][j]` in every cell, whatever C held before |
| `Matrices.MultiplyOptimized` | reto2hpc-main/multiplicacion_matrices.c:22-52 | with BLOCK_SIZE 64, C becomes A × B; A and B are unchanged |
| `Matrices.MultiplyOriginal` | reto2hpc-main/multiplicacion_matrices.c:55-64 | the triple loop sets each cell to 0 before it accumulates, so C becomes A × B whatever it held before; A and B are unchanged |
| `Matrices.CheckArgs` | reto2hpc-main/multiplicacion_matrices.c:120-133 | `main` returns 1 exactly when the argument count is wrong or n ≤ 0; otherwise it goes on with size n |
| `Matrices.Benchmark` | reto2hpc-main/multiplicacion_matrices.c:158-175 | the original run and the optimised run, after C is cleared, leave the same matrix cell for cell, and both equal A × B |
| `OpenMP.MultiplyOptimized` | reto2hpc-main/multiplicacion_openmp.c:25-57 | the pragma-annotated blocked nest with BLOCK_SIZE 64 leaves C = A × B; A and B are only read |
| `OpenMP.MultiplySimple` | reto2hpc-main/multiplicacion_openmp.c:60-76 | the clearing pass followed by `C[i][j] +=` in the triple loop leaves C = A × B; A and B are only read |
| `OpenMP.BlockOwner` | reto2hpc-main/multiplicacion_openmp.c:36-42 | an index lies in block t, `[t·bs, min(t·bs+bs, n))`, exactly when t = i / bs, and that block starts below n, so the loop visits it |
| `OpenMP.TileOwner` | reto2hpc-main/multiplicacion_openmp.c:35-53 | cell (i, j) lies in tile (ti, tj) exactly when ti = i / bs and tj = j / bs; so the tiles that `collapse(2)` distributes are pairwise disjoint and cover the matrix |
| `OpenMP.CheckArgs` | reto2hpc-main/multiplicacion_openmp.c:132-146 | `main` returns 1 exactly when the argument count is wrong, n ≤ 0 or the thread count ≤ 0; otherwise the thread count is kept as given |
| `OpenMP.Benchmark` | reto2hpc-main/multiplicacion_openmp.c:176-194 | the simple run and the blocked run, after C is cleared, leave the same matrix cell for cell, and both equal A × B |
| `Processes.Index` | reto2hpc-main/multiplicacion_procesos.c:43-49 | for 0 ≤ i, j < n the position `i*n+j` lies in `[0, n·n)`, and inside row i's segment `[i·n, (i+1)·n)` |
| `Processes.IndexInjective` | reto2hpc-main/multiplicacion_procesos.c:30-34 | distinct cells (i, j) have distinct positions `i*n+j` |
| `Processes.PositionIsCell` | reto2hpc-main/multiplicacion_procesos.c:150 | every position of the n·n shared buffer is the position of the cell (x / n, x % n) |
| `Processes.ZeroRowRange` | reto2hpc-main/multiplicacion_procesos.c:29-34 | the worker's rows become 0 and every other cell is unchanged |
| `Processes.AccumulateStripe` | reto2hpc-main/multiplicacion_procesos.c:43-51 | one (kk, jj) step adds the partial sum over `[kk, k_end)` to each cell in the worker's rows and columns `[jj, j_end)`, and changes no other cell |
| `Processes.MultiplyRowsOptimized` | reto2hpc-main/multiplicacion_procesos.c:24-56 | for every block size > 0 the worker's rows end up holding A × B; cells outside `[fila_inicio, fila_fin)` are unchanged; after each kk-block the rows hold the partial sum over `k < k_end` |
| `Processes.MultiplyRowsOriginal` | reto2hpc-main/multiplicacion_procesos.c:59-70 | the same result and the same frame as the optimised row kernel |
| `Processes.Partition` | reto2hpc-main/multiplicacion_procesos.c:173-195 | range w has `n / p` rows, plus 1 if w < `n % p`; the ranges abut, start at 0 and end at n; every range is non-empty when p ≤ n |
| `Processes.ChainOrdered` | reto2hpc-main/multiplicacion_procesos.c:179-195 | an earlier range ends no later than any later range starts, so ranges never overlap |
| `Processes.ChainWithin` | reto2hpc-main/multiplicacion_procesos.c:179-195 | every range lies inside `[0, n]`, so each worker's `fila_inicio ≤ fila_fin ≤ n` |
| `Processes.Owner` | reto2hpc-main/multiplicacion_procesos.c:179-195 | every row of `[0, n)` lies in some worker's range |
| `Processes.RowOwnedOnce` | reto2hpc-main/multiplicacion_procesos.c:179-195 | a row lies in range w exactly when w is its owner, so each row, and each cell, is written by one worker only |
| `Processes.CheckArgs` | reto2hpc-main/multiplicacion_procesos.c:126-140 | `main` returns 1 exactly when the argument count is wrong, n ≤ 0 or the process count ≤ 0; otherwise the process count is capped at n, so 1 ≤ workers ≤ n |
| `Processes.MultiplyWithWorkers` | reto2hpc-main/multiplicacion_procesos.c:176-199 | running every worker's row kernel on its partition range leaves all n rows of the buffer holding A × B, with either kernel |
| `Processes.Benchmark` | reto2hpc-main/multiplicacion_procesos.c:176-231 | the original fork loop and the optimised one, after the `memset` of the whole buffer, leave the same buffer, and it is A × B |

## Left out

- `fork`, `wait`, `mmap`, `munmap` and `exit` are left out. The children of a
  fork loop run one after another, in a single address space. The row-frame
  ensures of the kernels, together with `RowOwnedOnce`, are what makes their
  order irrelevant.
- A failed `fork` is left out. The source does not check whether `fork` returns
  -1, so in that case the rows of that worker would stay 0. The model assumes
  that every fork succeeds.
- OpenMP pragmas, `omp_set_num_threads` and the static and dynamic schedules
  are left out. The kernels are the sequential loops under the pragmas.
  `TileProduct`'s frame and `TileOwner` are the sequential form of "each tile
  is written by one thread".
- C `int` arithmetic is left out. The model uses unbounded integers, while in C
  a signed overflow is undefined behaviour. The inputs are drawn from
  `[0, 100)`, so for realistic n no overflow occurs.
- Random matrix generation (`rand`, `rand_r`, `srand(time(NULL))`) is left out.
  A and B are parameters.
- `crear_matriz` and `liberar_matriz` are left out. Allocation failure is left
  out with them.
- `atoi` is left out. The size and the worker count arrive as integers. Only
  the argument count and their signs are checked.
- Timing, memory telemetry from `/proc/self/status`, speedup, efficiency and
  every `printf` are left out. They are I/O, clocks and floating point.
- The `int**` kernels require C to be a different matrix from A and from B.
  Every caller in the programs passes three separate matrices. The flat buffer
  of the process program is of a different type, so it cannot alias them.
- `Processes.MultiplyWithWorkers` covers both fork loops of `main` with one
  method, using a flag that picks the kernel. The two loops differ only in the
  kernel that each child calls.
- The `Benchmark` methods return the first run's matrix as a value, so that
  their contracts can state that the two runs agree. The programs themselves
  do not keep a copy.
