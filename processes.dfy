/** The process benchmark (multiplicacion_procesos.c). The result matrix is
    one flat row-major buffer of n * n cells shared by all workers; each
    worker computes a contiguous range of rows with one of two row kernels.
    The workers are run one after another here: their row ranges are
    disjoint and each kernel leaves every cell outside its rows alone, so
    the order in which they run does not matter. */
module Processes {
  import opened Cli
  import opened MatMul

  /** Side of the cache blocks of the optimised row kernel. */
  const BLOCK_SIZE: nat := 32

  /** Position of cell (i, j) in the flat buffer, `i * n + j`. */
  function Index(n: nat, i: int, j: int): (x: int)
    requires 0 <= i < n && 0 <= j < n
    ensures 0 <= x < n * n
    ensures i * n <= x < (i + 1) * n
  {
    MulMono(i + 1, n, n);
    i * n + j
  }

  /** Distinct cells have distinct positions. */
  lemma IndexInjective(n: nat)
    ensures forall i1, j1, i2, j2 ::
      0 <= i1 < n && 0 <= j1 < n && 0 <= i2 < n && 0 <= j2 < n && Index(n, i1, j1) == Index(n, i2, j2)
      ==> i1 == i2 && j1 == j2
  {
    forall i1, j1, i2, j2 |
      0 <= i1 < n && 0 <= j1 < n && 0 <= i2 < n && 0 <= j2 < n && Index(n, i1, j1) == Index(n, i2, j2)
      ensures i1 == i2 && j1 == j2
    {
      if i1 < i2 {
        MulMono(i1 + 1, i2, n);
      } else if i2 < i1 {
        MulMono(i2 + 1, i1, n);
      }
    }
  }

  /** Every position of the buffer is a cell, so a statement about all
      cells is a statement about the whole buffer. */
  lemma PositionIsCell(n: nat, x: int)
    requires 0 <= x < n * n
    ensures 0 <= x / n < n && 0 <= x % n < n && Index(n, x / n, x % n) == x
  {
  }

  /** Rows [lo, hi) of the buffer hold the rows of A x B. */
  ghost predicate RowsHoldProduct(A: array2<int>, B: array2<int>, C: array<int>, n: nat, lo: int, hi: int)
    reads A, B, C
    requires Square(A, n) && Square(B, n) && C.Length == n * n
  {
    forall i, j :: 0 <= lo <= i < hi <= n && 0 <= j < n ==> C[Index(n, i, j)] == Dot(A, B, i, j, 0, n)
  }

  /** Clear rows [rowStart, rowEnd) cell by cell. */
  method ZeroRowRange(C: array<int>, n: nat, rowStart: int, rowEnd: int)
    requires C.Length == n * n && 0 <= rowStart <= rowEnd <= n
    modifies C
    ensures forall i, j :: 0 <= i < n && 0 <= j < n ==>
      C[Index(n, i, j)] == if rowStart <= i < rowEnd then 0 else old(C[Index(n, i, j)])
  {
    IndexInjective(n);
    var i := rowStart;
    while i < rowEnd
      invariant rowStart <= i <= rowEnd
      invariant forall r, c :: 0 <= r < n && 0 <= c < n ==>
        C[Index(n, r, c)] == if rowStart <= r < i then 0 else old(C[Index(n, r, c)])
    {
      var j := 0;
      while j < n
        invariant 0 <= j <= n
        invariant forall r, c :: 0 <= r < n && 0 <= c < n ==>
          C[Index(n, r, c)] == if rowStart <= r < i || (r == i && c < j) then 0 else old(C[Index(n, r, c)])
      {
        C[Index(n, i, j)] := 0;
        j := j + 1;
      }
      i := i + 1;
    }
  }

  /** The i, j, k loops of one (kk, jj) step of the optimised row kernel:
      every cell in rows [rowStart, rowEnd) and columns [jj, jEnd) gains
      the partial sum over k in [kk, kEnd); no other cell changes. */
  method AccumulateStripe(A: array2<int>, B: array2<int>, C: array<int>, n: nat, rowStart: int, rowEnd: int,
                          jj: int, jEnd: int, kk: int, kEnd: int)
    requires Square(A, n) && Square(B, n) && C.Length == n * n
    requires 0 <= rowStart <= rowEnd <= n && 0 <= jj <= jEnd <= n && 0 <= kk <= kEnd <= n
    modifies C
    ensures forall r, c :: 0 <= r < n && 0 <= c < n ==>
      C[Index(n, r, c)] == if rowStart <= r < rowEnd && jj <= c < jEnd
                           then old(C[Index(n, r, c)]) + Dot(A, B, r, c, kk, kEnd)
                           else old(C[Index(n, r, c)])
  {
    IndexInjective(n);
    var i := rowStart;
    while i < rowEnd
      invariant rowStart <= i <= rowEnd
      invariant forall r, c :: 0 <= r < n && 0 <= c < n ==>
        C[Index(n, r, c)] == if rowStart <= r < i && jj <= c < jEnd
                             then old(C[Index(n, r, c)]) + Dot(A, B, r, c, kk, kEnd)
                             else old(C[Index(n, r, c)])
    {
      var j := jj;
      while j < jEnd
        invariant jj <= j <= jEnd
        invariant forall r, c :: 0 <= r < n && 0 <= c < n ==>
          C[Index(n, r, c)] == if (rowStart <= r < i && jj <= c < jEnd) || (r == i && jj <= c < j)
                               then old(C[Index(n, r, c)]) + Dot(A, B, r, c, kk, kEnd)
                               else old(C[Index(n, r, c)])
      {
        var sum := AccumulateDot(A, B, i, j, kk, kEnd, C[Index(n, i, j)]);
        C[Index(n, i, j)] := sum;
        j := j + 1;
      }
      i := i + 1;
    }
  }

  /** `multiplicar_matrices_proceso_optimizada`: clear the worker's rows,
      then walk the k-blocks and, inside each, the column blocks, adding
      each block's partial sums into the buffer. Afterwards the rows hold
      their rows of A x B, for every positive block size, and every cell
      outside the rows is as it was. */
  method MultiplyRowsOptimized(A: array2<int>, B: array2<int>, C: array<int>, n: nat,
                               rowStart: int, rowEnd: int, bs: nat)
    requires Square(A, n) && Square(B, n) && C.Length == n * n
    requires 0 <= rowStart <= rowEnd <= n && bs > 0
    modifies C
    ensures RowsHoldProduct(A, B, C, n, rowStart, rowEnd)
    ensures forall i, j :: 0 <= i < n && 0 <= j < n && !(rowStart <= i < rowEnd) ==>
      C[Index(n, i, j)] == old(C[Index(n, i, j)])
  {
    ZeroRowRange(C, n, rowStart, rowEnd);
    var kk := 0;
    while kk < n
      invariant 0 <= kk
      invariant forall r, c :: 0 <= r < n && 0 <= c < n ==>
        C[Index(n, r, c)] == if rowStart <= r < rowEnd then Dot(A, B, r, c, 0, if kk < n then kk else n)
                             else old(C[Index(n, r, c)])
    {
      var kEnd := BlockEnd(kk, bs, n);
      var jj := 0;
      while jj < n
        invariant 0 <= jj
        invariant forall r, c :: 0 <= r < n && 0 <= c < n ==>
          C[Index(n, r, c)] == if rowStart <= r < rowEnd then Dot(A, B, r, c, 0, if c < jj then kEnd else kk)
                               else old(C[Index(n, r, c)])
      {
        var jEnd := BlockEnd(jj, bs, n);
        AccumulateStripe(A, B, C, n, rowStart, rowEnd, jj, jEnd, kk, kEnd);
        forall r, c | rowStart <= r < rowEnd && jj <= c < jEnd
          ensures Dot(A, B, r, c, 0, kk) + Dot(A, B, r, c, kk, kEnd) == Dot(A, B, r, c, 0, kEnd)
        {
          DotSplit(A, B, r, c, 0, kk, kEnd);
        }
        jj := jj + bs;
      }
      kk := kk + bs;
    }
  }

  /** `multiplicar_matrices_proceso_original`: for each cell of the
      worker's rows, set it to 0 and accumulate into it. Same result and
      same frame as the optimised kernel. */
  method MultiplyRowsOriginal(A: array2<int>, B: array2<int>, C: array<int>, n: nat, rowStart: int, rowEnd: int)
    requires Square(A, n) && Square(B, n) && C.Length == n * n
    requires 0 <= rowStart <= rowEnd <= n
    modifies C
    ensures RowsHoldProduct(A, B, C, n, rowStart, rowEnd)
    ensures forall i, j :: 0 <= i < n && 0 <= j < n && !(rowStart <= i < rowEnd) ==>
      C[Index(n, i, j)] == old(C[Index(n, i, j)])
  {
    IndexInjective(n);
    var i := rowStart;
    while i < rowEnd
      invariant rowStart <= i <= rowEnd
      invariant forall r, c :: 0 <= r < n && 0 <= c < n ==>
        C[Index(n, r, c)] == if rowStart <= r < i then Dot(A, B, r, c, 0, n) else old(C[Index(n, r, c)])
    {
      var j := 0;
      while j < n
        invariant 0 <= j <= n
        invariant forall r, c :: 0 <= r < n && 0 <= c < n ==>
          C[Index(n, r, c)] == if rowStart <= r < i || (r == i && c < j) then Dot(A, B, r, c, 0, n)
                               else old(C[Index(n, r, c)])
      {
        C[Index(n, i, j)] := 0;
        var k := 0;
        while k < n
          invariant 0 <= k <= n
          invariant C[Index(n, i, j)] == Dot(A, B, i, j, 0, k)
          invariant forall r, c :: 0 <= r < n && 0 <= c < n && (r != i || c != j) ==>
            C[Index(n, r, c)] == if rowStart <= r < i || (r == i && c < j) then Dot(A, B, r, c, 0, n)
                                 else old(C[Index(n, r, c)])
        {
          C[Index(n, i, j)] := C[Index(n, i, j)] + A[i, k] * B[k, j];
          k := k + 1;
        }
        j := j + 1;
      }
      i := i + 1;
    }
  }

  /** The half-open row range [start, end) given to one worker. */
  datatype RowRange = RowRange(start: int, end: int)

  /** The ranges follow one another without gap or overlap from lo to hi. */
  predicate Chain(ranges: seq<RowRange>, lo: int, hi: int) {
    && |ranges| > 0
    && ranges[0].start == lo
    && ranges[|ranges| - 1].end == hi
    && (forall w :: 0 <= w < |ranges| ==> ranges[w].start <= ranges[w].end)
    && (forall w :: 0 < w < |ranges| ==> ranges[w - 1].end == ranges[w].start)
  }

  /** The row arithmetic of the fork loops in `main`: n / workers rows per
      worker, one more for each of the first n % workers workers, each
      range starting where the previous one ended. */
  method Partition(n: nat, workers: nat) returns (ranges: seq<RowRange>)
    requires workers > 0
    ensures |ranges| == workers && Chain(ranges, 0, n)
    ensures forall w :: 0 <= w < workers ==>
      ranges[w].end - ranges[w].start == n / workers + (if w < n % workers then 1 else 0)
    ensures workers <= n ==> forall w :: 0 <= w < workers ==> ranges[w].start < ranges[w].end
  {
    var perWorker := n / workers;
    var extra := n % workers;
    assert 0 <= extra < workers && 0 <= perWorker;
    assert n == workers * perWorker + extra;
    ranges := [];
    var rowStart := 0;
    var w := 0;
    while w < workers
      invariant 0 <= w <= workers && |ranges| == w
      invariant rowStart == w * perWorker + (if w < extra then w else extra)
      invariant w > 0 ==> ranges[0].start == 0 && ranges[w - 1].end == rowStart
      invariant forall v :: 0 <= v < w ==> ranges[v].end - ranges[v].start == perWorker + (if v < extra then 1 else 0)
      invariant forall v :: 0 < v < w ==> ranges[v - 1].end == ranges[v].start
    {
      var rowEnd := rowStart + perWorker;
      if w < extra {
        rowEnd := rowEnd + 1;
      }
      assert (w + 1) * perWorker == w * perWorker + perWorker;
      ranges := ranges + [RowRange(rowStart, rowEnd)];
      rowStart := rowEnd;
      w := w + 1;
    }
    assert rowStart == n;
  }

  /** Earlier ranges of a chain end no later than later ones start. */
  lemma {:induction false} ChainOrdered(ranges: seq<RowRange>, lo: int, hi: int, v: int, w: int)
    requires Chain(ranges, lo, hi) && 0 <= v < w < |ranges|
    ensures ranges[v].end <= ranges[w].start
    decreases w - v
  {
    if v + 1 < w {
      ChainOrdered(ranges, lo, hi, v, w - 1);
    }
  }

  /** Every range of a chain lies inside [lo, hi]. */
  lemma ChainWithin(ranges: seq<RowRange>, lo: int, hi: int, w: int)
    requires Chain(ranges, lo, hi) && 0 <= w < |ranges|
    ensures lo <= ranges[w].start <= ranges[w].end <= hi
  {
    if 0 < w {
      ChainOrdered(ranges, lo, hi, 0, w);
    }
    if w < |ranges| - 1 {
      ChainOrdered(ranges, lo, hi, w, |ranges| - 1);
    }
  }

  /** The worker whose range holds `row`. */
  function Owner(ranges: seq<RowRange>, lo: int, hi: int, row: int): (w: nat)
    requires Chain(ranges, lo, hi) && lo <= row < hi
    ensures w < |ranges| && ranges[w].start <= row < ranges[w].end
    decreases |ranges|
  {
    if row < ranges[0].end then 0
    else 1 + Owner(ranges[1..], ranges[0].end, hi, row)
  }

  /** A chain from 0 to n assigns every row of [0, n) to exactly one range:
      the owner's, and no other. */
  lemma RowOwnedOnce(ranges: seq<RowRange>, n: int, row: int, w: int)
    requires Chain(ranges, 0, n) && 0 <= row < n && 0 <= w < |ranges|
    ensures ranges[w].start <= row < ranges[w].end <==> w == Owner(ranges, 0, n, row)
  {
    var o := Owner(ranges, 0, n, row);
    if w < o {
      ChainOrdered(ranges, 0, n, w, o);
    } else if o < w {
      ChainOrdered(ranges, 0, n, o, w);
    }
  }

  /** The argument check of `main`: a matrix size and a process count, both
      positive, or `main` returns 1; a process count above n is lowered to n,
      so that every worker gets at least one row. */
  function CheckArgs(argc: int, n: int, processes: int): (r: Launch)
    ensures r.Exit? <==> argc != 3 || n <= 0 || processes <= 0
    ensures r.Exit? ==> r.code == USAGE_ERROR
    ensures r.Run? ==> r.size == n && 1 <= r.workers <= n
    ensures r.Run? ==> r.workers == if processes <= n then processes else n
  {
    if argc != 3 || n <= 0 || processes <= 0 then Exit(USAGE_ERROR)
    else if processes > n then Run(n, n)
    else Run(n, processes)
  }

  /** One fork loop of `main` with its wait loop: partition the rows, and
      let each worker run the chosen row kernel on its range. Afterwards
      every row of the buffer holds its row of A x B. */
  method MultiplyWithWorkers(A: array2<int>, B: array2<int>, C: array<int>, n: nat, workers: nat, optimized: bool)
    requires Square(A, n) && Square(B, n) && C.Length == n * n
    requires workers > 0
    modifies C
    ensures RowsHoldProduct(A, B, C, n, 0, n)
  {
    var ranges := Partition(n, workers);
    var rowStart := 0;
    var w := 0;
    while w < workers
      invariant 0 <= w <= workers
      invariant rowStart == if w < workers then ranges[w].start else n
      invariant RowsHoldProduct(A, B, C, n, 0, rowStart)
    {
      ChainWithin(ranges, 0, n, w);
      var rowEnd := ranges[w].end;
      if optimized {
        MultiplyRowsOptimized(A, B, C, n, rowStart, rowEnd, BLOCK_SIZE);
      } else {
        MultiplyRowsOriginal(A, B, C, n, rowStart, rowEnd);
      }
      rowStart := rowEnd;
      w := w + 1;
    }
  }

  /** The body of `main` once its arguments are accepted: the fork loop
      with the original kernel, the `memset` of the whole buffer, then the
      fork loop with the optimised kernel. The two runs leave the same
      buffer, returned here as `original` and left in C. The contract
      alone would also admit a snapshot taken after the second run; that
      the two runs agree rests on the `RowsHoldProduct` ensures of
      `MultiplyWithWorkers` for either kernel. */
  method Benchmark(A: array2<int>, B: array2<int>, C: array<int>, n: nat, workers: nat) returns (original: seq<int>)
    requires Square(A, n) && Square(B, n) && C.Length == n * n
    requires workers > 0
    modifies C
    ensures RowsHoldProduct(A, B, C, n, 0, n)
    ensures original == C[..]
  {
    MultiplyWithWorkers(A, B, C, n, workers, false);
    original := C[..];
    ZeroRowRange(C, n, 0, n);
    MultiplyWithWorkers(A, B, C, n, workers, true);
    forall x | 0 <= x < n * n
      ensures original[x] == C[x]
    {
      PositionIsCell(n, x);
    }
  }
}
