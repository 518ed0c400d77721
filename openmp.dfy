/** The OpenMP benchmark (multiplicacion_openmp.c). Its two kernels are
    ordinary loop nests with work-sharing pragmas attached; they are
    modelled as the sequential loops the pragmas annotate. */
module OpenMP {
  import opened Cli
  import opened MatMul

  /** Side of the cache blocks of the optimised kernel. */
  const BLOCK_SIZE: nat := 64

  /** `multiplicar_matrices_openmp_optimizada`: clear C, then the blocked
      nest whose (ii, jj) tiles the pragma hands out one at a time. The loop
      text is that of the sequential program's blocked kernel. */
  method MultiplyOptimized(A: array2<int>, B: array2<int>, C: array2<int>, n: nat)
    requires Square(A, n) && Square(B, n) && Square(C, n) && C != A && C != B
    modifies C
    ensures IsProduct(A, B, C, n)
    ensures unchanged(A) && unchanged(B)
  {
    BlockedProduct(A, B, C, n, BLOCK_SIZE);
  }

  /** `multiplicar_matrices_openmp_simple`: clear C, then `C[i][j] +=` in a
      triple loop whose rows the pragma splits among the threads. */
  method MultiplySimple(A: array2<int>, B: array2<int>, C: array2<int>, n: nat)
    requires Square(A, n) && Square(B, n) && Square(C, n) && C != A && C != B
    modifies C
    ensures IsProduct(A, B, C, n)
    ensures unchanged(A) && unchanged(B)
  {
    ZeroRows(C, n);
    var i := 0;
    while i < n
      invariant 0 <= i <= n
      invariant forall r, c :: 0 <= r < n && 0 <= c < n ==>
        C[r, c] == if r < i then Dot(A, B, r, c, 0, n) else 0
    {
      var j := 0;
      while j < n
        invariant 0 <= j <= n
        invariant forall r, c :: 0 <= r < n && 0 <= c < n ==>
          C[r, c] == if r < i || (r == i && c < j) then Dot(A, B, r, c, 0, n) else 0
      {
        var k := 0;
        while k < n
          invariant 0 <= k <= n
          invariant C[i, j] == Dot(A, B, i, j, 0, k)
          invariant forall r, c :: 0 <= r < n && 0 <= c < n && (r != i || c != j) ==>
            C[r, c] == if r < i || (r == i && c < j) then Dot(A, B, r, c, 0, n) else 0
        {
          C[i, j] := C[i, j] + A[i, k] * B[k, j];
          k := k + 1;
        }
        j := j + 1;
      }
      i := i + 1;
    }
  }

  /** Index i lies in block t of an axis of length n cut into blocks of
      side bs, i.e. in [t * bs, BlockEnd(t * bs, bs, n)). */
  predicate InBlock(n: int, bs: nat, t: int, i: int)
    requires bs > 0
  {
    0 <= t && t * bs <= i < BlockEnd(t * bs, bs, n)
  }

  /** Every index of the axis lies in exactly one block, block i / bs, and
      that block starts below n, so the blocked loop visits it. */
  lemma BlockOwner(n: int, bs: nat, t: int, i: int)
    requires bs > 0 && 0 <= i < n
    ensures InBlock(n, bs, t, i) <==> t == i / bs
    ensures (i / bs) * bs < n
  {
    var q := i / bs;
    assert q * bs <= i < q * bs + bs;
    if InBlock(n, bs, t, i) {
      if t < q {
        MulMono(t + 1, q, bs);
      } else if q < t {
        MulMono(q + 1, t, bs);
      }
    }
  }

  /** The (ii, jj) tiles that the collapse(2) pragma distributes are
      pairwise disjoint and cover the matrix: cell (i, j) lies in tile
      (ti, tj) exactly when ti == i / bs and tj == j / bs. The tiles meant
      are those `MatMul.BlockedProduct` visits: its loop invariants keep
      `ii == ti * bs` and `jj == tj * bs`, and `MatMul.TileProduct` writes
      only the cells of tile (ti, tj). */
  lemma TileOwner(n: int, bs: nat, ti: int, tj: int, i: int, j: int)
    requires bs > 0 && 0 <= i < n && 0 <= j < n
    ensures InBlock(n, bs, ti, i) && InBlock(n, bs, tj, j) <==> ti == i / bs && tj == j / bs
    ensures (i / bs) * bs < n && (j / bs) * bs < n
  {
    BlockOwner(n, bs, ti, i);
    BlockOwner(n, bs, tj, j);
  }

  /** The argument check of `main`: a matrix size and a thread count, both
      positive; otherwise `main` returns 1. The thread count is not capped. */
  function CheckArgs(argc: int, n: int, threads: int): (r: Launch)
    ensures r.Exit? <==> argc != 3 || n <= 0 || threads <= 0
    ensures r.Exit? ==> r.code == USAGE_ERROR
    ensures r.Run? ==> r.size == n && r.workers == threads
  {
    if argc != 3 || n <= 0 || threads <= 0 then Exit(USAGE_ERROR) else Run(n, threads)
  }

  /** The body of `main` once its arguments are accepted: the simple
      kernel, a clearing pass, then the blocked kernel. Both runs leave the
      same matrix, returned here as `simple` and as C. The contract alone
      would also admit a snapshot taken after the second run; that the two
      runs agree rests on the `IsProduct` ensures of both kernels, each of
      which leaves A x B whatever C held. */
  method Benchmark(A: array2<int>, B: array2<int>, C: array2<int>, n: nat) returns (simple: seq<seq<int>>)
    requires Square(A, n) && Square(B, n) && Square(C, n) && C != A && C != B
    modifies C
    ensures |simple| == n && forall i :: 0 <= i < n ==> |simple[i]| == n
    ensures forall i, j :: 0 <= i < n && 0 <= j < n ==> simple[i][j] == C[i, j] == Dot(A, B, i, j, 0, n)
  {
    MultiplySimple(A, B, C, n);
    simple := seq(n, i requires 0 <= i < n reads C => seq(n, j requires 0 <= j < n reads C => C[i, j]));
    ZeroRows(C, n);
    MultiplyOptimized(A, B, C, n);
  }
}
