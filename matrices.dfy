/** The sequential benchmark (multiplicacion_matrices.c): a cache-blocked
    kernel and the plain triple loop, both over n x n `int**` matrices. */
module Matrices {
  import opened Cli
  import opened MatMul

  /** Side of the cache blocks of the optimised kernel. */
  const BLOCK_SIZE: nat := 64

  /** `multiplicar_matrices_optimizada`: clear C, then the blocked nest
      with 64-wide blocks. A and B are only read. */
  method MultiplyOptimized(A: array2<int>, B: array2<int>, C: array2<int>, n: nat)
    requires Square(A, n) && Square(B, n) && Square(C, n) && C != A && C != B
    modifies C
    ensures IsProduct(A, B, C, n)
    ensures unchanged(A) && unchanged(B)
  {
    BlockedProduct(A, B, C, n, BLOCK_SIZE);
  }

  /** `multiplicar_matrices_original`: the reference triple loop, which
      sets each cell to 0 just before accumulating into it, so C's prior
      contents never reach the result. */
  method MultiplyOriginal(A: array2<int>, B: array2<int>, C: array2<int>, n: nat)
    requires Square(A, n) && Square(B, n) && Square(C, n) && C != A && C != B
    modifies C
    ensures IsProduct(A, B, C, n)
    ensures unchanged(A) && unchanged(B)
  {
    var i := 0;
    while i < n
      invariant 0 <= i <= n
      invariant forall r, c :: 0 <= r < n && 0 <= c < n ==>
        C[r, c] == if r < i then Dot(A, B, r, c, 0, n) else old(C[r, c])
    {
      var j := 0;
      while j < n
        invariant 0 <= j <= n
        invariant forall r, c :: 0 <= r < n && 0 <= c < n ==>
          C[r, c] == if r < i || (r == i && c < j) then Dot(A, B, r, c, 0, n) else old(C[r, c])
      {
        C[i, j] := 0;
        var k := 0;
        while k < n
          invariant 0 <= k <= n
          invariant C[i, j] == Dot(A, B, i, j, 0, k)
          invariant forall r, c :: 0 <= r < n && 0 <= c < n && (r != i || c != j) ==>
            C[r, c] == if r < i || (r == i && c < j) then Dot(A, B, r, c, 0, n) else old(C[r, c])
        {
          C[i, j] := C[i, j] + A[i, k] * B[k, j];
          k := k + 1;
        }
        j := j + 1;
      }
      i := i + 1;
    }
  }

  /** The argument check of `main`: exactly one argument, the matrix size,
      which must be positive; otherwise `main` returns 1 before allocating. */
  function CheckArgs(argc: int, n: int): (r: Launch)
    ensures r.Exit? <==> argc != 2 || n <= 0
    ensures r.Exit? ==> r.code == USAGE_ERROR
    ensures r.Run? ==> r.size == n && r.workers == 1
  {
    if argc != 2 || n <= 0 then Exit(USAGE_ERROR) else Run(n, 1)
  }

  /** The body of `main` once its arguments are accepted: run the original
      kernel, clear C, run the optimised kernel on the same A and B. Both
      runs leave the same matrix, returned here as `naive` and as C. The
      contract alone would also admit a snapshot taken after the second
      run; that the two runs agree rests on the `IsProduct` ensures of both
      kernels, each of which leaves A x B whatever C held. */
  method Benchmark(A: array2<int>, B: array2<int>, C: array2<int>, n: nat) returns (naive: seq<seq<int>>)
    requires Square(A, n) && Square(B, n) && Square(C, n) && C != A && C != B
    modifies C
    ensures |naive| == n && forall i :: 0 <= i < n ==> |naive[i]| == n
    ensures forall i, j :: 0 <= i < n && 0 <= j < n ==> naive[i][j] == C[i, j] == Dot(A, B, i, j, 0, n)
  {
    MultiplyOriginal(A, B, C, n);
    naive := seq(n, i requires 0 <= i < n reads C => seq(n, j requires 0 <= j < n reads C => C[i, j]));
    ZeroRows(C, n);
    MultiplyOptimized(A, B, C, n);
  }
}
