/** The integer matrix product C = A x B of two n x n matrices, and the
    loop nests shared by the two programs that keep their matrices as
    `int**` (modelled as `array2<int>`): the zeroing pass, the innermost
    accumulation, and the cache-blocked kernel, whose text is the same in
    multiplicacion_matrices.c and multiplicacion_openmp.c. */
module MatMul {

  /** M has n rows and n columns. */
  predicate Square(M: array2<int>, n: int) {
    M.Length0 == n && M.Length1 == n
  }

  /** The sum of A[i, k] * B[k, j] over k in [lo, hi), added in increasing k. */
  ghost function Dot(A: array2<int>, B: array2<int>, i: int, j: int, lo: int, hi: int): int
    reads A, B
    requires 0 <= i < A.Length0 && 0 <= j < B.Length1
    requires 0 <= lo && hi <= A.Length1 && hi <= B.Length0
    decreases hi - lo
  {
    if hi <= lo then 0 else Dot(A, B, i, j, lo, hi - 1) + A[i, hi - 1] * B[hi - 1, j]
  }

  /** Splitting the range of k at `mid` splits the sum: the fact that lets a
      blocked loop add the k-blocks one after another. */
  lemma {:induction false} DotSplit(A: array2<int>, B: array2<int>, i: int, j: int, lo: int, mid: int, hi: int)
    requires 0 <= i < A.Length0 && 0 <= j < B.Length1
    requires 0 <= lo <= mid <= hi && hi <= A.Length1 && hi <= B.Length0
    ensures Dot(A, B, i, j, lo, mid) + Dot(A, B, i, j, mid, hi) == Dot(A, B, i, j, lo, hi)
    decreases hi - mid
  {
    if mid < hi {
      DotSplit(A, B, i, j, lo, mid, hi - 1);
    }
  }

  /** Multiplying by a non-negative factor keeps the order. This is only a
      hint for the solver's nonlinear arithmetic, used by `Index`,
      `IndexInjective` and `BlockOwner`; it models nothing in the programs. */
  lemma MulMono(a: int, b: int, m: nat)
    requires a <= b
    ensures a * m <= b * m
  {
  }

  /** Every cell of C holds the corresponding entry of A x B. */
  ghost predicate IsProduct(A: array2<int>, B: array2<int>, C: array2<int>, n: nat)
    reads A, B, C
    requires Square(A, n) && Square(B, n) && Square(C, n)
  {
    forall i, j :: 0 <= i < n && 0 <= j < n ==> C[i, j] == Dot(A, B, i, j, 0, n)
  }

  /** The end of the block that starts at `start`: `start + bs` unless that
      passes n, in which case n (`(s + BLOCK_SIZE < n) ? s + BLOCK_SIZE : n`). */
  function BlockEnd(start: int, bs: nat, n: int): (e: int)
    requires bs > 0
    ensures e <= n && e <= start + bs
    ensures e == n || e == start + bs
    ensures start < n ==> start < e
  {
    if start + bs < n then start + bs else n
  }

  /** The innermost loop of every kernel: starting from `init`, add
      A[i, k] * B[k, j] for k = lo, ..., hi - 1. */
  method AccumulateDot(A: array2<int>, B: array2<int>, i: int, j: int, lo: int, hi: int, init: int)
    returns (sum: int)
    requires 0 <= i < A.Length0 && 0 <= j < B.Length1
    requires 0 <= lo <= hi && hi <= A.Length1 && hi <= B.Length0
    ensures sum == init + Dot(A, B, i, j, lo, hi)
  {
    sum := init;
    var k := lo;
    while k < hi
      invariant lo <= k <= hi
      invariant sum == init + Dot(A, B, i, j, lo, k)
    {
      sum := sum + A[i, k] * B[k, j];
      k := k + 1;
    }
  }

  /** Clear C row by row (one `memset` per row). */
  method ZeroRows(C: array2<int>, n: nat)
    requires Square(C, n)
    modifies C
    ensures forall i, j :: 0 <= i < n && 0 <= j < n ==> C[i, j] == 0
  {
    var i := 0;
    while i < n
      invariant 0 <= i <= n
      invariant forall r, c :: 0 <= r < i && 0 <= c < n ==> C[r, c] == 0
    {
      var j := 0;
      while j < n
        invariant 0 <= j <= n
        invariant forall r, c :: 0 <= r < i && 0 <= c < n ==> C[r, c] == 0
        invariant forall c :: 0 <= c < j ==> C[i, c] == 0
      {
        C[i, j] := 0;
        j := j + 1;
      }
      i := i + 1;
    }
  }

  /** The loops inside one (ii, jj, kk) step of the blocked nest: every cell
      of the tile [ii, iEnd) x [jj, jEnd) gains the partial sum over
      k in [kk, kEnd); no other cell changes. */
  method AccumulateTile(A: array2<int>, B: array2<int>, C: array2<int>, n: nat,
                        ii: int, iEnd: int, jj: int, jEnd: int, kk: int, kEnd: int)
    requires Square(A, n) && Square(B, n) && Square(C, n) && C != A && C != B
    requires 0 <= ii <= iEnd <= n && 0 <= jj <= jEnd <= n && 0 <= kk <= kEnd <= n
    modifies C
    ensures forall r, c :: 0 <= r < n && 0 <= c < n ==>
      C[r, c] == if ii <= r < iEnd && jj <= c < jEnd then old(C[r, c]) + Dot(A, B, r, c, kk, kEnd)
                 else old(C[r, c])
  {
    var i := ii;
    while i < iEnd
      invariant ii <= i <= iEnd
      invariant forall r, c :: 0 <= r < n && 0 <= c < n ==>
        C[r, c] == if ii <= r < i && jj <= c < jEnd then old(C[r, c]) + Dot(A, B, r, c, kk, kEnd)
                   else old(C[r, c])
    {
      var j := jj;
      while j < jEnd
        invariant jj <= j <= jEnd
        invariant forall r, c :: 0 <= r < n && 0 <= c < n ==>
          C[r, c] == if (ii <= r < i && jj <= c < jEnd) || (r == i && jj <= c < j)
                     then old(C[r, c]) + Dot(A, B, r, c, kk, kEnd)
                     else old(C[r, c])
      {
        var sum := AccumulateDot(A, B, i, j, kk, kEnd, C[i, j]);
        C[i, j] := sum;
        j := j + 1;
      }
      i := i + 1;
    }
  }

  /** The kk loop for one (ii, jj) tile, which is the unit of work the
      OpenMP program hands out: the tile's cells gain their full sum over
      k in [0, n) and every other cell keeps its value. */
  method TileProduct(A: array2<int>, B: array2<int>, C: array2<int>, n: nat, ii: int, jj: int, bs: nat)
    requires Square(A, n) && Square(B, n) && Square(C, n) && C != A && C != B
    requires 0 <= ii < n && 0 <= jj < n && bs > 0
    modifies C
    ensures forall r, c :: 0 <= r < n && 0 <= c < n ==>
      C[r, c] == if ii <= r < ii + bs && jj <= c < jj + bs then old(C[r, c]) + Dot(A, B, r, c, 0, n)
                 else old(C[r, c])
  {
    var kk := 0;
    while kk < n
      invariant 0 <= kk
      invariant forall r, c :: 0 <= r < n && 0 <= c < n ==>
        C[r, c] == if ii <= r < ii + bs && jj <= c < jj + bs
                   then old(C[r, c]) + Dot(A, B, r, c, 0, if kk < n then kk else n)
                   else old(C[r, c])
    {
      var iEnd := BlockEnd(ii, bs, n);
      var jEnd := BlockEnd(jj, bs, n);
      var kEnd := BlockEnd(kk, bs, n);
      AccumulateTile(A, B, C, n, ii, iEnd, jj, jEnd, kk, kEnd);
      forall r, c | ii <= r < iEnd && jj <= c < jEnd
        ensures Dot(A, B, r, c, 0, kk) + Dot(A, B, r, c, kk, kEnd) == Dot(A, B, r, c, 0, kEnd)
      {
        DotSplit(A, B, r, c, 0, kk, kEnd);
      }
      kk := kk + bs;
    }
  }

  /** The cache-blocked product: clear C, then walk the (ii, jj) tiles in
      row-major order, each tile through all its k-blocks. The ghost
      indices ti and tj keep `ii == ti * bs` and `jj == tj * bs`, so the
      tiles visited are the tiles `OpenMP.TileOwner` proves disjoint. The
      result is A x B for every positive block size, including one of n
      or more, where the nest is a single tile. */
  method BlockedProduct(A: array2<int>, B: array2<int>, C: array2<int>, n: nat, bs: nat)
    requires Square(A, n) && Square(B, n) && Square(C, n) && C != A && C != B
    requires bs > 0
    modifies C
    ensures IsProduct(A, B, C, n)
  {
    ZeroRows(C, n);
    var ii := 0;
    ghost var ti := 0;
    while ii < n
      invariant 0 <= ii && ii == ti * bs
      invariant forall r, c :: 0 <= r < n && 0 <= c < n ==>
        C[r, c] == if r < ii then Dot(A, B, r, c, 0, n) else 0
    {
      var jj := 0;
      ghost var tj := 0;
      while jj < n
        invariant 0 <= jj && jj == tj * bs
        invariant forall r, c :: 0 <= r < n && 0 <= c < n ==>
          C[r, c] == if r < ii || (r < ii + bs && c < jj) then Dot(A, B, r, c, 0, n) else 0
      {
        TileProduct(A, B, C, n, ii, jj, bs);
        tj := tj + 1;
        jj := jj + bs;
      }
      ti := ti + 1;
      ii := ii + bs;
    }
  }
}
