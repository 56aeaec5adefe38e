/** The operations of the Cholesky variants on blocks of one matrix that is overwritten in place, and
    what each makes of its block in terms of the factor of the matrix `A`. Only the lower triangle is
    read or written. */
module CholSteps {
  import opened Matrices
  import opened LUFactors
  import opened CholFactors
  import opened Definiteness
  import opened Blas

  /** Every entry outside the lower triangular part of the block is that of `X`. */
  ghost predicate SameOutsideLower(a: array2<real>, X: Matrix, i0: int, i1: int, j0: int, j1: int)
    reads a
  {
    forall i, j | InBounds(a, i, j) && !(i0 <= i < i1 && j0 <= j < j1 && j <= i) :: a[i, j] == X(i, j)
  }

  /** Row `i` times row `j`. */
  method DotRows(a: array2<real>, i: int, j: int, p0: int, p1: int) returns (s: real)
    requires 0 <= i < a.Length0 && 0 <= j < a.Length0 && 0 <= p0 <= p1 <= a.Length1
    ensures s == Dot(Snap(a), Transposed(Snap(a)), i, j, p0, p1)
  {
    s := 0.0;
    for p := p0 to p1
      invariant s == Dot(Snap(a), Transposed(Snap(a)), i, j, p0, p)
    {
      s := s + a[i, p] * a[j, p];
    }
  }

  /** `C := C - A * B'`, on and below the diagonal (`Syrk`, `Syr`, `Dots`; `Gemm` and `Gemv` when
      the block lies below the diagonal). */
  method SyrkLower(a: array2<real>, i0: int, i1: int, j0: int, j1: int, p0: int, p1: int)
    requires Ranges(a, i0, i1, j0, j1) && j1 <= a.Length0 && 0 <= p0 <= p1 <= j0 && p1 <= i0
    modifies a
    ensures SameOutsideLower(a, old(Snap(a)), i0, i1, j0, j1)
    ensures forall i, j | i0 <= i < i1 && j0 <= j < j1 && j <= i ::
      a[i, j] == old(a[i, j]) - Dot(old(Snap(a)), Transposed(old(Snap(a))), i, j, p0, p1)
  {
    ghost var X := Snap(a);
    ghost var T := Transposed(X);
    for i := i0 to i1
      invariant forall r, c | InBounds(a, r, c) ::
        a[r, c] == X(r, c) - if i0 <= r < i && j0 <= c < j1 && c <= r then Dot(X, T, r, c, p0, p1) else 0.0
    {
      var j := j0;
      while j < j1 && j <= i
        invariant j0 <= j <= j1
        invariant forall r, c | InBounds(a, r, c) ::
          a[r, c] == X(r, c) - if (i0 <= r < i && j0 <= c < j1 && c <= r) || (r == i && j0 <= c < j && c <= i)
              then Dot(X, T, r, c, p0, p1)
              else 0.0
      {
        var s := DotRows(a, i, j, p0, p1);
        DotSame(Snap(a), Transposed(Snap(a)), X, T, i, j, p0, p1);
        a[i, j] := a[i, j] - s;
        j := j + 1;
      }
    }
  }

  lemma RowEquationTSame(X: Matrix, X': Matrix, Y: Matrix, k: int, i: int, q: int)
    requires X(i, q) == X'(i, q) && X(q, q) == X'(q, q)
    requires forall p | k <= p < q :: X(i, p) == X'(i, p) && X(q, p) == X'(q, p)
    ensures RowEquationT(X, Y, k, i, q) <==> RowEquationT(X', Y, k, i, q)
  {
    DotSame(X, Transposed(X), X', Transposed(X'), i, q, k, q);
  }

  lemma RowStepT(X: Matrix, X': Matrix, Y: Matrix, k: int, i: int, j: int)
    requires k <= j < i && X(i, j) == Y(i, j) && X(j, j) != 0.0
    requires forall r, c | k <= r <= i && k <= c <= j && !(r == i && c == j) :: X'(r, c) == X(r, c)
    requires X'(i, j) == (X(i, j) - Dot(X, Transposed(X), i, j, k, j)) / X(j, j)
    requires forall q | k <= q < j :: RowEquationT(X, Y, k, i, q)
    ensures forall q | k <= q <= j :: RowEquationT(X', Y, k, i, q)
  {
    DotSame(X, Transposed(X), X', Transposed(X'), i, j, k, j);
    QuotientCancels(X(i, j) - Dot(X, Transposed(X), i, j, k, j), X(j, j));
    forall q | k <= q < j ensures RowEquationT(X', Y, k, i, q) { RowEquationTSame(X, X', Y, k, i, q); }
  }

  /** Row `i` of `B := B * inv(tril(A)')`, for the lower triangle in rows and columns `k` to `n`. */
  method TrsvLowerT(a: array2<real>, k: int, n: int, i: int)
    requires Ranges(a, k, n, k, n) && n <= i < a.Length0 && NonzeroDiagonal(a, k, n)
    modifies a
    ensures SameOutside(a, old(Snap(a)), i, i + 1, k, n)
    ensures forall j | k <= j < n :: RowEquationT(Snap(a), old(Snap(a)), k, i, j)
  {
    ghost var Y := Snap(a);
    for j := k to n
      invariant forall r, c | InBounds(a, r, c) && !(r == i && k <= c < j) :: a[r, c] == Y(r, c)
      invariant forall q | k <= q < j :: RowEquationT(Snap(a), Y, k, i, q)
    {
      ghost var X := Snap(a);
      var s := DotRows(a, i, j, k, j);
      assert a[j, j] != 0.0;
      a[i, j] := (a[i, j] - s) / a[j, j];
      RowStepT(X, Snap(a), Y, k, i, j);
    }
  }

  /** Solving one more row leaves the equations of the rows before it. */
  lemma RowsKeptT(X: Matrix, X': Matrix, Y: Matrix, k: int, n: int, i0: int, i: int)
    requires n <= i0 <= i
    requires forall r, c | k <= r < i && k <= c < n :: X'(r, c) == X(r, c)
    requires forall r, j | i0 <= r < i && k <= j < n :: RowEquationT(X, Y, k, r, j)
    requires forall j | k <= j < n :: RowEquationT(X', X, k, i, j) && X(i, j) == Y(i, j)
    ensures forall r, j | i0 <= r <= i && k <= j < n :: RowEquationT(X', Y, k, r, j)
  {
    forall r, j | i0 <= r <= i && k <= j < n ensures RowEquationT(X', Y, k, r, j) {
      if r < i { RowEquationTSame(X, X', Y, k, r, j); } else { assert RowEquationT(X', X, k, i, j); }
    }
  }

  /** `B := B * inv(tril(A)')`, for the rows `i0` to `i1`. */
  method TrsmRightLowerT(a: array2<real>, k: int, n: int, i0: int, i1: int)
    requires Ranges(a, k, n, k, n) && n <= i0 <= i1 <= a.Length0
    requires i0 < i1 ==> NonzeroDiagonal(a, k, n)
    modifies a
    ensures SameOutside(a, old(Snap(a)), i0, i1, k, n)
    ensures forall i, j | i0 <= i < i1 && k <= j < n :: RowEquationT(Snap(a), old(Snap(a)), k, i, j)
  {
    ghost var Y := Snap(a);
    for i := i0 to i1
      invariant SameOutside(a, Y, i0, i, k, n)
      invariant i < i1 ==> NonzeroDiagonal(a, k, n)
      invariant forall r, j | i0 <= r < i && k <= j < n :: RowEquationT(Snap(a), Y, k, r, j)
    {
      ghost var X := Snap(a);
      TrsvLowerT(a, k, n, i);
      RowsKeptT(X, Snap(a), Y, k, n, i0, i);
    }
  }

  /** `alpha11 := sqrt(alpha11)`; a number that is not positive is left alone and reported. */
  method Sqrt(a: array2<real>, k: int, sqrt: real -> real) returns (ok: bool)
    requires InBounds(a, k, k)
    modifies a
    ensures ok <==> 0.0 < old(a[k, k])
    ensures a[k, k] == if ok then sqrt(old(a[k, k])) else old(a[k, k])
    ensures SameOutside(a, old(Snap(a)), k, k + 1, k, k + 1)
  {
    if a[k, k] <= 0.0 { return false; }
    a[k, k] := sqrt(a[k, k]);
    ok := true;
  }

  // ----- The same operations in terms of the factor -----

  ghost predicate IsChol(a: array2<real>, A: Matrix, sqrt: real -> real, lo: int, i0: int, i1: int, j0: int, j1: int)
    requires Ranges(a, i0, i1, j0, j1) && lo <= j0
    reads a
  {
    forall i, j | i0 <= i < i1 && j0 <= j < j1 && j <= i :: a[i, j] == Chol(A, sqrt, lo, i, j)
  }

  ghost predicate IsRest(a: array2<real>, A: Matrix, sqrt: real -> real, lo: int, p: int, i0: int, i1: int, j0: int,
                         j1: int)
    requires Ranges(a, i0, i1, j0, j1) && lo <= p <= j0
    reads a
  {
    forall i, j | i0 <= i < i1 && j0 <= j < j1 && j <= i :: a[i, j] == Rest(A, sqrt, lo, p, i, j)
  }

  /** `C := C - A * B'` takes a remainder from `p0` to `p1`. */
  method UpdateT(a: array2<real>, ghost A: Matrix, ghost sqrt: real -> real, ghost lo: int, i0: int, i1: int, j0: int,
                 j1: int, p0: int, p1: int)
    requires Ranges(a, i0, i1, j0, j1) && j1 <= a.Length0 && 0 <= lo <= p0 <= p1 <= j0 && p1 <= i0
    requires IsRest(a, A, sqrt, lo, p0, i0, i1, j0, j1)
    requires IsChol(a, A, sqrt, lo, i0, i1, p0, p1) && IsChol(a, A, sqrt, lo, j0, j1, p0, p1)
    modifies a
    ensures IsRest(a, A, sqrt, lo, p1, i0, i1, j0, j1)
    ensures SameOutsideLower(a, old(Snap(a)), i0, i1, j0, j1)
  {
    ghost var X := Snap(a);
    SyrkLower(a, i0, i1, j0, j1, p0, p1);
    forall i, j | i0 <= i < i1 && j0 <= j < j1 && j <= i ensures a[i, j] == Rest(A, sqrt, lo, p1, i, j) {
      RestMore(A, sqrt, X, lo, p0, p1, i, j);
    }
  }

  /** `B := B * inv(tril(A)')` makes entries of the factor of a remainder below its triangle. */
  method SolveRowsT(a: array2<real>, ghost A: Matrix, ghost sqrt: real -> real, ghost lo: int, k: int, n: int,
                    i0: int, i1: int)
    requires Ranges(a, i0, i1, k, n) && 0 <= lo <= k && n <= i0
    requires IsRest(a, A, sqrt, lo, k, i0, i1, k, n) && IsChol(a, A, sqrt, lo, k, n, k, n)
    requires IsSqrt(sqrt) && (i0 < i1 ==> PositivePivots(A, sqrt, lo, n))
    modifies a
    ensures IsChol(a, A, sqrt, lo, i0, i1, k, n)
    ensures SameOutside(a, old(Snap(a)), i0, i1, k, n)
  {
    ghost var Y := Snap(a);
    if i0 < i1 {
      forall q | k <= q < n ensures a[q, q] == Chol(A, sqrt, lo, q, q) && a[q, q] != 0.0 { PivotRoot(A, sqrt, lo, q); }
    }
    TrsmRightLowerT(a, k, n, i0, i1);
    forall i, j | i0 <= i < i1 && k <= j < n ensures a[i, j] == Chol(A, sqrt, lo, i, j) {
      forall q | k <= q <= j ensures Chol(A, sqrt, lo, q, q) != 0.0 { PivotRoot(A, sqrt, lo, q); }
      RowSolvedT(A, sqrt, Snap(a), Y, lo, k, i, j);
    }
  }

  /** `alpha11 := sqrt(alpha11)` makes the diagonal entry, when the number is positive. */
  method Root(a: array2<real>, ghost A: Matrix, sqrt: real -> real, ghost lo: int, k: int) returns (ok: bool)
    requires InBounds(a, k, k) && 0 <= lo <= k && a[k, k] == Rest(A, sqrt, lo, k, k, k)
    modifies a
    ensures ok <==> 0.0 < Rest(A, sqrt, lo, k, k, k)
    ensures ok ==> a[k, k] == Chol(A, sqrt, lo, k, k)
    ensures SameOutside(a, old(Snap(a)), k, k + 1, k, k + 1)
  {
    ok := Sqrt(a, k, sqrt);
  }

  /** `a21 := a21 / alpha11` makes entries of the factor of a column below its diagonal entry. */
  method ScaleT(a: array2<real>, ghost A: Matrix, ghost sqrt: real -> real, ghost lo: int, k: int, n: int)
    requires Ranges(a, k, n, k, n) && 0 <= lo <= k < n && IsSqrt(sqrt) && 0.0 < Rest(A, sqrt, lo, k, k, k)
    requires a[k, k] == Chol(A, sqrt, lo, k, k) && IsRest(a, A, sqrt, lo, k, k + 1, n, k, k + 1)
    modifies a
    ensures IsChol(a, A, sqrt, lo, k, n, k, k + 1)
    ensures SameOutside(a, old(Snap(a)), k + 1, n, k, k + 1)
  {
    PivotRoot(A, sqrt, lo, k);
    var _ := InvScal(a, k, n, true);
  }

  // ----- The invariants of the three variants -----

  datatype Variant = Bordered | LeftLooking | RightLooking

  /** Which entries of the lower triangle are final when the top left part has size `k`. */
  predicate Done(v: Variant, k: int, i: int, j: int) {
    if v == Bordered then i < k else j < k
  }

  ghost function Stage(v: Variant, A: Matrix, sqrt: real -> real, lo: int, hi: int, k: int, i: int, j: int): real
    requires lo <= k
  {
    if !(lo <= j <= i < hi) then A(i, j)
    else if Done(v, k, i, j) then Chol(A, sqrt, lo, i, j)
    else if v == RightLooking then Rest(A, sqrt, lo, k, i, j)
    else A(i, j)
  }

  ghost predicate At(a: array2<real>, v: Variant, A: Matrix, sqrt: real -> real, lo: int, hi: int, k: int)
    requires lo <= k
    reads a
  {
    forall i, j | InBounds(a, i, j) :: a[i, j] == Stage(v, A, sqrt, lo, hi, k, i, j)
  }

  /** The lower triangle of the block `lo..hi` has been replaced by its factor, and nothing else has changed. */
  ghost predicate Replaced(a: array2<real>, A: Matrix, sqrt: real -> real, lo: int, hi: int)
    reads a
  {
    forall i, j | InBounds(a, i, j) :: a[i, j] == if lo <= j <= i < hi then Chol(A, sqrt, lo, i, j) else A(i, j)
  }

  /** The lower triangle, with zeros above. */
  ghost function LowerTriangle(X: Matrix): Matrix { (i: int, j: int) => if j <= i then X(i, j) else 0.0 }

  /** What the in-place result means: the lower triangle of the array times its transpose is the
      matrix whose lower triangle was there before. */
  lemma ReplacedReproduces(a: array2<real>, A: Matrix, sqrt: real -> real, lo: int, hi: int)
    requires Square(a, lo, hi) && IsSqrt(sqrt) && PositiveDefinite(A, lo, hi) && Replaced(a, A, sqrt, lo, hi)
    ensures forall i, j | lo <= j <= i < hi ::
      Dot(LowerTriangle(Snap(a)), Transposed(LowerTriangle(Snap(a))), i, j, lo, hi) == A(i, j)
  {
    PositiveDefiniteIffPivots(A, sqrt, lo, hi);
    var L, M := LowerTriangle(Snap(a)), CholMatrix(A, sqrt, lo);
    forall i, j | lo <= j <= i < hi ensures Dot(L, Transposed(L), i, j, lo, hi) == A(i, j) {
      CholReproduces(A, sqrt, lo, hi, i, j);
      DotSame(L, Transposed(L), M, Transposed(M), i, j, lo, hi);
    }
  }

  /** Whatever variants have replaced two equal lower triangles, they leave equal ones. */
  lemma VariantsAgree(a: array2<real>, b: array2<real>, A: Matrix, B: Matrix, sqrt: real -> real, lo: int, hi: int)
    requires Square(a, lo, hi) && Square(b, lo, hi) && forall i, j | lo <= j <= i < hi :: A(i, j) == B(i, j)
    requires Replaced(a, A, sqrt, lo, hi) && Replaced(b, B, sqrt, lo, hi)
    ensures forall i, j | lo <= j <= i < hi :: a[i, j] == b[i, j]
  {
    forall i, j | lo <= j <= i < hi ensures a[i, j] == b[i, j] { CholOfRest(A, B, sqrt, lo, lo, hi, i, j); }
  }
}
