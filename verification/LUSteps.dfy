/** The steps of the LU variants: each operation on a block, and what it makes of the block in
    terms of the factors and Schur complements of the matrix `A` that is being factored. */
module LUSteps {
  import opened Matrices
  import opened LUFactors
  import opened Singular
  import opened Blas

  ghost predicate IsFactor(a: array2<real>, A: Matrix, lo: int, i0: int, i1: int, j0: int, j1: int)
    requires Ranges(a, i0, i1, j0, j1) && lo <= i0 && lo <= j0
    reads a
  {
    forall i, j | i0 <= i < i1 && j0 <= j < j1 :: a[i, j] == Factor(A, lo, i, j)
  }

  ghost predicate IsSchur(a: array2<real>, A: Matrix, lo: int, p: int, i0: int, i1: int, j0: int, j1: int)
    requires Ranges(a, i0, i1, j0, j1) && lo <= p <= i0 && p <= j0
    reads a
  {
    forall i, j | i0 <= i < i1 && j0 <= j < j1 :: a[i, j] == Schur(A, lo, p, i, j)
  }

  /** The square block `k` to `n` holds its factors. */
  ghost predicate Factored(a: array2<real>, A: Matrix, lo: int, k: int, n: int)
    requires Ranges(a, k, n, k, n) && lo <= k
    reads a
  {
    IsFactor(a, A, lo, k, n, k, n)
  }

  /** `C := C - A * B` takes a Schur complement from `p0` to `p1`. */
  method Update(a: array2<real>, ghost A: Matrix, ghost lo: int, i0: int, i1: int, j0: int, j1: int, p0: int, p1: int)
    requires Ranges(a, i0, i1, j0, j1) && 0 <= lo <= p0 <= p1 <= i0 && p1 <= j0
    requires IsSchur(a, A, lo, p0, i0, i1, j0, j1)
    requires IsFactor(a, A, lo, i0, i1, p0, p1) && IsFactor(a, A, lo, p0, p1, j0, j1)
    modifies a
    ensures IsSchur(a, A, lo, p1, i0, i1, j0, j1)
    ensures SameOutside(a, old(Snap(a)), i0, i1, j0, j1)
  {
    ghost var X := Snap(a);
    Gemm(a, i0, i1, j0, j1, p0, p1);
    forall i, j | i0 <= i < i1 && j0 <= j < j1 ensures a[i, j] == Schur(A, lo, p1, i, j) {
      SchurMore(A, X, lo, p0, p1, i, j);
    }
  }

  /** `B := inv(trilu(A)) * B` makes factors of a Schur complement right of its triangle. */
  method SolveColumns(a: array2<real>, ghost A: Matrix, ghost lo: int, k: int, n: int, j0: int, j1: int)
    requires Ranges(a, k, n, j0, j1) && 0 <= lo <= k && n <= j0
    requires IsSchur(a, A, lo, k, k, n, j0, j1) && Factored(a, A, lo, k, n)
    modifies a
    ensures IsFactor(a, A, lo, k, n, j0, j1)
    ensures SameOutside(a, old(Snap(a)), k, n, j0, j1)
  {
    ghost var Y := Snap(a);
    TrsmLeftLower(a, k, n, j0, j1);
    forall i, j | k <= i < n && j0 <= j < j1 ensures a[i, j] == Factor(A, lo, i, j) {
      ColumnSolved(A, Snap(a), Y, lo, k, i, j);
    }
  }

  /** `B := B * inv(triu(A))` makes factors of a Schur complement below its triangle. */
  method SolveRows(a: array2<real>, ghost A: Matrix, ghost lo: int, k: int, n: int, i0: int, i1: int)
    requires Ranges(a, i0, i1, k, n) && 0 <= lo <= k && n <= i0
    requires IsSchur(a, A, lo, k, i0, i1, k, n) && Factored(a, A, lo, k, n)
    requires i0 < i1 ==> Pivots(A, lo, n + 1)
    modifies a
    ensures IsFactor(a, A, lo, i0, i1, k, n)
    ensures SameOutside(a, old(Snap(a)), i0, i1, k, n)
  {
    ghost var Y := Snap(a);
    if i0 < i1 {
      forall q | k <= q < n ensures a[q, q] != 0.0 { assert a[q, q] == Schur(A, lo, q, q, q); }
    }
    TrsmRightUpper(a, k, n, i0, i1);
    forall i, j | i0 <= i < i1 && k <= j < n ensures a[i, j] == Factor(A, lo, i, j) {
      RowSolved(A, Snap(a), Y, lo, k, i, j);
    }
  }

  /** `a21 := a21 / alpha11` makes factors of a column below its pivot. */
  method Scale(a: array2<real>, ghost A: Matrix, ghost lo: int, k: int, n: int, checked: bool) returns (ok: bool)
    requires Ranges(a, k, n, k, n) && 0 <= lo <= k < n && (checked || Pivots(A, lo, n))
    requires a[k, k] == Factor(A, lo, k, k) && IsSchur(a, A, lo, k, k + 1, n, k, k + 1)
    modifies a
    ensures ok <==> !(checked && Factor(A, lo, k, k) == 0.0)
    ensures ok ==> IsFactor(a, A, lo, k + 1, n, k, k + 1)
    ensures SameOutside(a, old(Snap(a)), k + 1, n, k, k + 1)
  {
    ok := InvScal(a, k, n, checked);
  }

  /** `a01 := inv(trilu(A00)) * a01`, `alpha11 := alpha11 - a10t * a01`, `a21 := a21 - A20 * a01`. */
  method SolveAndUpdateColumn(a: array2<real>, ghost A: Matrix, lo: int, k: int, hi: int)
    requires Square(a, k, hi) && 0 <= lo <= k < hi
    requires IsSchur(a, A, lo, lo, lo, hi, k, k + 1) && IsFactor(a, A, lo, lo, hi, lo, k)
    modifies a
    ensures IsFactor(a, A, lo, lo, k, k, k + 1) && IsSchur(a, A, lo, k, k, hi, k, k + 1)
    ensures SameOutside(a, old(Snap(a)), lo, hi, k, k + 1)
  {
    SolveColumns(a, A, lo, lo, k, k, k + 1);
    Update(a, A, lo, k, k + 1, k, k + 1, lo, k);
    Update(a, A, lo, k + 1, hi, k, k + 1, lo, k);
  }

  /** `alpha11 := alpha11 - a10t * a01`, `a12t := a12t - a10t * A02`, `a21 := a21 - A20 * a01`. */
  method UpdateCross(a: array2<real>, ghost A: Matrix, lo: int, k: int, hi: int)
    requires Square(a, k, hi) && 0 <= lo <= k < hi
    requires IsSchur(a, A, lo, lo, k, hi, k, k + 1) && IsSchur(a, A, lo, lo, k, k + 1, k, hi)
    requires IsFactor(a, A, lo, k, hi, lo, k) && IsFactor(a, A, lo, lo, k, k, hi)
    modifies a
    ensures IsSchur(a, A, lo, k, k, hi, k, k + 1) && IsSchur(a, A, lo, k, k, k + 1, k, hi)
    ensures forall i, j | InBounds(a, i, j) && !(k <= i < hi && j == k) && !(i == k && k <= j < hi) ::
      a[i, j] == old(a[i, j])
  {
    Update(a, A, lo, k, k + 1, k, k + 1, lo, k);
    Update(a, A, lo, k, k + 1, k + 1, hi, lo, k);
    Update(a, A, lo, k + 1, hi, k, k + 1, lo, k);
  }

  /** `a21 := a21 / alpha11` and `A22 := A22 - a21 * a12t`, unless the scaling is refused. */
  method Eliminate(a: array2<real>, ghost A: Matrix, ghost lo: int, k: int, hi: int, checked: bool) returns (ok: bool)
    requires Square(a, k, hi) && 0 <= lo <= k < hi && (checked || Pivots(A, lo, hi))
    requires IsSchur(a, A, lo, k, k, hi, k, hi)
    modifies a
    ensures ok <==> !(checked && Factor(A, lo, k, k) == 0.0)
    ensures ok ==> IsFactor(a, A, lo, k + 1, hi, k, k + 1) && IsSchur(a, A, lo, k + 1, k + 1, hi, k + 1, hi)
    ensures SameOutside(a, old(Snap(a)), k + 1, hi, k, hi)
  {
    assert forall j | k <= j < hi :: a[k, j] == Factor(A, lo, k, j);
    ok := Scale(a, A, lo, k, hi, checked);
    if !ok { return; }
    Update(a, A, lo, k + 1, hi, k + 1, hi, k, k + 1);
  }

  // ----- The invariants of the five variants -----

  datatype Variant = Bordered | RowLazy | LeftLooking | Crout | RightLooking

  /** Which entries hold factors when the top left part has size `k`. */
  predicate Done(v: Variant, k: int, i: int, j: int) {
    match v
    case Bordered => i < k && j < k
    case RowLazy => i < k
    case LeftLooking => j < k
    case Crout => i < k || j < k
    case RightLooking => i < k || j < k
  }

  /** Entry `(i, j)` when variant `v` has moved the partition of `lo..hi` to `k`. */
  ghost function Stage(v: Variant, A: Matrix, lo: int, hi: int, k: int, i: int, j: int): real
    requires lo <= k
  {
    if !(lo <= i < hi && lo <= j < hi) then A(i, j)
    else if Done(v, k, i, j) then Factor(A, lo, i, j)
    else if v == RightLooking then Schur(A, lo, k, i, j)
    else A(i, j)
  }

  ghost predicate At(a: array2<real>, v: Variant, A: Matrix, lo: int, hi: int, k: int)
    requires lo <= k
    reads a
  {
    forall i, j | InBounds(a, i, j) :: a[i, j] == Stage(v, A, lo, hi, k, i, j)
  }

  /** The diagonal block `lo..hi` has been replaced by its factors, and nothing else has changed. */
  ghost predicate Replaced(a: array2<real>, A: Matrix, lo: int, hi: int)
    reads a
  {
    forall i, j | InBounds(a, i, j) ::
      a[i, j] == if lo <= i < hi && lo <= j < hi then Factor(A, lo, i, j) else A(i, j)
  }

  /** The full check of the error level stops at a singular leading block, the whole block included. */
  ghost predicate Refused(A: Matrix, lo: int, hi: int, checked: bool) {
    checked && exists p :: lo < p <= hi && IsSingular(A, lo, p)
  }

  /** That is, at a zero pivot, the last one included. */
  lemma RefusedIffZeroPivot(A: Matrix, lo: int, hi: int, checked: bool)
    requires lo <= hi
    ensures Refused(A, lo, hi, checked) <==> checked && !Pivots(A, lo, hi + 1)
  {
    LeadingBlocks(A, lo, hi + 1);
  }

  /** So a matrix that is not singular may be refused: exchanging two unknowns has a zero first pivot. */
  lemma RegularButRefused(A: Matrix)
    requires A(0, 0) == 0.0 && A(0, 1) == 1.0 && A(1, 0) == 1.0 && A(1, 1) == 0.0
    ensures !IsSingular(A, 0, 2) && Refused(A, 0, 2, true)
  {
    OneByOne(A, 0);
    assert IsSingular(A, 0, 1);
    forall x: Vector | MapsToZero(A, x, 0, 2) ensures !NonzeroOn(x, 0, 2) {
      assert RowTimes(A, x, 0, 0, 2) == A(0, 0) * x(0) + (A(0, 1) * x(1) + 0.0) == x(1);
      assert RowTimes(A, x, 1, 0, 2) == A(1, 0) * x(0) + (A(1, 1) * x(1) + 0.0) == x(0);
    }
  }

  /** What the in-place result means: the unit lower triangle times the upper triangle of the array
      is the matrix that was there before. */
  lemma ReplacedReproduces(a: array2<real>, A: Matrix, lo: int, hi: int)
    requires Square(a, lo, hi) && Pivots(A, lo, hi) && Replaced(a, A, lo, hi)
    ensures forall i, j | lo <= i < hi && lo <= j < hi :: Dot(Lower(Snap(a)), Upper(Snap(a)), i, j, lo, hi) == A(i, j)
  {
    var F := Packed(A, lo);
    forall i, j | lo <= i < hi && lo <= j < hi ensures Dot(Lower(Snap(a)), Upper(Snap(a)), i, j, lo, hi) == A(i, j) {
      FactorsReproduce(A, lo, hi, i, j);
      DotSame(Lower(Snap(a)), Upper(Snap(a)), Lower(F), Upper(F), i, j, lo, hi);
    }
  }

  ghost predicate SameBlock(A: Matrix, B: Matrix, lo: int, hi: int) {
    forall i, j | lo <= i < hi && lo <= j < hi :: A(i, j) == B(i, j)
  }

  /** Whatever variants have replaced two equal blocks, they leave equal entries. */
  lemma VariantsAgree(a: array2<real>, b: array2<real>, A: Matrix, B: Matrix, lo: int, hi: int)
    requires Square(a, lo, hi) && Square(b, lo, hi) && SameBlock(A, B, lo, hi)
    requires Replaced(a, A, lo, hi) && Replaced(b, B, lo, hi)
    ensures forall i, j | lo <= i < hi && lo <= j < hi :: a[i, j] == b[i, j]
  {
    forall i, j | lo <= i < hi && lo <= j < hi ensures a[i, j] == b[i, j] { FactorOfSchur(A, B, lo, lo, hi, i, j); }
  }

  /** A diagonal block of the current matrix that is a Schur complement has the same later pivots. */
  lemma BlockPivots(A: Matrix, B: Matrix, lo: int, k: int, n: int)
    requires lo <= k < n && Pivots(A, lo, k + 1)
    requires forall i, j | k <= i < n && k <= j < n :: B(i, j) == Schur(A, lo, k, i, j)
    ensures Pivots(B, k, n) <==> Pivots(A, lo, n)
    ensures Pivots(B, k, n + 1) <==> Pivots(A, lo, n + 1)
    ensures forall i, j | k <= i < n && k <= j < n :: Factor(B, k, i, j) == Factor(A, lo, i, j)
  {
    forall p | k <= p < n ensures Schur(B, k, p, p, p) == Schur(A, lo, p, p, p) {
      SchurOfSchur(A, B, lo, k, n, p, p, p);
    }
    SamePivots(A, B, lo, k, n);
    SamePivots(A, B, lo, k, n + 1);
    forall i, j | k <= i < n && k <= j < n ensures Factor(B, k, i, j) == Factor(A, lo, i, j) {
      FactorOfSchur(A, B, lo, k, n, i, j);
    }
  }

  lemma SamePivots(A: Matrix, B: Matrix, lo: int, k: int, n: int)
    requires lo <= k < n && Pivots(A, lo, k + 1)
    requires forall p | k <= p < n - 1 :: Schur(B, k, p, p, p) == Schur(A, lo, p, p, p)
    ensures Pivots(B, k, n) <==> Pivots(A, lo, n)
  {
    if Pivots(B, k, n) {
      forall p | lo <= p < n - 1 ensures Schur(A, lo, p, p, p) != 0.0 {
        if k <= p { assert Schur(B, k, p, p, p) == Schur(A, lo, p, p, p); }
      }
    }
  }
}
