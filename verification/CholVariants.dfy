/** The three unblocked and the three blocked Cholesky variants. Each replaces the lower triangle of
    the diagonal block `lo..hi` by its factor, in place, and reports whether every root has been taken.
    They are followed up to the first number that has no root. */
module CholVariants {
  import opened Matrices
  import opened CholFactors
  import opened Definiteness
  import opened Blas
  import opened CholSteps

  /** `A10 := A10 * inv(tril(A00)')` and `A11 := A11 - A10 * A10'`. */
  method BorderedPanel(a: array2<real>, ghost A: Matrix, ghost sqrt: real -> real, lo: int, k: int, n: int)
    requires Square(a, lo, n) && lo <= k < n && IsSqrt(sqrt) && PositivePivots(A, sqrt, lo, k)
    requires IsChol(a, A, sqrt, lo, lo, k, lo, k)
    requires IsRest(a, A, sqrt, lo, lo, k, n, lo, k) && IsRest(a, A, sqrt, lo, lo, k, n, k, n)
    modifies a
    ensures IsChol(a, A, sqrt, lo, k, n, lo, k) && IsRest(a, A, sqrt, lo, k, k, n, k, n)
    ensures SameOutsideLower(a, old(Snap(a)), k, n, lo, n)
  {
    SolveRowsT(a, A, sqrt, lo, lo, k, k, n);
    UpdateT(a, A, sqrt, lo, k, n, k, n, lo, k);
  }

  /** One pass of the loop, when the pivots so far are positive. */
  method BorderedStep(a: array2<real>, ghost A: Matrix, sqrt: real -> real, lo: int, k: int, hi: int) returns (ok: bool)
    requires Square(a, lo, hi) && lo <= k < hi && IsSqrt(sqrt) && PositivePivots(A, sqrt, lo, k)
    requires At(a, Bordered, A, sqrt, lo, hi, k)
    modifies a
    ensures ok <==> PositivePivots(A, sqrt, lo, k + 1)
    ensures ok ==> At(a, Bordered, A, sqrt, lo, hi, k + 1)
    ensures SameOutsideLower(a, A, lo, hi, lo, hi)
  {
    BorderedPanel(a, A, sqrt, lo, k, k + 1);
    ok := Root(a, A, sqrt, lo, k);
    assert forall j | lo <= j < k :: a[k, j] == Chol(A, sqrt, lo, k, j);
  }

  /** Bordered. */
  method UnbVar1(a: array2<real>, lo: int, hi: int, sqrt: real -> real) returns (ok: bool)
    requires Square(a, lo, hi) && IsSqrt(sqrt)
    modifies a
    ensures ok <==> PositiveDefinite(old(Snap(a)), lo, hi)
    ensures ok ==> Replaced(a, old(Snap(a)), sqrt, lo, hi)
    ensures SameOutsideLower(a, old(Snap(a)), lo, hi, lo, hi)
  {
    ghost var A := Snap(a);
    PositiveDefiniteIffPivots(A, sqrt, lo, hi);
    ok := true;
    var k := lo;
    while k < hi
      invariant lo <= k <= hi && ok && PositivePivots(A, sqrt, lo, k)
      invariant At(a, Bordered, A, sqrt, lo, hi, k)
    {
      ok := BorderedStep(a, A, sqrt, lo, k, hi);
      if !ok { return; }
      k := k + 1;
    }
  }

  /** `alpha11 := alpha11 - a10t * a10`, `alpha11 := sqrt(alpha11)`, `a21 := a21 - A20 * a10`,
      `a21 := a21 / alpha11`. */
  method LeftLookingColumn(a: array2<real>, ghost A: Matrix, sqrt: real -> real, lo: int, k: int, hi: int)
    returns (ok: bool)
    requires Square(a, lo, hi) && lo <= k < hi && IsSqrt(sqrt)
    requires IsChol(a, A, sqrt, lo, k, hi, lo, k) && IsRest(a, A, sqrt, lo, lo, k, hi, k, k + 1)
    modifies a
    ensures ok <==> 0.0 < Rest(A, sqrt, lo, k, k, k)
    ensures ok ==> IsChol(a, A, sqrt, lo, k, hi, k, k + 1)
    ensures SameOutside(a, old(Snap(a)), k, hi, k, k + 1)
  {
    UpdateT(a, A, sqrt, lo, k, k + 1, k, k + 1, lo, k);
    ok := Root(a, A, sqrt, lo, k);
    if !ok { return; }
    UpdateT(a, A, sqrt, lo, k + 1, hi, k, k + 1, lo, k);
    ScaleT(a, A, sqrt, lo, k, hi);
  }

  /** One pass of the loop, when the pivots so far are positive. */
  method LeftLookingStep(a: array2<real>, ghost A: Matrix, sqrt: real -> real, lo: int, k: int, hi: int)
    returns (ok: bool)
    requires Square(a, lo, hi) && lo <= k < hi && IsSqrt(sqrt) && PositivePivots(A, sqrt, lo, k)
    requires At(a, LeftLooking, A, sqrt, lo, hi, k)
    modifies a
    ensures ok <==> PositivePivots(A, sqrt, lo, k + 1)
    ensures ok ==> At(a, LeftLooking, A, sqrt, lo, hi, k + 1)
    ensures SameOutsideLower(a, A, lo, hi, lo, hi)
  {
    ok := LeftLookingColumn(a, A, sqrt, lo, k, hi);
  }

  /** Left-looking. */
  method UnbVar2(a: array2<real>, lo: int, hi: int, sqrt: real -> real) returns (ok: bool)
    requires Square(a, lo, hi) && IsSqrt(sqrt)
    modifies a
    ensures ok <==> PositiveDefinite(old(Snap(a)), lo, hi)
    ensures ok ==> Replaced(a, old(Snap(a)), sqrt, lo, hi)
    ensures SameOutsideLower(a, old(Snap(a)), lo, hi, lo, hi)
  {
    ghost var A := Snap(a);
    PositiveDefiniteIffPivots(A, sqrt, lo, hi);
    ok := true;
    var k := lo;
    while k < hi
      invariant lo <= k <= hi && ok && PositivePivots(A, sqrt, lo, k)
      invariant At(a, LeftLooking, A, sqrt, lo, hi, k)
    {
      ok := LeftLookingStep(a, A, sqrt, lo, k, hi);
      if !ok { return; }
      k := k + 1;
    }
  }

  /** `alpha11 := sqrt(alpha11)`, `a21 := a21 / alpha11` and `A22 := A22 - a21 * a21'`. */
  method RightLookingColumn(a: array2<real>, ghost A: Matrix, sqrt: real -> real, ghost lo: int, k: int, hi: int)
    returns (ok: bool)
    requires Square(a, k, hi) && 0 <= lo <= k < hi && IsSqrt(sqrt)
    requires IsRest(a, A, sqrt, lo, k, k, hi, k, hi)
    modifies a
    ensures ok <==> 0.0 < Rest(A, sqrt, lo, k, k, k)
    ensures ok ==> IsChol(a, A, sqrt, lo, k, hi, k, k + 1) && IsRest(a, A, sqrt, lo, k + 1, k + 1, hi, k + 1, hi)
    ensures SameOutsideLower(a, old(Snap(a)), k, hi, k, hi)
  {
    ok := Root(a, A, sqrt, lo, k);
    if !ok { return; }
    ScaleT(a, A, sqrt, lo, k, hi);
    UpdateT(a, A, sqrt, lo, k + 1, hi, k + 1, hi, k, k + 1);
  }

  /** One pass of the loop, when the pivots so far are positive. */
  method RightLookingStep(a: array2<real>, ghost A: Matrix, sqrt: real -> real, lo: int, k: int, hi: int)
    returns (ok: bool)
    requires Square(a, lo, hi) && lo <= k < hi && IsSqrt(sqrt) && PositivePivots(A, sqrt, lo, k)
    requires At(a, RightLooking, A, sqrt, lo, hi, k)
    modifies a
    ensures ok <==> PositivePivots(A, sqrt, lo, k + 1)
    ensures ok ==> At(a, RightLooking, A, sqrt, lo, hi, k + 1)
    ensures SameOutsideLower(a, A, lo, hi, lo, hi)
  {
    ok := RightLookingColumn(a, A, sqrt, lo, k, hi);
  }

  /** Right-looking: a symmetric rank-one update of the trailing matrix. */
  method UnbVar3(a: array2<real>, lo: int, hi: int, sqrt: real -> real) returns (ok: bool)
    requires Square(a, lo, hi) && IsSqrt(sqrt)
    modifies a
    ensures ok <==> PositiveDefinite(old(Snap(a)), lo, hi)
    ensures ok ==> Replaced(a, old(Snap(a)), sqrt, lo, hi)
    ensures SameOutsideLower(a, old(Snap(a)), lo, hi, lo, hi)
  {
    ghost var A := Snap(a);
    PositiveDefiniteIffPivots(A, sqrt, lo, hi);
    ok := true;
    var k := lo;
    while k < hi
      invariant lo <= k <= hi && ok && PositivePivots(A, sqrt, lo, k)
      invariant At(a, RightLooking, A, sqrt, lo, hi, k)
    {
      ok := RightLookingStep(a, A, sqrt, lo, k, hi);
      if !ok { return; }
      k := k + 1;
    }
  }

  // ----- Blocked -----

  method Diagonal1(a: array2<real>, ghost A: Matrix, sqrt: real -> real, ghost lo: int, k: int, n: int)
    returns (ok: bool)
    requires Square(a, k, n) && 0 <= lo <= k <= n && IsSqrt(sqrt) && PositivePivots(A, sqrt, lo, k)
    requires IsRest(a, A, sqrt, lo, k, k, n, k, n)
    modifies a
    ensures ok <==> PositivePivots(A, sqrt, lo, n)
    ensures ok ==> IsChol(a, A, sqrt, lo, k, n, k, n)
    ensures SameOutsideLower(a, old(Snap(a)), k, n, k, n)
  {
    BlockPositiveDefinite(A, Snap(a), sqrt, lo, k, n);
    ok := UnbVar1(a, k, n, sqrt);
  }

  method Diagonal2(a: array2<real>, ghost A: Matrix, sqrt: real -> real, ghost lo: int, k: int, n: int)
    returns (ok: bool)
    requires Square(a, k, n) && 0 <= lo <= k <= n && IsSqrt(sqrt) && PositivePivots(A, sqrt, lo, k)
    requires IsRest(a, A, sqrt, lo, k, k, n, k, n)
    modifies a
    ensures ok <==> PositivePivots(A, sqrt, lo, n)
    ensures ok ==> IsChol(a, A, sqrt, lo, k, n, k, n)
    ensures SameOutsideLower(a, old(Snap(a)), k, n, k, n)
  {
    BlockPositiveDefinite(A, Snap(a), sqrt, lo, k, n);
    ok := UnbVar2(a, k, n, sqrt);
  }

  method Diagonal3(a: array2<real>, ghost A: Matrix, sqrt: real -> real, ghost lo: int, k: int, n: int)
    returns (ok: bool)
    requires Square(a, k, n) && 0 <= lo <= k <= n && IsSqrt(sqrt) && PositivePivots(A, sqrt, lo, k)
    requires IsRest(a, A, sqrt, lo, k, k, n, k, n)
    modifies a
    ensures ok <==> PositivePivots(A, sqrt, lo, n)
    ensures ok ==> IsChol(a, A, sqrt, lo, k, n, k, n)
    ensures SameOutsideLower(a, old(Snap(a)), k, n, k, n)
  {
    BlockPositiveDefinite(A, Snap(a), sqrt, lo, k, n);
    ok := UnbVar3(a, k, n, sqrt);
  }

  /** One pass of the loop, for the rows and columns `k` to `n`. */
  method BorderedBlock(a: array2<real>, ghost A: Matrix, sqrt: real -> real, lo: int, k: int, n: int, hi: int)
    returns (ok: bool)
    requires Square(a, lo, hi) && lo <= k < n <= hi && IsSqrt(sqrt) && PositivePivots(A, sqrt, lo, k)
    requires At(a, Bordered, A, sqrt, lo, hi, k)
    modifies a
    ensures ok <==> PositivePivots(A, sqrt, lo, n)
    ensures ok ==> At(a, Bordered, A, sqrt, lo, hi, n)
    ensures SameOutsideLower(a, A, lo, hi, lo, hi)
  {
    BorderedPanel(a, A, sqrt, lo, k, n);
    ok := Diagonal1(a, A, sqrt, lo, k, n);
  }

  /** Bordered. */
  method BlkVar1(a: array2<real>, lo: int, hi: int, sqrt: real -> real, nb_alg: int) returns (ok: bool)
    requires Square(a, lo, hi) && IsSqrt(sqrt) && 1 <= nb_alg
    modifies a
    ensures ok <==> PositiveDefinite(old(Snap(a)), lo, hi)
    ensures ok ==> Replaced(a, old(Snap(a)), sqrt, lo, hi)
    ensures SameOutsideLower(a, old(Snap(a)), lo, hi, lo, hi)
  {
    ghost var A := Snap(a);
    PositiveDefiniteIffPivots(A, sqrt, lo, hi);
    ok := true;
    var k := lo;
    while k < hi
      invariant lo <= k <= hi && ok && PositivePivots(A, sqrt, lo, k)
      invariant At(a, Bordered, A, sqrt, lo, hi, k)
    {
      var b := Min(hi - k, nb_alg);
      ok := BorderedBlock(a, A, sqrt, lo, k, k + b, hi);
      if !ok { return; }
      k := k + b;
    }
  }

  /** One pass of the loop, for the rows and columns `k` to `n`. */
  method LeftLookingBlock(a: array2<real>, ghost A: Matrix, sqrt: real -> real, lo: int, k: int, n: int, hi: int)
    returns (ok: bool)
    requires Square(a, lo, hi) && lo <= k < n <= hi && IsSqrt(sqrt) && PositivePivots(A, sqrt, lo, k)
    requires At(a, LeftLooking, A, sqrt, lo, hi, k)
    modifies a
    ensures ok <==> PositivePivots(A, sqrt, lo, n)
    ensures ok ==> At(a, LeftLooking, A, sqrt, lo, hi, n)
    ensures SameOutsideLower(a, A, lo, hi, lo, hi)
  {
    UpdateT(a, A, sqrt, lo, k, n, k, n, lo, k);
    ok := Diagonal2(a, A, sqrt, lo, k, n);
    if !ok { return; }
    UpdateT(a, A, sqrt, lo, n, hi, k, n, lo, k);
    SolveRowsT(a, A, sqrt, lo, k, n, n, hi);
  }

  /** Left-looking. */
  method BlkVar2(a: array2<real>, lo: int, hi: int, sqrt: real -> real, nb_alg: int) returns (ok: bool)
    requires Square(a, lo, hi) && IsSqrt(sqrt) && 1 <= nb_alg
    modifies a
    ensures ok <==> PositiveDefinite(old(Snap(a)), lo, hi)
    ensures ok ==> Replaced(a, old(Snap(a)), sqrt, lo, hi)
    ensures SameOutsideLower(a, old(Snap(a)), lo, hi, lo, hi)
  {
    ghost var A := Snap(a);
    PositiveDefiniteIffPivots(A, sqrt, lo, hi);
    ok := true;
    var k := lo;
    while k < hi
      invariant lo <= k <= hi && ok && PositivePivots(A, sqrt, lo, k)
      invariant At(a, LeftLooking, A, sqrt, lo, hi, k)
    {
      var b := Min(hi - k, nb_alg);
      ok := LeftLookingBlock(a, A, sqrt, lo, k, k + b, hi);
      if !ok { return; }
      k := k + b;
    }
  }

  /** `A21 := A21 * inv(tril(A11)')` and `A22 := A22 - A21 * A21'`. */
  method SolveAndUpdate(a: array2<real>, ghost A: Matrix, ghost sqrt: real -> real, ghost lo: int, k: int, n: int,
                        hi: int)
    requires Square(a, k, hi) && 0 <= lo <= k <= n <= hi && IsSqrt(sqrt) && PositivePivots(A, sqrt, lo, n)
    requires IsChol(a, A, sqrt, lo, k, n, k, n) && IsRest(a, A, sqrt, lo, k, n, hi, k, hi)
    modifies a
    ensures IsChol(a, A, sqrt, lo, n, hi, k, n) && IsRest(a, A, sqrt, lo, n, n, hi, n, hi)
    ensures SameOutsideLower(a, old(Snap(a)), n, hi, k, hi)
  {
    SolveRowsT(a, A, sqrt, lo, k, n, n, hi);
    UpdateT(a, A, sqrt, lo, n, hi, n, hi, k, n);
  }

  /** One pass of the loop, for the rows and columns `k` to `n`. */
  method RightLookingBlock(a: array2<real>, ghost A: Matrix, sqrt: real -> real, lo: int, k: int, n: int, hi: int)
    returns (ok: bool)
    requires Square(a, lo, hi) && lo <= k < n <= hi && IsSqrt(sqrt) && PositivePivots(A, sqrt, lo, k)
    requires At(a, RightLooking, A, sqrt, lo, hi, k)
    modifies a
    ensures ok <==> PositivePivots(A, sqrt, lo, n)
    ensures ok ==> At(a, RightLooking, A, sqrt, lo, hi, n)
    ensures SameOutsideLower(a, A, lo, hi, lo, hi)
  {
    ok := Diagonal3(a, A, sqrt, lo, k, n);
    if !ok { return; }
    SolveAndUpdate(a, A, sqrt, lo, k, n, hi);
  }

  /** Right-looking. */
  method BlkVar3(a: array2<real>, lo: int, hi: int, sqrt: real -> real, nb_alg: int) returns (ok: bool)
    requires Square(a, lo, hi) && IsSqrt(sqrt) && 1 <= nb_alg
    modifies a
    ensures ok <==> PositiveDefinite(old(Snap(a)), lo, hi)
    ensures ok ==> Replaced(a, old(Snap(a)), sqrt, lo, hi)
    ensures SameOutsideLower(a, old(Snap(a)), lo, hi, lo, hi)
  {
    ghost var A := Snap(a);
    PositiveDefiniteIffPivots(A, sqrt, lo, hi);
    ok := true;
    var k := lo;
    while k < hi
      invariant lo <= k <= hi && ok && PositivePivots(A, sqrt, lo, k)
      invariant At(a, RightLooking, A, sqrt, lo, hi, k)
    {
      var b := Min(hi - k, nb_alg);
      ok := RightLookingBlock(a, A, sqrt, lo, k, k + b, hi);
      if !ok { return; }
      k := k + b;
    }
  }
}
