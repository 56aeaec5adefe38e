/** The five unblocked LU variants. Each factors the diagonal block `lo..hi` in place. */
module LUUnblocked {
  import opened Matrices
  import opened LUFactors
  import opened Blas
  import opened LUSteps

  /** Bordered: two triangular solves per step. */
  method UnbVar1(a: array2<real>, lo: int, hi: int)
    requires Square(a, lo, hi) && Pivots(Snap(a), lo, hi)
    modifies a
    ensures Replaced(a, old(Snap(a)), lo, hi)
  {
    ghost var A := Snap(a);
    var k := lo;
    while k < hi
      invariant lo <= k <= hi
      invariant At(a, Bordered, A, lo, hi, k)
    {
      SolveRows(a, A, lo, lo, k, k, k + 1);
      SolveColumns(a, A, lo, lo, k, k, k + 1);
      Update(a, A, lo, k, k + 1, k, k + 1, lo, k);
      k := k + 1;
    }
  }

  /** Row-lazy. */
  method UnbVar2(a: array2<real>, lo: int, hi: int)
    requires Square(a, lo, hi) && Pivots(Snap(a), lo, hi)
    modifies a
    ensures Replaced(a, old(Snap(a)), lo, hi)
  {
    ghost var A := Snap(a);
    var k := lo;
    while k < hi
      invariant lo <= k <= hi
      invariant At(a, RowLazy, A, lo, hi, k)
    {
      SolveRows(a, A, lo, lo, k, k, k + 1);
      Update(a, A, lo, k, k + 1, k, k + 1, lo, k);
      Update(a, A, lo, k, k + 1, k + 1, hi, lo, k);
      k := k + 1;
    }
  }

  /** One pass of the loop, up to a refusal. */
  method LeftLookingStep(a: array2<real>, ghost A: Matrix, lo: int, k: int, hi: int, checked: bool) returns (ok: bool)
    requires Square(a, lo, hi) && lo <= k < hi && (checked || Pivots(A, lo, hi)) && At(a, LeftLooking, A, lo, hi, k)
    modifies a
    ensures ok <==> !(checked && Factor(A, lo, k, k) == 0.0)
    ensures ok || k + 1 == hi ==> At(a, LeftLooking, A, lo, hi, k + 1)
    ensures SameOutside(a, A, lo, hi, lo, hi)
  {
    SolveAndUpdateColumn(a, A, lo, k, hi);
    ok := Scale(a, A, lo, k, hi, checked);
  }

  /** Left-looking. */
  method UnbVar3(a: array2<real>, lo: int, hi: int, checked: bool) returns (ok: bool)
    requires Square(a, lo, hi) && (checked || Pivots(Snap(a), lo, hi))
    modifies a
    ensures ok <==> !Refused(old(Snap(a)), lo, hi, checked)
    ensures ok || Pivots(old(Snap(a)), lo, hi) ==> Replaced(a, old(Snap(a)), lo, hi)
    ensures SameOutside(a, old(Snap(a)), lo, hi, lo, hi)
  {
    ghost var A := Snap(a);
    RefusedIffZeroPivot(A, lo, hi, checked);
    ok := true;
    var k := lo;
    while k < hi
      invariant lo <= k <= hi && ok && (checked ==> Pivots(A, lo, k + 1))
      invariant At(a, LeftLooking, A, lo, hi, k)
    {
      ok := LeftLookingStep(a, A, lo, k, hi, checked);
      if !ok { return; }
      k := k + 1;
    }
  }

  /** One pass of the loop, up to a refusal. */
  method CroutStep(a: array2<real>, ghost A: Matrix, lo: int, k: int, hi: int, checked: bool) returns (ok: bool)
    requires Square(a, lo, hi) && lo <= k < hi && (checked || Pivots(A, lo, hi)) && At(a, Crout, A, lo, hi, k)
    modifies a
    ensures ok <==> !(checked && Factor(A, lo, k, k) == 0.0)
    ensures ok || k + 1 == hi ==> At(a, Crout, A, lo, hi, k + 1)
    ensures SameOutside(a, A, lo, hi, lo, hi)
  {
    UpdateCross(a, A, lo, k, hi);
    ok := Scale(a, A, lo, k, hi, checked);
  }

  /** Crout. */
  method UnbVar4(a: array2<real>, lo: int, hi: int, checked: bool) returns (ok: bool)
    requires Square(a, lo, hi) && (checked || Pivots(Snap(a), lo, hi))
    modifies a
    ensures ok <==> !Refused(old(Snap(a)), lo, hi, checked)
    ensures ok || Pivots(old(Snap(a)), lo, hi) ==> Replaced(a, old(Snap(a)), lo, hi)
    ensures SameOutside(a, old(Snap(a)), lo, hi, lo, hi)
  {
    ghost var A := Snap(a);
    RefusedIffZeroPivot(A, lo, hi, checked);
    ok := true;
    var k := lo;
    while k < hi
      invariant lo <= k <= hi && ok && (checked ==> Pivots(A, lo, k + 1))
      invariant At(a, Crout, A, lo, hi, k)
    {
      ok := CroutStep(a, A, lo, k, hi, checked);
      if !ok { return; }
      k := k + 1;
    }
  }

  /** One pass of the loop, up to a refusal. */
  method RightLookingStep(a: array2<real>, ghost A: Matrix, lo: int, k: int, hi: int, checked: bool) returns (ok: bool)
    requires Square(a, lo, hi) && lo <= k < hi && (checked || Pivots(A, lo, hi)) && At(a, RightLooking, A, lo, hi, k)
    modifies a
    ensures ok <==> !(checked && Factor(A, lo, k, k) == 0.0)
    ensures ok || k + 1 == hi ==> At(a, RightLooking, A, lo, hi, k + 1)
    ensures SameOutside(a, A, lo, hi, lo, hi)
  {
    ok := Eliminate(a, A, lo, k, hi, checked);
  }

  /** Right-looking: a rank-one update of the trailing matrix. */
  method UnbVar5(a: array2<real>, lo: int, hi: int, checked: bool) returns (ok: bool)
    requires Square(a, lo, hi) && (checked || Pivots(Snap(a), lo, hi))
    modifies a
    ensures ok <==> !Refused(old(Snap(a)), lo, hi, checked)
    ensures ok || Pivots(old(Snap(a)), lo, hi) ==> Replaced(a, old(Snap(a)), lo, hi)
    ensures SameOutside(a, old(Snap(a)), lo, hi, lo, hi)
  {
    ghost var A := Snap(a);
    RefusedIffZeroPivot(A, lo, hi, checked);
    ok := true;
    var k := lo;
    while k < hi
      invariant lo <= k <= hi && ok && (checked ==> Pivots(A, lo, k + 1))
      invariant At(a, RightLooking, A, lo, hi, k)
    {
      ok := RightLookingStep(a, A, lo, k, hi, checked);
      if !ok { return; }
      k := k + 1;
    }
  }
}
