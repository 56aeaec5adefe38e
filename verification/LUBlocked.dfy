/** The five blocked LU variants: steps of `nb_alg` rows and columns, each of which hands its
    diagonal block to the unblocked variant of the same kind. */
module LUBlocked {
  import opened Matrices
  import opened LUFactors
  import opened Blas
  import opened LUSteps
  import opened LUUnblocked

  // ----- The diagonal block: a Schur complement is replaced by its own factors -----

  method Diagonal1(a: array2<real>, ghost A: Matrix, ghost lo: int, k: int, n: int, ghost hi: int)
    requires Square(a, k, n) && 0 <= lo <= k < n <= hi && Pivots(A, lo, hi) && IsSchur(a, A, lo, k, k, n, k, n)
    modifies a
    ensures Factored(a, A, lo, k, n) && SameOutside(a, old(Snap(a)), k, n, k, n)
  {
    BlockPivots(A, Snap(a), lo, k, n);
    UnbVar1(a, k, n);
  }

  method Diagonal2(a: array2<real>, ghost A: Matrix, ghost lo: int, k: int, n: int, ghost hi: int)
    requires Square(a, k, n) && 0 <= lo <= k < n <= hi && Pivots(A, lo, hi) && IsSchur(a, A, lo, k, k, n, k, n)
    modifies a
    ensures Factored(a, A, lo, k, n) && SameOutside(a, old(Snap(a)), k, n, k, n)
  {
    BlockPivots(A, Snap(a), lo, k, n);
    UnbVar2(a, k, n);
  }

  method Diagonal3(a: array2<real>, ghost A: Matrix, ghost lo: int, k: int, n: int, checked: bool) returns (ok: bool)
    requires Square(a, k, n) && 0 <= lo <= k < n && IsSchur(a, A, lo, k, k, n, k, n)
    requires Pivots(A, lo, if checked then k + 1 else n)
    modifies a
    ensures ok <==> (checked ==> Pivots(A, lo, n + 1))
    ensures ok || Pivots(A, lo, n) ==> Factored(a, A, lo, k, n)
    ensures SameOutside(a, old(Snap(a)), k, n, k, n)
  {
    BlockPivots(A, Snap(a), lo, k, n);
    RefusedIffZeroPivot(Snap(a), k, n, checked);
    ok := UnbVar3(a, k, n, checked);
  }

  method Diagonal4(a: array2<real>, ghost A: Matrix, ghost lo: int, k: int, n: int, checked: bool) returns (ok: bool)
    requires Square(a, k, n) && 0 <= lo <= k < n && IsSchur(a, A, lo, k, k, n, k, n)
    requires Pivots(A, lo, if checked then k + 1 else n)
    modifies a
    ensures ok <==> (checked ==> Pivots(A, lo, n + 1))
    ensures ok || Pivots(A, lo, n) ==> Factored(a, A, lo, k, n)
    ensures SameOutside(a, old(Snap(a)), k, n, k, n)
  {
    BlockPivots(A, Snap(a), lo, k, n);
    RefusedIffZeroPivot(Snap(a), k, n, checked);
    ok := UnbVar4(a, k, n, checked);
  }

  method Diagonal5(a: array2<real>, ghost A: Matrix, ghost lo: int, k: int, n: int, checked: bool) returns (ok: bool)
    requires Square(a, k, n) && 0 <= lo <= k < n && IsSchur(a, A, lo, k, k, n, k, n)
    requires Pivots(A, lo, if checked then k + 1 else n)
    modifies a
    ensures ok <==> (checked ==> Pivots(A, lo, n + 1))
    ensures ok || Pivots(A, lo, n) ==> Factored(a, A, lo, k, n)
    ensures SameOutside(a, old(Snap(a)), k, n, k, n)
  {
    BlockPivots(A, Snap(a), lo, k, n);
    RefusedIffZeroPivot(Snap(a), k, n, checked);
    ok := UnbVar5(a, k, n, checked);
  }

  // ----- The panels -----

  /** `A12 := A12 - A10 * A02` and `A12 := inv(trilu(A11)) * A12`. */
  method RightPanel(a: array2<real>, ghost A: Matrix, lo: int, k: int, n: int, hi: int)
    requires Square(a, k, hi) && 0 <= lo <= k < n <= hi && Factored(a, A, lo, k, n)
    requires IsSchur(a, A, lo, lo, k, n, n, hi) && IsFactor(a, A, lo, k, n, lo, k) && IsFactor(a, A, lo, lo, k, n, hi)
    modifies a
    ensures IsFactor(a, A, lo, k, n, n, hi) && SameOutside(a, old(Snap(a)), k, n, n, hi)
  {
    Update(a, A, lo, k, n, n, hi, lo, k);
    SolveColumns(a, A, lo, k, n, n, hi);
  }

  /** `A21 := A21 - A20 * A01` and `A21 := A21 * inv(triu(A11))`. */
  method LowerPanel(a: array2<real>, ghost A: Matrix, lo: int, k: int, n: int, hi: int)
    requires Square(a, k, hi) && 0 <= lo <= k < n <= hi && Factored(a, A, lo, k, n)
    requires n < hi ==> Pivots(A, lo, n + 1)
    requires IsSchur(a, A, lo, lo, n, hi, k, n) && IsFactor(a, A, lo, n, hi, lo, k) && IsFactor(a, A, lo, lo, k, k, n)
    modifies a
    ensures IsFactor(a, A, lo, n, hi, k, n) && SameOutside(a, old(Snap(a)), n, hi, k, n)
  {
    Update(a, A, lo, n, hi, k, n, lo, k);
    SolveRows(a, A, lo, k, n, n, hi);
  }

  /** `A12 := inv(trilu(A11)) * A12`, `A21 := A21 * inv(triu(A11))`, `A22 := A22 - A21 * A12`. */
  method PanelsAndTrailing(a: array2<real>, ghost A: Matrix, ghost lo: int, k: int, n: int, hi: int)
    requires Square(a, k, hi) && 0 <= lo <= k < n <= hi && Factored(a, A, lo, k, n)
    requires n < hi ==> Pivots(A, lo, n + 1)
    requires IsSchur(a, A, lo, k, k, n, n, hi) && IsSchur(a, A, lo, k, n, hi, k, hi)
    modifies a
    ensures IsFactor(a, A, lo, k, n, n, hi) && IsFactor(a, A, lo, n, hi, k, n)
    ensures IsSchur(a, A, lo, n, n, hi, n, hi)
    ensures forall i, j | InBounds(a, i, j) && !(k <= i < hi && n <= j < hi) && !(n <= i < hi && k <= j < hi) ::
      a[i, j] == old(a[i, j])
  {
    SolveColumns(a, A, lo, k, n, n, hi);
    SolveRows(a, A, lo, k, n, n, hi);
    Update(a, A, lo, n, hi, n, hi, k, n);
  }

  /** `A01 := inv(trilu(A00)) * A01` and `A11 := A11 - A10 * A01`. */
  method UpperPanel(a: array2<real>, ghost A: Matrix, lo: int, k: int, n: int)
    requires Square(a, lo, n) && lo <= k < n && Factored(a, A, lo, lo, k)
    requires IsSchur(a, A, lo, lo, lo, n, k, n) && IsFactor(a, A, lo, k, n, lo, k)
    modifies a
    ensures IsFactor(a, A, lo, lo, k, k, n) && IsSchur(a, A, lo, k, k, n, k, n)
    ensures SameOutside(a, old(Snap(a)), lo, n, k, n)
  {
    SolveColumns(a, A, lo, lo, k, k, n);
    Update(a, A, lo, k, n, k, n, lo, k);
  }

  /** `A10 := A10 * inv(triu(A00))` and `A11 := A11 - A10 * A01`. */
  method LeftPanel(a: array2<real>, ghost A: Matrix, lo: int, k: int, n: int)
    requires Square(a, lo, n) && lo <= k < n && Factored(a, A, lo, lo, k) && Pivots(A, lo, k + 1)
    requires IsSchur(a, A, lo, lo, k, n, lo, n) && IsFactor(a, A, lo, lo, k, k, n)
    modifies a
    ensures IsFactor(a, A, lo, k, n, lo, k) && IsSchur(a, A, lo, k, k, n, k, n)
    ensures SameOutside(a, old(Snap(a)), k, n, lo, n)
  {
    SolveRows(a, A, lo, lo, k, k, n);
    Update(a, A, lo, k, n, k, n, lo, k);
  }

  /** Both panels of the Crout variant. */
  method BothPanels(a: array2<real>, ghost A: Matrix, lo: int, k: int, n: int, hi: int)
    requires Square(a, k, hi) && 0 <= lo <= k < n <= hi && Factored(a, A, lo, k, n)
    requires n < hi ==> Pivots(A, lo, n + 1)
    requires IsSchur(a, A, lo, lo, k, n, n, hi) && IsFactor(a, A, lo, k, n, lo, k) && IsFactor(a, A, lo, lo, k, n, hi)
    requires IsSchur(a, A, lo, lo, n, hi, k, n) && IsFactor(a, A, lo, n, hi, lo, k) && IsFactor(a, A, lo, lo, k, k, n)
    modifies a
    ensures IsFactor(a, A, lo, k, n, n, hi) && IsFactor(a, A, lo, n, hi, k, n)
    ensures forall i, j | InBounds(a, i, j) && !(k <= i < n && n <= j < hi) && !(n <= i < hi && k <= j < n) ::
      a[i, j] == old(a[i, j])
  {
    RightPanel(a, A, lo, k, n, hi);
    LowerPanel(a, A, lo, k, n, hi);
  }

  // ----- The variants -----

  /** Bordered. */
  method BlkVar1(a: array2<real>, lo: int, hi: int, nb_alg: int)
    requires Square(a, lo, hi) && Pivots(Snap(a), lo, hi) && 1 <= nb_alg
    modifies a
    ensures Replaced(a, old(Snap(a)), lo, hi)
  {
    ghost var A := Snap(a);
    var k := lo;
    while k < hi
      invariant lo <= k <= hi
      invariant At(a, Bordered, A, lo, hi, k)
    {
      var b := Min(hi - k, nb_alg);
      SolveRows(a, A, lo, lo, k, k, k + b);
      SolveColumns(a, A, lo, lo, k, k, k + b);
      Update(a, A, lo, k, k + b, k, k + b, lo, k);
      Diagonal1(a, A, lo, k, k + b, hi);
      k := k + b;
    }
  }

  /** One pass of the loop, for the rows and columns `k` to `n`. */
  method RowLazyBlock(a: array2<real>, ghost A: Matrix, lo: int, k: int, n: int, hi: int)
    requires Square(a, lo, hi) && lo <= k < n <= hi && Pivots(A, lo, hi) && At(a, RowLazy, A, lo, hi, k)
    modifies a
    ensures At(a, RowLazy, A, lo, hi, n)
  {
    LeftPanel(a, A, lo, k, n);
    Diagonal2(a, A, lo, k, n, hi);
    RightPanel(a, A, lo, k, n, hi);
  }

  /** Row-lazy. */
  method BlkVar2(a: array2<real>, lo: int, hi: int, nb_alg: int)
    requires Square(a, lo, hi) && Pivots(Snap(a), lo, hi) && 1 <= nb_alg
    modifies a
    ensures Replaced(a, old(Snap(a)), lo, hi)
  {
    ghost var A := Snap(a);
    var k := lo;
    while k < hi
      invariant lo <= k <= hi
      invariant At(a, RowLazy, A, lo, hi, k)
    {
      var b := Min(hi - k, nb_alg);
      RowLazyBlock(a, A, lo, k, k + b, hi);
      k := k + b;
    }
  }

  /** One pass of the loop, for the rows and columns `k` to `n`, up to a refusal. */
  method LeftLookingBlock(a: array2<real>, ghost A: Matrix, lo: int, k: int, n: int, hi: int, checked: bool)
    returns (ok: bool)
    requires Square(a, lo, hi) && lo <= k < n <= hi && At(a, LeftLooking, A, lo, hi, k)
    requires Pivots(A, lo, if checked then k + 1 else hi)
    modifies a
    ensures ok <==> (checked ==> Pivots(A, lo, n + 1))
    ensures ok || (n == hi && Pivots(A, lo, hi)) ==> At(a, LeftLooking, A, lo, hi, n)
    ensures SameOutside(a, A, lo, hi, lo, hi)
  {
    UpperPanel(a, A, lo, k, n);
    ok := Diagonal3(a, A, lo, k, n, checked);
    if !ok { return; }
    LowerPanel(a, A, lo, k, n, hi);
  }

  /** Left-looking. */
  method BlkVar3(a: array2<real>, lo: int, hi: int, nb_alg: int, checked: bool) returns (ok: bool)
    requires Square(a, lo, hi) && (checked || Pivots(Snap(a), lo, hi)) && 1 <= nb_alg
    modifies a
    ensures ok <==> !Refused(old(Snap(a)), lo, hi, checked)
    ensures ok || Pivots(old(Snap(a)), lo, hi) ==> Replaced(a, old(Snap(a)), lo, hi)
    ensures SameOutside(a, old(Snap(a)), lo, hi, lo, hi)
  {
    ghost var A := Snap(a);
    RefusedIffZeroPivot(A, lo, hi, checked);
    ok := true;
    var k := lo;
    while k < hi
      invariant lo <= k <= hi && ok && (checked ==> Pivots(A, lo, k + 1))
      invariant At(a, LeftLooking, A, lo, hi, k)
    {
      var b := Min(hi - k, nb_alg);
      ok := LeftLookingBlock(a, A, lo, k, k + b, hi, checked);
      if !ok { return; }
      k := k + b;
    }
  }

  /** One pass of the loop, for the rows and columns `k` to `n`, up to a refusal. */
  method CroutBlock(a: array2<real>, ghost A: Matrix, lo: int, k: int, n: int, hi: int, checked: bool)
    returns (ok: bool)
    requires Square(a, lo, hi) && lo <= k < n <= hi && At(a, Crout, A, lo, hi, k)
    requires Pivots(A, lo, if checked then k + 1 else hi)
    modifies a
    ensures ok <==> (checked ==> Pivots(A, lo, n + 1))
    ensures ok || (n == hi && Pivots(A, lo, hi)) ==> At(a, Crout, A, lo, hi, n)
    ensures SameOutside(a, A, lo, hi, lo, hi)
  {
    Update(a, A, lo, k, n, k, n, lo, k);
    ok := Diagonal4(a, A, lo, k, n, checked);
    if !ok { return; }
    BothPanels(a, A, lo, k, n, hi);
  }

  /** Crout. */
  method BlkVar4(a: array2<real>, lo: int, hi: int, nb_alg: int, checked: bool) returns (ok: bool)
    requires Square(a, lo, hi) && (checked || Pivots(Snap(a), lo, hi)) && 1 <= nb_alg
    modifies a
    ensures ok <==> !Refused(old(Snap(a)), lo, hi, checked)
    ensures ok || Pivots(old(Snap(a)), lo, hi) ==> Replaced(a, old(Snap(a)), lo, hi)
    ensures SameOutside(a, old(Snap(a)), lo, hi, lo, hi)
  {
    ghost var A := Snap(a);
    RefusedIffZeroPivot(A, lo, hi, checked);
    ok := true;
    var k := lo;
    while k < hi
      invariant lo <= k <= hi && ok && (checked ==> Pivots(A, lo, k + 1))
      invariant At(a, Crout, A, lo, hi, k)
    {
      var b := Min(hi - k, nb_alg);
      ok := CroutBlock(a, A, lo, k, k + b, hi, checked);
      if !ok { return; }
      k := k + b;
    }
  }

  /** One pass of the loop, for the rows and columns `k` to `n`, up to a refusal. */
  method RightLookingBlock(a: array2<real>, ghost A: Matrix, lo: int, k: int, n: int, hi: int, checked: bool)
    returns (ok: bool)
    requires Square(a, lo, hi) && lo <= k < n <= hi && At(a, RightLooking, A, lo, hi, k)
    requires Pivots(A, lo, if checked then k + 1 else hi)
    modifies a
    ensures ok <==> (checked ==> Pivots(A, lo, n + 1))
    ensures ok || (n == hi && Pivots(A, lo, hi)) ==> At(a, RightLooking, A, lo, hi, n)
    ensures SameOutside(a, A, lo, hi, lo, hi)
  {
    ok := Diagonal5(a, A, lo, k, n, checked);
    if !ok { return; }
    PanelsAndTrailing(a, A, lo, k, n, hi);
  }

  /** Right-looking. */
  method BlkVar5(a: array2<real>, lo: int, hi: int, nb_alg: int, checked: bool) returns (ok: bool)
    requires Square(a, lo, hi) && (checked || Pivots(Snap(a), lo, hi)) && 1 <= nb_alg
    modifies a
    ensures ok <==> !Refused(old(Snap(a)), lo, hi, checked)
    ensures ok || Pivots(old(Snap(a)), lo, hi) ==> Replaced(a, old(Snap(a)), lo, hi)
    ensures SameOutside(a, old(Snap(a)), lo, hi, lo, hi)
  {
    ghost var A := Snap(a);
    RefusedIffZeroPivot(A, lo, hi, checked);
    ok := true;
    var k := lo;
    while k < hi
      invariant lo <= k <= hi && ok && (checked ==> Pivots(A, lo, k + 1))
      invariant At(a, RightLooking, A, lo, hi, k)
    {
      var b := Min(hi - k, nb_alg);
      ok := RightLookingBlock(a, A, lo, k, k + b, hi, checked);
      if !ok { return; }
      k := k + b;
    }
  }
}
