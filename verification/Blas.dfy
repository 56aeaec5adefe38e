/** The level 1, 2 and 3 operations that the factorizations call, on sub-blocks of one matrix that
    is overwritten in place. A block is given by its row and column ranges; the vector forms
    (`Dots`, `Gemv`, `Ger`, `Trsv`) are the matrix forms with one row, one column or both. */
module Blas {
  import opened Matrices
  import opened LUFactors

  /** Every entry outside the block of rows `i0 <= i < i1` and columns `j0 <= j < j1` is that of `X`. */
  ghost predicate SameOutside(a: array2<real>, X: Matrix, i0: int, i1: int, j0: int, j1: int)
    reads a
  {
    forall i, j | InBounds(a, i, j) && !(i0 <= i < i1 && j0 <= j < j1) :: a[i, j] == X(i, j)
  }

  predicate Ranges(a: array2<real>, i0: int, i1: int, j0: int, j1: int) {
    0 <= i0 <= i1 <= a.Length0 && 0 <= j0 <= j1 <= a.Length1
  }

  method DotProduct(a: array2<real>, i: int, j: int, p0: int, p1: int) returns (s: real)
    requires InBounds(a, i, j) && 0 <= p0 <= p1 <= a.Length0 && p1 <= a.Length1
    ensures s == Dot(Snap(a), Snap(a), i, j, p0, p1)
  {
    s := 0.0;
    for p := p0 to p1
      invariant s == Dot(Snap(a), Snap(a), i, j, p0, p)
    {
      s := s + a[i, p] * a[p, j];
    }
  }

  /** `C := C - A * B`, where `A` is left of `C` and `B` above it. */
  method Gemm(a: array2<real>, i0: int, i1: int, j0: int, j1: int, p0: int, p1: int)
    requires Ranges(a, i0, i1, j0, j1) && 0 <= p0 <= p1 <= i0 && p1 <= j0
    modifies a
    ensures SameOutside(a, old(Snap(a)), i0, i1, j0, j1)
    ensures forall i, j | i0 <= i < i1 && j0 <= j < j1 ::
      a[i, j] == old(a[i, j]) - Dot(old(Snap(a)), old(Snap(a)), i, j, p0, p1)
  {
    ghost var X := Snap(a);
    for i := i0 to i1
      invariant forall r, c | InBounds(a, r, c) ::
        a[r, c] == X(r, c) - if i0 <= r < i && j0 <= c < j1 then Dot(X, X, r, c, p0, p1) else 0.0
    {
      for j := j0 to j1
        invariant forall r, c | InBounds(a, r, c) ::
          a[r, c] == X(r, c) - if (i0 <= r < i && j0 <= c < j1) || (r == i && j0 <= c < j) then Dot(X, X, r, c, p0, p1)
              else 0.0
      {
        var s := DotProduct(a, i, j, p0, p1);
        DotSame(Snap(a), Snap(a), X, X, i, j, p0, p1);
        a[i, j] := a[i, j] - s;
      }
    }
  }

  lemma ColumnEquationSame(X: Matrix, X': Matrix, Y: Matrix, k: int, q: int, j: int)
    requires X(q, j) == X'(q, j) && forall p | k <= p < q :: X(q, p) == X'(q, p) && X(p, j) == X'(p, j)
    ensures ColumnEquation(X, Y, k, q, j) <==> ColumnEquation(X', Y, k, q, j)
  {
    DotSame(X, X, X', X', q, j, k, q);
  }

  lemma LowerStep(X: Matrix, X': Matrix, Y: Matrix, k: int, i: int, j: int)
    requires k <= i < j && X(i, j) == Y(i, j)
    requires forall r, c | k <= r <= i && k <= c <= j && !(r == i && c == j) :: X'(r, c) == X(r, c)
    requires X'(i, j) == X(i, j) - Dot(X, X, i, j, k, i)
    requires forall q | k <= q < i :: ColumnEquation(X, Y, k, q, j)
    ensures forall q | k <= q <= i :: ColumnEquation(X', Y, k, q, j)
  {
    DotSame(X, X, X', X', i, j, k, i);
    forall q | k <= q < i ensures ColumnEquation(X', Y, k, q, j) { ColumnEquationSame(X, X', Y, k, q, j); }
  }

  /** Column `j` of `B := inv(trilu(A)) * B`, for the unit lower triangle in rows and columns `k` to `n`. */
  method TrsvLower(a: array2<real>, k: int, n: int, j: int)
    requires Ranges(a, k, n, k, n) && n <= j < a.Length1
    modifies a
    ensures SameOutside(a, old(Snap(a)), k, n, j, j + 1)
    ensures forall i | k <= i < n :: ColumnEquation(Snap(a), old(Snap(a)), k, i, j)
  {
    ghost var Y := Snap(a);
    for i := k to n
      invariant forall r, c | InBounds(a, r, c) && !(k <= r < i && c == j) :: a[r, c] == Y(r, c)
      invariant forall q | k <= q < i :: ColumnEquation(Snap(a), Y, k, q, j)
    {
      ghost var X := Snap(a);
      var s := DotProduct(a, i, j, k, i);
      a[i, j] := a[i, j] - s;
      LowerStep(X, Snap(a), Y, k, i, j);
    }
  }

  /** Solving one more column leaves the equations of the columns before it. */
  lemma ColumnsKept(X: Matrix, X': Matrix, Y: Matrix, k: int, n: int, j0: int, j: int)
    requires n <= j0 <= j
    requires forall r, c | k <= r < n && k <= c < j :: X'(r, c) == X(r, c)
    requires forall i, c | k <= i < n && j0 <= c < j :: ColumnEquation(X, Y, k, i, c)
    requires forall i | k <= i < n :: ColumnEquation(X', X, k, i, j) && X(i, j) == Y(i, j)
    ensures forall i, c | k <= i < n && j0 <= c <= j :: ColumnEquation(X', Y, k, i, c)
  {
    forall i, c | k <= i < n && j0 <= c <= j ensures ColumnEquation(X', Y, k, i, c) {
      if c < j { ColumnEquationSame(X, X', Y, k, i, c); } else { assert ColumnEquation(X', X, k, i, j); }
    }
  }

  /** `B := inv(trilu(A)) * B`, for the columns `j0` to `j1`. */
  method TrsmLeftLower(a: array2<real>, k: int, n: int, j0: int, j1: int)
    requires Ranges(a, k, n, k, n) && n <= j0 <= j1 <= a.Length1
    modifies a
    ensures SameOutside(a, old(Snap(a)), k, n, j0, j1)
    ensures forall i, j | k <= i < n && j0 <= j < j1 :: ColumnEquation(Snap(a), old(Snap(a)), k, i, j)
  {
    ghost var Y := Snap(a);
    for j := j0 to j1
      invariant SameOutside(a, Y, k, n, j0, j)
      invariant forall i, c | k <= i < n && j0 <= c < j :: ColumnEquation(Snap(a), Y, k, i, c)
    {
      ghost var X := Snap(a);
      TrsvLower(a, k, n, j);
      ColumnsKept(X, Snap(a), Y, k, n, j0, j);
    }
  }

  lemma RowEquationSame(X: Matrix, X': Matrix, Y: Matrix, k: int, i: int, q: int)
    requires X(i, q) == X'(i, q) && X(q, q) == X'(q, q)
    requires forall p | k <= p < q :: X(i, p) == X'(i, p) && X(p, q) == X'(p, q)
    ensures RowEquation(X, Y, k, i, q) <==> RowEquation(X', Y, k, i, q)
  {
    DotSame(X, X, X', X', i, q, k, q);
  }

  ghost predicate NonzeroDiagonal(a: array2<real>, k: int, n: int)
    requires Ranges(a, k, n, k, n)
    reads a
  {
    forall q | k <= q < n :: a[q, q] != 0.0
  }

  lemma UpperStep(X: Matrix, X': Matrix, Y: Matrix, k: int, i: int, j: int)
    requires k <= j < i && X(i, j) == Y(i, j) && X(j, j) != 0.0
    requires forall r, c | k <= r <= i && k <= c <= j && !(r == i && c == j) :: X'(r, c) == X(r, c)
    requires X'(i, j) == (X(i, j) - Dot(X, X, i, j, k, j)) / X(j, j)
    requires forall q | k <= q < j :: RowEquation(X, Y, k, i, q)
    ensures forall q | k <= q <= j :: RowEquation(X', Y, k, i, q)
  {
    DotSame(X, X, X', X', i, j, k, j);
    QuotientCancels(X(i, j) - Dot(X, X, i, j, k, j), X(j, j));
    forall q | k <= q < j ensures RowEquation(X', Y, k, i, q) { RowEquationSame(X, X', Y, k, i, q); }
  }

  /** Row `i` of `B := B * inv(triu(A))`, for the upper triangle in rows and columns `k` to `n`. */
  method TrsvUpper(a: array2<real>, k: int, n: int, i: int)
    requires Ranges(a, k, n, k, n) && n <= i < a.Length0 && NonzeroDiagonal(a, k, n)
    modifies a
    ensures SameOutside(a, old(Snap(a)), i, i + 1, k, n)
    ensures forall j | k <= j < n :: RowEquation(Snap(a), old(Snap(a)), k, i, j)
  {
    ghost var Y := Snap(a);
    for j := k to n
      invariant forall r, c | InBounds(a, r, c) && !(r == i && k <= c < j) :: a[r, c] == Y(r, c)
      invariant forall q | k <= q < j :: RowEquation(Snap(a), Y, k, i, q)
    {
      ghost var X := Snap(a);
      var s := DotProduct(a, i, j, k, j);
      assert a[j, j] != 0.0;
      a[i, j] := (a[i, j] - s) / a[j, j];
      UpperStep(X, Snap(a), Y, k, i, j);
    }
  }

  /** Solving one more row leaves the equations of the rows before it. */
  lemma RowsKept(X: Matrix, X': Matrix, Y: Matrix, k: int, n: int, i0: int, i: int)
    requires n <= i0 <= i
    requires forall r, c | k <= r < i && k <= c < n :: X'(r, c) == X(r, c)
    requires forall r, j | i0 <= r < i && k <= j < n :: RowEquation(X, Y, k, r, j)
    requires forall j | k <= j < n :: RowEquation(X', X, k, i, j) && X(i, j) == Y(i, j)
    ensures forall r, j | i0 <= r <= i && k <= j < n :: RowEquation(X', Y, k, r, j)
  {
    forall r, j | i0 <= r <= i && k <= j < n ensures RowEquation(X', Y, k, r, j) {
      if r < i { RowEquationSame(X, X', Y, k, r, j); } else { assert RowEquation(X', X, k, i, j); }
    }
  }

  /** `B := B * inv(triu(A))`, for the rows `i0` to `i1`. */
  method TrsmRightUpper(a: array2<real>, k: int, n: int, i0: int, i1: int)
    requires Ranges(a, k, n, k, n) && n <= i0 <= i1 <= a.Length0
    requires i0 < i1 ==> NonzeroDiagonal(a, k, n)
    modifies a
    ensures SameOutside(a, old(Snap(a)), i0, i1, k, n)
    ensures forall i, j | i0 <= i < i1 && k <= j < n :: RowEquation(Snap(a), old(Snap(a)), k, i, j)
  {
    ghost var Y := Snap(a);
    for i := i0 to i1
      invariant SameOutside(a, Y, i0, i, k, n)
      invariant i < i1 ==> NonzeroDiagonal(a, k, n)
      invariant forall r, j | i0 <= r < i && k <= j < n :: RowEquation(Snap(a), Y, k, r, j)
    {
      ghost var X := Snap(a);
      TrsvUpper(a, k, n, i);
      RowsKept(X, Snap(a), Y, k, n, i0, i);
    }
  }

  /** `a21 := a21 / alpha11` for the column below the diagonal entry `k`. The full check of the error level
      refuses a zero `alpha11` before it looks at the column; without it there must be nothing to divide. */
  method InvScal(a: array2<real>, k: int, n: int, checked: bool) returns (ok: bool)
    requires Ranges(a, k, n, k, n) && k < n && (checked || k + 1 == n || a[k, k] != 0.0)
    modifies a
    ensures ok <==> !(checked && old(a[k, k]) == 0.0)
    ensures SameOutside(a, old(Snap(a)), k + 1, n, k, k + 1)
    ensures ok ==> forall i | k + 1 <= i < n :: a[i, k] == old(a[i, k]) / old(a[k, k])
    ensures !ok ==> forall i, j | InBounds(a, i, j) :: a[i, j] == old(a[i, j])
  {
    if checked && a[k, k] == 0.0 { return false; }
    for i := k + 1 to n
      invariant forall r, c | InBounds(a, r, c) && !(k + 1 <= r < i && c == k) :: a[r, c] == old(a[r, c])
      invariant forall r | k + 1 <= r < i :: a[r, k] == old(a[r, k]) / old(a[k, k])
    {
      a[i, k] := a[i, k] / a[k, k];
    }
    ok := true;
  }
}
