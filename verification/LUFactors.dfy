/** The packed LU factors of a matrix, what they mean, and when they exist. Elimination starts at
    index `lo`; indices are absolute, so that a diagonal block keeps the indices of its matrix. */
module LUFactors {
  import opened Matrices

  function Quotient(x: real, y: real): real { if y == 0.0 then 0.0 else x / y }

  /** What is left of entry `(i, j)` when the products of the factors `lo <= q < p` are subtracted. */
  ghost function Schur(A: Matrix, lo: int, p: int, i: int, j: int): real
    requires lo <= p <= i && p <= j
    decreases p - lo, 0
  {
    if p == lo then A(i, j)
    else Schur(A, lo, p - 1, i, j) - Factor(A, lo, i, p - 1) * Factor(A, lo, p - 1, j)
  }

  /** Entry `(i, j)` of the packed factors: `U` on and above the diagonal, `L` below. */
  ghost function Factor(A: Matrix, lo: int, i: int, j: int): real
    requires lo <= i && lo <= j
    decreases (if i <= j then i else j) - lo, 1
  {
    if i <= j then Schur(A, lo, i, i, j)
    else Quotient(Schur(A, lo, j, i, j), Schur(A, lo, j, j, j))
  }

  /** All pivots but the last are non-zero. */
  ghost predicate Pivots(A: Matrix, lo: int, hi: int) {
    forall p | lo <= p < hi - 1 :: Schur(A, lo, p, p, p) != 0.0
  }

  /** The `L` (unit lower triangular) and the `U` (upper triangular) that a packed matrix holds. */
  ghost function Lower(F: Matrix): Matrix { (i: int, j: int) => if i == j then 1.0 else if i > j then F(i, j) else 0.0 }
  ghost function Upper(F: Matrix): Matrix { (i: int, j: int) => if i <= j then F(i, j) else 0.0 }

  ghost function Packed(A: Matrix, lo: int): Matrix {
    (i: int, j: int) => if lo <= i && lo <= j then Factor(A, lo, i, j) else 0.0
  }

  /** The trailing matrix after the elimination of the columns before `p`. */
  ghost function Trailing(A: Matrix, lo: int, p: int): Matrix
    requires lo <= p
  {
    (i: int, j: int) => if p <= i && p <= j then Schur(A, lo, p, i, j) else 0.0
  }

  lemma QuotientCancels(x: real, d: real)
    requires d != 0.0
    ensures Quotient(x * d, d) == x && Quotient(x, d) * d == x
  {
    assert x * d / d == x && x / d * d == x;
  }

  lemma QuotientIs(s: real, x: real, d: real)
    requires d != 0.0 && s == x * d
    ensures Quotient(s, d) == x
  {
    QuotientCancels(x, d);
  }

  /** Subtracting further products takes the Schur complement further. */
  lemma {:induction false} SchurMore(A: Matrix, X: Matrix, lo: int, p: int, p': int, i: int, j: int)
    requires lo <= p <= p' <= i && p' <= j
    requires forall q | p <= q < p' :: X(i, q) == Factor(A, lo, i, q) && X(q, j) == Factor(A, lo, q, j)
    ensures Schur(A, lo, p, i, j) - Dot(X, X, i, j, p, p') == Schur(A, lo, p', i, j)
    decreases p' - p
  {
    if p < p' {
      SchurMore(A, X, lo, p, p' - 1, i, j);
      DotLast(X, X, i, j, p, p', Factor(A, lo, i, p' - 1), Factor(A, lo, p' - 1, j));
    }
  }

  /** Eliminating a Schur complement is continuing the elimination. */
  lemma {:induction false} SchurOfSchur(A: Matrix, B: Matrix, lo: int, k: int, n: int, p: int, i: int, j: int)
    requires lo <= k <= p <= i < n && p <= j < n
    requires forall i, j | k <= i < n && k <= j < n :: B(i, j) == Schur(A, lo, k, i, j)
    ensures Schur(B, k, p, i, j) == Schur(A, lo, p, i, j)
    decreases p - k, 0
  {
    if k < p {
      SchurOfSchur(A, B, lo, k, n, p - 1, i, j);
      FactorOfSchur(A, B, lo, k, n, i, p - 1);
      FactorOfSchur(A, B, lo, k, n, p - 1, j);
      SameProduct(Factor(B, k, i, p - 1), Factor(B, k, p - 1, j), Factor(A, lo, i, p - 1), Factor(A, lo, p - 1, j));
    }
  }

  lemma {:induction false} FactorOfSchur(A: Matrix, B: Matrix, lo: int, k: int, n: int, i: int, j: int)
    requires lo <= k <= i < n && k <= j < n
    requires forall i, j | k <= i < n && k <= j < n :: B(i, j) == Schur(A, lo, k, i, j)
    ensures Factor(B, k, i, j) == Factor(A, lo, i, j)
    decreases (if i <= j then i else j) - k, 1
  {
    var p := if i <= j then i else j;
    SchurOfSchur(A, B, lo, k, n, p, i, j);
    SchurOfSchur(A, B, lo, k, n, p, p, p);
  }

  /** `Y = L * X` at row `q` of column `j`, where the unit lower triangle `L` is stored in `X` from index `k` on. */
  ghost predicate ColumnEquation(X: Matrix, Y: Matrix, k: int, q: int, j: int) {
    Y(q, j) == X(q, j) + Dot(X, X, q, j, k, q)
  }

  /** `Y = X * U` at column `q` of row `i`, where the upper triangle `U` is stored in `X` from index `k` on. */
  ghost predicate RowEquation(X: Matrix, Y: Matrix, k: int, i: int, q: int) {
    Y(i, q) == Dot(X, X, i, q, k, q) + X(i, q) * X(q, q)
  }

  /** Lower triangular solve: when the unknowns of one column satisfy the equations, they are factors. */
  lemma {:induction false} ColumnSolved(A: Matrix, X: Matrix, Y: Matrix, lo: int, k: int, i: int, j: int)
    requires lo <= k <= i <= j
    requires forall q | k <= q <= i :: Y(q, j) == Schur(A, lo, k, q, j)
    requires forall q | k <= q <= i :: ColumnEquation(X, Y, k, q, j)
    requires forall q, r | k <= r < q <= i :: X(q, r) == Factor(A, lo, q, r)
    ensures X(i, j) == Factor(A, lo, i, j)
    decreases i - k
  {
    forall q | k <= q < i ensures X(q, j) == Factor(A, lo, q, j) { ColumnSolved(A, X, Y, lo, k, q, j); }
    assert ColumnEquation(X, Y, k, i, j);
    SchurMore(A, X, lo, k, i, i, j);
  }

  /** Upper triangular solve: when the unknowns of one row satisfy the equations, they are factors. */
  lemma {:induction false} RowSolved(A: Matrix, X: Matrix, Y: Matrix, lo: int, k: int, i: int, j: int)
    requires lo <= k <= j < i
    requires forall q | k <= q <= j :: Y(i, q) == Schur(A, lo, k, i, q)
    requires forall q | k <= q <= j :: RowEquation(X, Y, k, i, q)
    requires forall q, r | k <= r <= q <= j :: X(r, q) == Factor(A, lo, r, q)
    requires forall q | k <= q <= j :: Schur(A, lo, q, q, q) != 0.0
    ensures X(i, j) == Factor(A, lo, i, j)
    decreases j - k
  {
    forall q | k <= q < j ensures X(i, q) == Factor(A, lo, i, q) { RowSolved(A, X, Y, lo, k, i, q); }
    assert RowEquation(X, Y, k, i, j);
    SchurMore(A, X, lo, k, j, i, j);
    QuotientIs(Schur(A, lo, j, i, j), X(i, j), Schur(A, lo, j, j, j));
  }

  // ----- What the factors mean -----

  ghost predicate UnitLower(L: Matrix, lo: int, hi: int) {
    forall i, j | lo <= i < hi && i <= j < hi :: L(i, j) == if i == j then 1.0 else 0.0
  }

  ghost predicate UpperTriangular(U: Matrix, lo: int, hi: int) {
    forall i, j | lo <= j < i < hi :: U(i, j) == 0.0
  }

  /** On and above the diagonal, only the first term of the tail of a product of triangles remains. */
  lemma UpperTail(L: Matrix, U: Matrix, lo: int, hi: int, i: int, j: int)
    requires UnitLower(L, lo, hi) && lo <= i <= j < hi
    ensures Dot(L, U, i, j, i, hi) == U(i, j)
  {
    DotFirst(L, U, i, j, i, hi, 1.0, U(i, j));
    DotZero(L, U, i, j, i + 1, hi);
  }

  /** On and below the diagonal, likewise. */
  lemma LowerTail(L: Matrix, U: Matrix, lo: int, hi: int, i: int, j: int, x: real, d: real)
    requires UpperTriangular(U, lo, hi) && lo <= j <= i < hi && x == L(i, j) && d == U(j, j)
    ensures Dot(L, U, i, j, j, hi) == x * d
  {
    DotFirst(L, U, i, j, j, hi, x, d);
    DotZero(L, U, i, j, j + 1, hi);
  }

  /** The tail of the product of the triangles is the Schur complement. */
  lemma TailIsSchur(A: Matrix, lo: int, hi: int, i: int, j: int, p: int)
    requires lo <= i < hi && lo <= j < hi && p == (if i <= j then i else j) && Pivots(A, lo, hi)
    ensures Dot(Lower(Packed(A, lo)), Upper(Packed(A, lo)), i, j, p, hi) == Schur(A, lo, p, i, j)
  {
    var L, U := Lower(Packed(A, lo)), Upper(Packed(A, lo));
    if i <= j {
      UpperTail(L, U, lo, hi, i, j);
    } else {
      LowerTail(L, U, lo, hi, i, j, Factor(A, lo, i, j), Factor(A, lo, j, j));
      QuotientCancels(Schur(A, lo, j, i, j), Schur(A, lo, j, j, j));
    }
  }

  /** The factors multiply to the matrix: `L * U == A`. */
  lemma FactorsReproduce(A: Matrix, lo: int, hi: int, i: int, j: int)
    requires lo <= i < hi && lo <= j < hi && Pivots(A, lo, hi)
    ensures Dot(Lower(Packed(A, lo)), Upper(Packed(A, lo)), i, j, lo, hi) == A(i, j)
  {
    var F := Packed(A, lo);
    var p := if i <= j then i else j;
    DotSplit(Lower(F), Upper(F), i, j, lo, p, hi);
    TailIsSchur(A, lo, hi, i, j, p);
    DotSame(Lower(F), Upper(F), F, F, i, j, lo, p);
    SchurMore(A, F, lo, lo, p, i, j);
  }

  /** `L * U == A`, with a non-zero diagonal of `U` except perhaps at the end. */
  ghost predicate Factorization(A: Matrix, L: Matrix, U: Matrix, lo: int, hi: int) {
    && UnitLower(L, lo, hi) && UpperTriangular(U, lo, hi)
    && (forall p | lo <= p < hi - 1 :: U(p, p) != 0.0)
    && (forall i, j | lo <= i < hi && lo <= j < hi :: Dot(L, U, i, j, lo, hi) == A(i, j))
  }

  /** In any factorization, what elimination leaves is the product of the remaining factors. */
  lemma {:induction false} SchurIsRemainder(A: Matrix, L: Matrix, U: Matrix, lo: int, hi: int, p: int, i: int, j: int)
    requires Factorization(A, L, U, lo, hi) && lo <= p <= i < hi && p <= j < hi
    ensures Schur(A, lo, p, i, j) == Dot(L, U, i, j, p, hi)
    decreases p - lo, 0
  {
    if lo < p {
      SchurIsRemainder(A, L, U, lo, hi, p - 1, i, j);
      FactorIsUnique(A, L, U, lo, hi, i, p - 1);
      FactorIsUnique(A, L, U, lo, hi, p - 1, j);
      DotFirst(L, U, i, j, p - 1, hi, Factor(A, lo, i, p - 1), Factor(A, lo, p - 1, j));
    }
  }

  /** Uniqueness: any factorization with non-zero leading diagonal is the packed one. */
  lemma {:induction false} FactorIsUnique(A: Matrix, L: Matrix, U: Matrix, lo: int, hi: int, i: int, j: int)
    requires Factorization(A, L, U, lo, hi) && lo <= i < hi && lo <= j < hi
    ensures Factor(A, lo, i, j) == if i <= j then U(i, j) else L(i, j)
    decreases (if i <= j then i else j) - lo, 1
  {
    var p := if i <= j then i else j;
    SchurIsRemainder(A, L, U, lo, hi, p, i, j);
    if i <= j {
      UpperTail(L, U, lo, hi, i, j);
    } else {
      SchurIsRemainder(A, L, U, lo, hi, j, j, j);
      UpperTail(L, U, lo, hi, j, j);
      LowerTail(L, U, lo, hi, i, j, L(i, j), U(j, j));
      QuotientIs(Schur(A, lo, j, i, j), L(i, j), U(j, j));
    }
  }

  /** The pivots are non-zero exactly when such a factorization exists. */
  lemma PivotsIffFactorization(A: Matrix, lo: int, hi: int)
    ensures Pivots(A, lo, hi) <==> exists L, U :: Factorization(A, L, U, lo, hi)
  {
    if Pivots(A, lo, hi) {
      var L, U := Lower(Packed(A, lo)), Upper(Packed(A, lo));
      forall i, j | lo <= i < hi && lo <= j < hi ensures Dot(L, U, i, j, lo, hi) == A(i, j) {
        FactorsReproduce(A, lo, hi, i, j);
      }
      forall p | lo <= p < hi - 1 ensures U(p, p) != 0.0 { assert U(p, p) == Schur(A, lo, p, p, p); }
      assert Factorization(A, L, U, lo, hi);
    }
    if L, U :| Factorization(A, L, U, lo, hi) {
      forall p | lo <= p < hi - 1 ensures Schur(A, lo, p, p, p) != 0.0 {
        FactorIsUnique(A, L, U, lo, hi, p, p);
      }
    }
  }
}
