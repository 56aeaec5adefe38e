/** The Cholesky factor of a matrix given by its lower triangle, what it means, and when it exists.
    The square root is a parameter: a function with a positive square for every positive number. */
module CholFactors {
  import opened Matrices
  import opened LUFactors

  ghost predicate IsSqrt(sqrt: real -> real) {
    forall x | 0.0 < x :: IsRootOf(sqrt(x), x)
  }

  ghost predicate IsRootOf(r: real, x: real) { 0.0 < r && r * r == x }

  ghost function Transposed(X: Matrix): Matrix { (i: int, j: int) => X(j, i) }

  /** What is left of entry `(i, j)` of the lower triangle when the first `p - lo` columns of the factor are
      accounted for. */
  ghost function Rest(A: Matrix, sqrt: real -> real, lo: int, p: int, i: int, j: int): real
    requires lo <= p <= j <= i
    decreases p - lo, 0, 0
  {
    if p == lo then A(i, j)
    else Rest(A, sqrt, lo, p - 1, i, j) - Chol(A, sqrt, lo, i, p - 1) * Chol(A, sqrt, lo, j, p - 1)
  }

  /** Entry `(i, j)` of the factor `L`. */
  ghost function Chol(A: Matrix, sqrt: real -> real, lo: int, i: int, j: int): real
    requires lo <= j <= i
    decreases j - lo, 1, i - j
  {
    if i == j then sqrt(Rest(A, sqrt, lo, j, j, j))
    else Quotient(Rest(A, sqrt, lo, j, i, j), Chol(A, sqrt, lo, j, j))
  }

  ghost predicate PositivePivots(A: Matrix, sqrt: real -> real, lo: int, hi: int) {
    forall p | lo <= p < hi :: 0.0 < Rest(A, sqrt, lo, p, p, p)
  }

  /** The factor as a matrix, with zeros above the diagonal. */
  ghost function CholMatrix(A: Matrix, sqrt: real -> real, lo: int): Matrix {
    (i: int, j: int) => if lo <= j <= i then Chol(A, sqrt, lo, i, j) else 0.0
  }

  /** Subtracting further products takes the remainder further. */
  lemma {:induction false} RestMore(A: Matrix, sqrt: real -> real, X: Matrix, lo: int, p: int, p': int, i: int, j: int)
    requires lo <= p <= p' <= j <= i
    requires forall q | p <= q < p' :: X(i, q) == Chol(A, sqrt, lo, i, q) && X(j, q) == Chol(A, sqrt, lo, j, q)
    ensures Rest(A, sqrt, lo, p, i, j) - Dot(X, Transposed(X), i, j, p, p') == Rest(A, sqrt, lo, p', i, j)
    decreases p' - p
  {
    if p < p' {
      RestMore(A, sqrt, X, lo, p, p' - 1, i, j);
      DotLast(X, Transposed(X), i, j, p, p', Chol(A, sqrt, lo, i, p' - 1), Chol(A, sqrt, lo, j, p' - 1));
    }
  }

  /** Factoring a remainder is continuing the factorization. */
  lemma {:induction false} RestOfRest(A: Matrix, B: Matrix, sqrt: real -> real, lo: int, k: int, n: int, p: int,
                                      i: int, j: int)
    requires lo <= k <= p <= j <= i < n
    requires forall i, j | k <= j <= i < n :: B(i, j) == Rest(A, sqrt, lo, k, i, j)
    ensures Rest(B, sqrt, k, p, i, j) == Rest(A, sqrt, lo, p, i, j)
    decreases p - k, 0, 0
  {
    if k < p {
      RestOfRest(A, B, sqrt, lo, k, n, p - 1, i, j);
      CholOfRest(A, B, sqrt, lo, k, n, i, p - 1);
      CholOfRest(A, B, sqrt, lo, k, n, j, p - 1);
      SameProduct(Chol(B, sqrt, k, i, p - 1), Chol(B, sqrt, k, j, p - 1),
                  Chol(A, sqrt, lo, i, p - 1), Chol(A, sqrt, lo, j, p - 1));
    }
  }

  lemma {:induction false} CholOfRest(A: Matrix, B: Matrix, sqrt: real -> real, lo: int, k: int, n: int, i: int, j: int)
    requires lo <= k <= j <= i < n
    requires forall i, j | k <= j <= i < n :: B(i, j) == Rest(A, sqrt, lo, k, i, j)
    ensures Chol(B, sqrt, k, i, j) == Chol(A, sqrt, lo, i, j)
    decreases j - k, 1, i - j
  {
    RestOfRest(A, B, sqrt, lo, k, n, j, i, j);
    if j < i { CholOfRest(A, B, sqrt, lo, k, n, j, j); }
  }

  /** `Y = X * L'` at column `q` of row `i`, where the lower triangle `L` is stored in `X` from index `k` on. */
  ghost predicate RowEquationT(X: Matrix, Y: Matrix, k: int, i: int, q: int) {
    Y(i, q) == Dot(X, Transposed(X), i, q, k, q) + X(i, q) * X(q, q)
  }

  /** When the unknowns of one row satisfy the equations, they are entries of the factor. */
  lemma {:induction false} RowSolvedT(A: Matrix, sqrt: real -> real, X: Matrix, Y: Matrix, lo: int, k: int, i: int,
                                      j: int)
    requires lo <= k <= j < i
    requires forall q | k <= q <= j :: Y(i, q) == Rest(A, sqrt, lo, k, i, q)
    requires forall q | k <= q <= j :: RowEquationT(X, Y, k, i, q)
    requires forall q, r | k <= r <= q <= j :: X(q, r) == Chol(A, sqrt, lo, q, r)
    requires forall q | k <= q <= j :: Chol(A, sqrt, lo, q, q) != 0.0
    ensures X(i, j) == Chol(A, sqrt, lo, i, j)
    decreases j - k
  {
    forall q | k <= q < j ensures X(i, q) == Chol(A, sqrt, lo, i, q) { RowSolvedT(A, sqrt, X, Y, lo, k, i, q); }
    assert RowEquationT(X, Y, k, i, j);
    RestMore(A, sqrt, X, lo, k, j, i, j);
    QuotientIs(Rest(A, sqrt, lo, j, i, j), X(i, j), Chol(A, sqrt, lo, j, j));
  }

  lemma PivotRoot(A: Matrix, sqrt: real -> real, lo: int, p: int)
    requires IsSqrt(sqrt) && lo <= p && 0.0 < Rest(A, sqrt, lo, p, p, p)
    ensures IsRootOf(Chol(A, sqrt, lo, p, p), Rest(A, sqrt, lo, p, p, p))
  {
  }

  lemma ProductWithPivot(A: Matrix, sqrt: real -> real, lo: int, i: int, j: int)
    requires IsSqrt(sqrt) && lo <= j <= i && 0.0 < Rest(A, sqrt, lo, j, j, j)
    ensures Chol(A, sqrt, lo, i, j) * Chol(A, sqrt, lo, j, j) == Rest(A, sqrt, lo, j, i, j)
  {
    PivotRoot(A, sqrt, lo, j);
    if j < i { QuotientCancels(Rest(A, sqrt, lo, j, i, j), Chol(A, sqrt, lo, j, j)); }
  }

  /** From column `j` on, only the first term of the product of row `i` and row `j` remains. */
  lemma LeadingTermT(L: Matrix, lo: int, hi: int, i: int, j: int, x: real, d: real)
    requires lo <= j <= i < hi && forall i, j | lo <= i < j < hi :: L(i, j) == 0.0
    requires x == L(i, j) && d == L(j, j)
    ensures Dot(L, Transposed(L), i, j, j, hi) == x * d
  {
    DotFirst(L, Transposed(L), i, j, j, hi, x, d);
    DotZero(L, Transposed(L), i, j, j + 1, hi);
  }

  lemma TailIsRest(A: Matrix, sqrt: real -> real, lo: int, hi: int, i: int, j: int)
    requires IsSqrt(sqrt) && PositivePivots(A, sqrt, lo, hi) && lo <= j <= i < hi
    ensures var L := CholMatrix(A, sqrt, lo); Dot(L, Transposed(L), i, j, j, hi) == Rest(A, sqrt, lo, j, i, j)
  {
    LeadingTermT(CholMatrix(A, sqrt, lo), lo, hi, i, j, Chol(A, sqrt, lo, i, j), Chol(A, sqrt, lo, j, j));
    ProductWithPivot(A, sqrt, lo, i, j);
  }

  /** The factor reproduces the lower triangle: `L * L' == A`. */
  lemma CholReproduces(A: Matrix, sqrt: real -> real, lo: int, hi: int, i: int, j: int)
    requires IsSqrt(sqrt) && PositivePivots(A, sqrt, lo, hi) && lo <= j <= i < hi
    ensures var L := CholMatrix(A, sqrt, lo); Dot(L, Transposed(L), i, j, lo, hi) == A(i, j)
  {
    var L := CholMatrix(A, sqrt, lo);
    DotSplit(L, Transposed(L), i, j, lo, j, hi);
    TailIsRest(A, sqrt, lo, hi, i, j);
    RestMore(A, sqrt, L, lo, lo, j, i, j);
  }

  // ----- Uniqueness -----

  /** A lower triangular matrix with positive diagonal whose product with its transpose has the lower triangle `A`. */
  ghost predicate CholFactorization(A: Matrix, L: Matrix, lo: int, hi: int) {
    && (forall i, j | lo <= i < j < hi :: L(i, j) == 0.0)
    && (forall p | lo <= p < hi :: 0.0 < L(p, p))
    && (forall i, j | lo <= j <= i < hi :: Dot(L, Transposed(L), i, j, lo, hi) == A(i, j))
  }

  lemma {:induction false} RestIsRemainder(A: Matrix, sqrt: real -> real, L: Matrix, lo: int, hi: int, p: int, i: int,
                                           j: int)
    requires IsSqrt(sqrt) && CholFactorization(A, L, lo, hi) && lo <= p <= j <= i < hi
    ensures Rest(A, sqrt, lo, p, i, j) == Dot(L, Transposed(L), i, j, p, hi)
    decreases p - lo, 0, 0
  {
    if lo < p {
      RestIsRemainder(A, sqrt, L, lo, hi, p - 1, i, j);
      CholIsUnique(A, sqrt, L, lo, hi, i, p - 1);
      CholIsUnique(A, sqrt, L, lo, hi, j, p - 1);
      DotFirst(L, Transposed(L), i, j, p - 1, hi, Chol(A, sqrt, lo, i, p - 1), Chol(A, sqrt, lo, j, p - 1));
    }
  }

  lemma ProductPositive(a: real, b: real, s: real)
    requires 0.0 < a && 0.0 < b && s == a * b
    ensures 0.0 < s
  {
  }

  lemma RootIsUnique(sqrt: real -> real, s: real, x: real)
    requires IsSqrt(sqrt) && IsRootOf(s, x)
    ensures 0.0 < x && sqrt(x) == s
  {
    ProductPositive(s, s, x);
    var r := sqrt(x);
    assert IsRootOf(r, x);
    assert (s - r) * (s + r) == 0.0;
  }

  /** Uniqueness: any such factor is the one that is computed, and its pivots are positive. */
  lemma {:induction false} CholIsUnique(A: Matrix, sqrt: real -> real, L: Matrix, lo: int, hi: int, i: int, j: int)
    requires IsSqrt(sqrt) && CholFactorization(A, L, lo, hi) && lo <= j <= i < hi
    ensures Chol(A, sqrt, lo, i, j) == L(i, j)
    ensures 0.0 < Rest(A, sqrt, lo, j, j, j)
    decreases j - lo, 1, i - j
  {
    RestIsRemainder(A, sqrt, L, lo, hi, j, i, j);
    LeadingTermT(L, lo, hi, i, j, L(i, j), L(j, j));
    if i == j {
      RootIsUnique(sqrt, L(j, j), Rest(A, sqrt, lo, j, j, j));
    } else {
      CholIsUnique(A, sqrt, L, lo, hi, j, j);
      QuotientIs(Rest(A, sqrt, lo, j, i, j), L(i, j), L(j, j));
    }
  }

  /** The pivots are positive exactly when such a factor exists. */
  lemma PositivePivotsIffFactorization(A: Matrix, sqrt: real -> real, lo: int, hi: int)
    requires IsSqrt(sqrt)
    ensures PositivePivots(A, sqrt, lo, hi) <==> exists L :: CholFactorization(A, L, lo, hi)
  {
    if PositivePivots(A, sqrt, lo, hi) {
      var L := CholMatrix(A, sqrt, lo);
      forall i, j | lo <= j <= i < hi ensures Dot(L, Transposed(L), i, j, lo, hi) == A(i, j) {
        CholReproduces(A, sqrt, lo, hi, i, j);
      }
      forall p | lo <= p < hi ensures 0.0 < L(p, p) { PivotRoot(A, sqrt, lo, p); }
      assert CholFactorization(A, L, lo, hi);
    }
    if L :| CholFactorization(A, L, lo, hi) {
      forall p | lo <= p < hi ensures 0.0 < Rest(A, sqrt, lo, p, p, p) { CholIsUnique(A, sqrt, L, lo, hi, p, p); }
    }
  }
}
