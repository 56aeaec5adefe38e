/** Positive definiteness of a symmetric matrix given by its lower triangle, and the theorem that
    it holds exactly when every pivot of the Cholesky factorization is positive. */
module Definiteness {
  import opened Matrices
  import opened LUFactors
  import opened CholFactors

  /** The symmetric matrix with lower triangle `A`. */
  ghost function Symmetric(A: Matrix): Matrix { (i: int, j: int) => if i >= j then A(i, j) else A(j, i) }

  /** The rows `i0 <= i < hi` of the quadratic form `x' * M * x`, over the columns `lo <= j < hi`. */
  ghost function Quadratic(M: Matrix, x: Vector, i0: int, lo: int, hi: int): real
    decreases hi - i0
  {
    if hi <= i0 then 0.0 else x(i0) * RowTimes(M, x, i0, lo, hi) + Quadratic(M, x, i0 + 1, lo, hi)
  }

  /** `x' * A * x > 0` for every vector that is not zero. */
  ghost predicate PositiveDefinite(A: Matrix, lo: int, hi: int) {
    forall x: Vector | NonzeroOn(x, lo, hi) :: 0.0 < Quadratic(Symmetric(A), x, lo, lo, hi)
  }

  // ----- The form by columns of the lower triangle -----

  /** Column `c` below the diagonal times `x`. */
  ghost function ColumnTimes(A: Matrix, x: Vector, c: int, lo: int, hi: int): real
    decreases hi - lo
  {
    if hi <= lo then 0.0 else A(lo, c) * x(lo) + ColumnTimes(A, x, c, lo + 1, hi)
  }

  ghost function Form(A: Matrix, x: Vector, lo: int, hi: int): real
    decreases hi - lo
  {
    if hi <= lo then 0.0
    else Head(A(lo, lo), x(lo), ColumnTimes(A, x, lo, lo + 1, hi)) + Form(A, x, lo + 1, hi)
  }

  /** The terms of the form that contain the first unknown. */
  function Head(d: real, x: real, t: real): real { d * x * x + 2.0 * x * t }

  lemma {:induction false} RowIsColumn(A: Matrix, x: Vector, c: int, lo: int, hi: int)
    requires c < lo
    ensures RowTimes(Symmetric(A), x, c, lo, hi) == ColumnTimes(A, x, c, lo, hi)
    decreases hi - lo
  {
    if lo < hi { RowIsColumn(A, x, c, lo + 1, hi); }
  }

  /** Adding column `lo` to the rows of the form below it. */
  lemma {:induction false} AddColumn(M: Matrix, A: Matrix, x: Vector, i0: int, lo: int, hi: int)
    requires lo < i0 && lo < hi && forall i | i0 <= i < hi :: M(i, lo) == A(i, lo)
    ensures Quadratic(M, x, i0, lo, hi) == Quadratic(M, x, i0, lo + 1, hi) + x(lo) * ColumnTimes(A, x, lo, i0, hi)
    decreases hi - i0
  {
    if i0 < hi {
      AddColumn(M, A, x, i0 + 1, lo, hi);
      AddColumnStep(x(i0), M(i0, lo), x(lo), RowTimes(M, x, i0, lo, hi), RowTimes(M, x, i0, lo + 1, hi),
                    ColumnTimes(A, x, lo, i0, hi), ColumnTimes(A, x, lo, i0 + 1, hi),
                    Quadratic(M, x, i0 + 1, lo, hi), Quadratic(M, x, i0 + 1, lo + 1, hi));
    }
  }

  lemma AddColumnStep(xi: real, a: real, xl: real, row: real, row': real, column: real, column': real, form: real,
                      form': real)
    requires row == a * xl + row' && column == a * xi + column' && form == form' + xl * column'
    ensures xi * row + form == xi * row' + form' + xl * column
  {
    assert xi * row == xi * (a * xl) + xi * row' && xl * column == xl * (a * xi) + xl * column';
  }

  /** The two ways of writing the quadratic form agree. */
  lemma {:induction false} FormIsQuadratic(A: Matrix, x: Vector, lo: int, hi: int)
    ensures Form(A, x, lo, hi) == Quadratic(Symmetric(A), x, lo, lo, hi)
    decreases hi - lo
  {
    if lo < hi {
      FormIsQuadratic(A, x, lo + 1, hi);
      AddColumn(Symmetric(A), A, x, lo + 1, lo, hi);
      RowIsColumn(A, x, lo, lo + 1, hi);
      HeadSplits(A(lo, lo), x(lo), ColumnTimes(A, x, lo, lo + 1, hi));
    }
  }

  lemma HeadSplits(d: real, x: real, t: real)
    ensures Head(d, x, t) == x * (d * x + t) + x * t
  {
  }

  // ----- One step: completing the square -----

  /** The remainder as a matrix. */
  ghost function RestMatrix(A: Matrix, sqrt: real -> real, lo: int, p: int): Matrix
    requires lo <= p
  {
    (i: int, j: int) => if p <= j <= i then Rest(A, sqrt, lo, p, i, j) else 0.0
  }

  /** `B` is `A` minus the outer product of `v` with itself, at one entry. */
  ghost predicate LessOuter(B: Matrix, A: Matrix, v: Vector, i: int, j: int) { B(i, j) == A(i, j) - v(i) * v(j) }

  ghost function Inner(v: Vector, x: Vector, lo: int, hi: int): real
    decreases hi - lo
  {
    if hi <= lo then 0.0 else v(lo) * x(lo) + Inner(v, x, lo + 1, hi)
  }

  lemma {:induction false} ColumnLessOuter(A: Matrix, B: Matrix, v: Vector, x: Vector, c: int, lo: int, hi: int)
    requires forall i | lo <= i < hi :: LessOuter(B, A, v, i, c)
    ensures ColumnTimes(B, x, c, lo, hi) == ColumnTimes(A, x, c, lo, hi) - v(c) * Inner(v, x, lo, hi)
    decreases hi - lo
  {
    if lo < hi {
      assert LessOuter(B, A, v, lo, c);
      ColumnLessOuter(A, B, v, x, c, lo + 1, hi);
      ColumnStep(A(lo, c), B(lo, c), v(lo), v(c), x(lo), Inner(v, x, lo + 1, hi));
    }
  }

  lemma ColumnStep(a: real, b: real, vl: real, vc: real, x: real, t: real)
    requires b == a - vl * vc
    ensures b * x - vc * t == a * x - vc * (vl * x + t)
  {
  }

  /** Taking an outer product from the matrix takes a square from the form. */
  lemma {:induction false} FormLessOuter(A: Matrix, B: Matrix, v: Vector, x: Vector, lo: int, hi: int)
    requires forall i, j | lo <= j <= i < hi :: LessOuter(B, A, v, i, j)
    ensures Form(B, x, lo, hi) == Form(A, x, lo, hi) - Inner(v, x, lo, hi) * Inner(v, x, lo, hi)
    decreases hi - lo
  {
    if lo < hi {
      FormLessOuter(A, B, v, x, lo + 1, hi);
      ColumnLessOuter(A, B, v, x, lo, lo + 1, hi);
      assert LessOuter(B, A, v, lo, lo);
      SquareStep(A(lo, lo), B(lo, lo), v(lo), x(lo), ColumnTimes(A, x, lo, lo + 1, hi), Inner(v, x, lo + 1, hi));
    }
  }

  lemma SquareStep(a: real, b: real, v: real, x: real, t: real, u: real)
    requires b == a - v * v
    ensures Head(b, x, t - v * u) - u * u == Head(a, x, t) - (v * x + u) * (v * x + u)
  {
    assert b * x * x == a * x * x - v * v * x * x;
    assert (v * x + u) * (v * x + u) == v * v * x * x + 2.0 * x * (v * u) + u * u;
  }

  ghost predicate Multiple(A: Matrix, v: Vector, r: real, i: int, c: int) { v(i) * r == A(i, c) }

  /** The multiples `v = column / r` of a column, summed against `x`. */
  lemma {:induction false} InnerScaled(A: Matrix, v: Vector, r: real, x: Vector, c: int, lo: int, hi: int)
    requires forall i | lo <= i < hi :: Multiple(A, v, r, i, c)
    ensures Inner(v, x, lo, hi) * r == ColumnTimes(A, x, c, lo, hi)
    decreases hi - lo
  {
    if lo < hi {
      assert Multiple(A, v, r, lo, c);
      InnerScaled(A, v, r, x, c, lo + 1, hi);
      InnerStep(v(lo), x(lo), r, A(lo, c), Inner(v, x, lo + 1, hi));
    }
  }

  lemma InnerStep(v: real, x: real, r: real, a: real, u: real)
    requires v * r == a
    ensures (v * x + u) * r == a * x + u * r
  {
    assert (v * x + u) * r == v * r * x + u * r;
  }

  /** Column `p` of the factor as a vector. */
  ghost function FactorColumn(A: Matrix, sqrt: real -> real, lo: int, p: int): Vector
    requires lo <= p
  {
    i => if p <= i then Chol(A, sqrt, lo, i, p) else 0.0
  }

  /** The square that one step splits off: `r` is the root of the pivot, `u` what the other unknowns contribute. */
  function SquareTerm(r: real, x: real, u: real): real { (r * x + u) * (r * x + u) }

  lemma SquarePositive(w: real, s: real)
    requires w != 0.0 && s == w * w
    ensures 0.0 < s
  {
    if 0.0 < w { ProductPositive(w, w, s); } else { ProductPositive(-w, -w, s); }
  }

  lemma NonzeroTerm(r: real, x: real)
    requires r != 0.0 && x != 0.0
    ensures 0.0 < SquareTerm(r, x, 0.0)
  {
    var w := r * x;
    assert w != 0.0;
    SquarePositive(w, SquareTerm(r, x, 0.0));
  }

  lemma SquareTermSign(r: real, x: real, u: real)
    ensures 0.0 <= SquareTerm(r, x, u)
    ensures r * x + u == 0.0 ==> SquareTerm(r, x, u) == 0.0
    ensures r != 0.0 && x != 0.0 && u == 0.0 ==> 0.0 < SquareTerm(r, x, u)
  {
    var w := r * x + u;
    assert SquareTerm(r, x, u) == w * w >= 0.0;
    if r != 0.0 && x != 0.0 && u == 0.0 { NonzeroTerm(r, x); }
  }

  lemma CompleteSquare(form: real, rest: real, rest': real, d: real, r: real, x: real, t: real, u: real)
    requires form == Head(d, x, t) + rest && rest' == rest - u * u && r * r == d && u * r == t
    ensures form == SquareTerm(r, x, u) + rest'
  {
    assert (r * x + u) * (r * x + u) == r * r * x * x + 2.0 * x * (u * r) + u * u;
  }

  /** Splitting off the square of the first unknown: `v` is the first column divided by the root of its pivot. */
  lemma SplitSquare(X: Matrix, X': Matrix, v: Vector, r: real, x: Vector, p: int, hi: int)
    requires p < hi && IsRootOf(r, X(p, p))
    requires forall i | p + 1 <= i < hi :: Multiple(X, v, r, i, p)
    requires forall i, j | p + 1 <= j <= i < hi :: LessOuter(X', X, v, i, j)
    ensures Form(X, x, p, hi) == SquareTerm(r, x(p), Inner(v, x, p + 1, hi)) + Form(X', x, p + 1, hi)
  {
    FormLessOuter(X, X', v, x, p + 1, hi);
    InnerScaled(X, v, r, x, p, p + 1, hi);
    CompleteSquare(Form(X, x, p, hi), Form(X, x, p + 1, hi), Form(X', x, p + 1, hi),
                   X(p, p), r, x(p), ColumnTimes(X, x, p, p + 1, hi), Inner(v, x, p + 1, hi));
  }

  lemma RestStep(A: Matrix, sqrt: real -> real, lo: int, p: int, i: int, j: int)
    requires lo <= p < j <= i
    ensures LessOuter(RestMatrix(A, sqrt, lo, p + 1), RestMatrix(A, sqrt, lo, p), FactorColumn(A, sqrt, lo, p), i, j)
  {
    assert Rest(A, sqrt, lo, p + 1, i, j)
        == Rest(A, sqrt, lo, p, i, j) - Chol(A, sqrt, lo, i, p) * Chol(A, sqrt, lo, j, p);
  }

  lemma ColumnMultiple(A: Matrix, sqrt: real -> real, lo: int, p: int, i: int)
    requires IsSqrt(sqrt) && lo <= p < i && 0.0 < Rest(A, sqrt, lo, p, p, p)
    ensures Multiple(RestMatrix(A, sqrt, lo, p), FactorColumn(A, sqrt, lo, p), Chol(A, sqrt, lo, p, p), i, p)
  {
    ProductWithPivot(A, sqrt, lo, i, p);
  }

  lemma RestSteps(A: Matrix, sqrt: real -> real, lo: int, p: int, hi: int)
    requires lo <= p
    ensures var X', X, v := RestMatrix(A, sqrt, lo, p + 1), RestMatrix(A, sqrt, lo, p), FactorColumn(A, sqrt, lo, p);
            forall i, j | p + 1 <= j <= i < hi :: LessOuter(X', X, v, i, j)
  {
    var X', X, v := RestMatrix(A, sqrt, lo, p + 1), RestMatrix(A, sqrt, lo, p), FactorColumn(A, sqrt, lo, p);
    forall i, j | p + 1 <= j <= i < hi ensures LessOuter(X', X, v, i, j) { RestStep(A, sqrt, lo, p, i, j); }
  }

  lemma ColumnMultiples(A: Matrix, sqrt: real -> real, lo: int, p: int, hi: int)
    requires IsSqrt(sqrt) && lo <= p && 0.0 < Rest(A, sqrt, lo, p, p, p)
    ensures var X, v, r := RestMatrix(A, sqrt, lo, p), FactorColumn(A, sqrt, lo, p), Chol(A, sqrt, lo, p, p);
            forall i | p + 1 <= i < hi :: Multiple(X, v, r, i, p)
  {
    var X, v, r := RestMatrix(A, sqrt, lo, p), FactorColumn(A, sqrt, lo, p), Chol(A, sqrt, lo, p, p);
    forall i | p + 1 <= i < hi ensures Multiple(X, v, r, i, p) { ColumnMultiple(A, sqrt, lo, p, i); }
  }

  /** One step of the factorization splits a square off the form. */
  lemma FormStep(A: Matrix, sqrt: real -> real, lo: int, hi: int, p: int, x: Vector)
    requires IsSqrt(sqrt) && lo <= p < hi && 0.0 < Rest(A, sqrt, lo, p, p, p)
    ensures Form(RestMatrix(A, sqrt, lo, p), x, p, hi)
         == SquareTerm(Chol(A, sqrt, lo, p, p), x(p), Inner(FactorColumn(A, sqrt, lo, p), x, p + 1, hi))
          + Form(RestMatrix(A, sqrt, lo, p + 1), x, p + 1, hi)
  {
    var X, X', v := RestMatrix(A, sqrt, lo, p), RestMatrix(A, sqrt, lo, p + 1), FactorColumn(A, sqrt, lo, p);
    var r := Chol(A, sqrt, lo, p, p);
    PivotRoot(A, sqrt, lo, p);
    RestSteps(A, sqrt, lo, p, hi);
    ColumnMultiples(A, sqrt, lo, p, hi);
    SplitSquare(X, X', v, r, x, p, hi);
  }

  // ----- The theorem -----

  ghost predicate FormPositive(X: Matrix, lo: int, hi: int) {
    forall x: Vector | NonzeroOn(x, lo, hi) :: 0.0 < Form(X, x, lo, hi)
  }

  lemma {:induction false} ColumnLocal(A: Matrix, x: Vector, y: Vector, c: int, lo: int, hi: int)
    requires forall i | lo <= i < hi :: x(i) == y(i)
    ensures ColumnTimes(A, x, c, lo, hi) == ColumnTimes(A, y, c, lo, hi)
    decreases hi - lo
  {
    if lo < hi { ColumnLocal(A, x, y, c, lo + 1, hi); }
  }

  lemma {:induction false} InnerLocal(v: Vector, x: Vector, y: Vector, lo: int, hi: int)
    requires forall i | lo <= i < hi :: x(i) == y(i)
    ensures Inner(v, x, lo, hi) == Inner(v, y, lo, hi)
    decreases hi - lo
  {
    if lo < hi { InnerLocal(v, x, y, lo + 1, hi); }
  }

  lemma {:induction false} FormLocal(A: Matrix, x: Vector, y: Vector, lo: int, hi: int)
    requires forall i | lo <= i < hi :: x(i) == y(i)
    ensures Form(A, x, lo, hi) == Form(A, y, lo, hi)
    decreases hi - lo
  {
    if lo < hi {
      FormLocal(A, x, y, lo + 1, hi);
      ColumnLocal(A, x, y, lo, lo + 1, hi);
    }
  }

  lemma {:induction false} ZeroVector(A: Matrix, v: Vector, x: Vector, c: int, lo: int, hi: int)
    requires forall i | lo <= i < hi :: x(i) == 0.0
    ensures ColumnTimes(A, x, c, lo, hi) == 0.0 && Inner(v, x, lo, hi) == 0.0 && Form(A, x, lo, hi) == 0.0
    decreases hi - lo
  {
    if lo < hi {
      ZeroVector(A, v, x, c, lo + 1, hi);
      ZeroVector(A, v, x, lo, lo + 1, hi);
      assert Head(A(lo, lo), 0.0, 0.0) == 0.0;
    }
  }

  /** The first entry of a positive form is positive: take the first unit vector. */
  lemma FirstPivot(X: Matrix, p: int, hi: int)
    requires p < hi && FormPositive(X, p, hi)
    ensures 0.0 < X(p, p)
  {
    var x: Vector := i => if i == p then 1.0 else 0.0;
    assert x(p) != 0.0;
    assert NonzeroOn(x, p, hi);
    ZeroVector(X, x, x, p, p + 1, hi);
    assert Form(X, x, p, hi) == Head(X(p, p), 1.0, 0.0) == X(p, p);
  }

  /** The first unknown can be chosen so that the square vanishes. */
  lemma VanishingSquare(A: Matrix, sqrt: real -> real, lo: int, hi: int, p: int, x: Vector) returns (y: Vector)
    requires IsSqrt(sqrt) && lo <= p < hi && 0.0 < Rest(A, sqrt, lo, p, p, p)
    ensures forall i | p < i < hi :: y(i) == x(i)
    ensures Form(RestMatrix(A, sqrt, lo, p), y, p, hi) == Form(RestMatrix(A, sqrt, lo, p + 1), x, p + 1, hi)
  {
    PivotRoot(A, sqrt, lo, p);
    var v, r := FactorColumn(A, sqrt, lo, p), Chol(A, sqrt, lo, p, p);
    var u := Inner(v, x, p + 1, hi);
    QuotientCancels(-u, r);
    var first := Quotient(-u, r);
    y := i => if i == p then first else x(i);
    InnerLocal(v, x, y, p + 1, hi);
    FormLocal(RestMatrix(A, sqrt, lo, p + 1), x, y, p + 1, hi);
    FormStep(A, sqrt, lo, hi, p, y);
    assert r * first == -u;
    SquareTermSign(r, first, u);
  }

  /** What is left of a positive form is positive. */
  lemma NextIsPositive(A: Matrix, sqrt: real -> real, lo: int, hi: int, p: int)
    requires IsSqrt(sqrt) && lo <= p < hi && FormPositive(RestMatrix(A, sqrt, lo, p), p, hi)
    requires 0.0 < Rest(A, sqrt, lo, p, p, p)
    ensures FormPositive(RestMatrix(A, sqrt, lo, p + 1), p + 1, hi)
  {
    var X', next := RestMatrix(A, sqrt, lo, p + 1), p + 1;
    forall x: Vector | NonzeroOn(x, next, hi) ensures 0.0 < Form(X', x, next, hi) {
      var y := VanishingSquare(A, sqrt, lo, hi, p, x);
      var q :| p + 1 <= q < hi && x(q) != 0.0;
      assert y(q) != 0.0 && NonzeroOn(y, p, hi);
      assert 0.0 < Form(RestMatrix(A, sqrt, lo, p), y, p, hi);
    }
  }

  /** A positive pivot and a positive remainder make a positive form. */
  lemma PreviousIsPositive(A: Matrix, sqrt: real -> real, lo: int, hi: int, p: int)
    requires IsSqrt(sqrt) && lo <= p < hi && FormPositive(RestMatrix(A, sqrt, lo, p + 1), p + 1, hi)
    requires 0.0 < Rest(A, sqrt, lo, p, p, p)
    ensures FormPositive(RestMatrix(A, sqrt, lo, p), p, hi)
  {
    PivotRoot(A, sqrt, lo, p);
    var X, X', v := RestMatrix(A, sqrt, lo, p), RestMatrix(A, sqrt, lo, p + 1), FactorColumn(A, sqrt, lo, p);
    var r := Chol(A, sqrt, lo, p, p);
    forall x: Vector | NonzeroOn(x, p, hi) ensures 0.0 < Form(X, x, p, hi) {
      FormStep(A, sqrt, lo, hi, p, x);
      SquareTermSign(r, x(p), Inner(v, x, p + 1, hi));
      if !NonzeroOn(x, p + 1, hi) {
        ZeroVector(X', v, x, p, p + 1, hi);
        assert x(p) != 0.0;
      }
    }
  }

  lemma {:induction false} PivotsFromForm(A: Matrix, sqrt: real -> real, lo: int, hi: int, p: int)
    requires IsSqrt(sqrt) && lo <= p <= hi && FormPositive(RestMatrix(A, sqrt, lo, p), p, hi)
    ensures forall q | p <= q < hi :: 0.0 < Rest(A, sqrt, lo, q, q, q)
    decreases hi - p
  {
    if p < hi {
      FirstPivot(RestMatrix(A, sqrt, lo, p), p, hi);
      NextIsPositive(A, sqrt, lo, hi, p);
      PivotsFromForm(A, sqrt, lo, hi, p + 1);
    }
  }

  lemma {:induction false} FormFromPivots(A: Matrix, sqrt: real -> real, lo: int, hi: int, p: int)
    requires IsSqrt(sqrt) && lo <= p <= hi && forall q | p <= q < hi :: 0.0 < Rest(A, sqrt, lo, q, q, q)
    ensures FormPositive(RestMatrix(A, sqrt, lo, p), p, hi)
    decreases hi - p
  {
    if p < hi {
      FormFromPivots(A, sqrt, lo, hi, p + 1);
      PreviousIsPositive(A, sqrt, lo, hi, p);
    }
  }

  lemma {:induction false} FormSame(A: Matrix, B: Matrix, x: Vector, lo: int, hi: int)
    requires forall i, j | lo <= j <= i < hi :: A(i, j) == B(i, j)
    ensures Form(A, x, lo, hi) == Form(B, x, lo, hi)
    decreases hi - lo
  {
    if lo < hi {
      FormSame(A, B, x, lo + 1, hi);
      ColumnSame(A, B, x, lo, lo + 1, hi);
    }
  }

  lemma {:induction false} ColumnSame(A: Matrix, B: Matrix, x: Vector, c: int, lo: int, hi: int)
    requires forall i | lo <= i < hi :: A(i, c) == B(i, c)
    ensures ColumnTimes(A, x, c, lo, hi) == ColumnTimes(B, x, c, lo, hi)
    decreases hi - lo
  {
    if lo < hi { ColumnSame(A, B, x, c, lo + 1, hi); }
  }

  /** A matrix is positive definite exactly when the factorization meets positive pivots only. */
  lemma PositiveDefiniteIffPivots(A: Matrix, sqrt: real -> real, lo: int, hi: int)
    requires IsSqrt(sqrt) && lo <= hi
    ensures PositiveDefinite(A, lo, hi) <==> PositivePivots(A, sqrt, lo, hi)
  {
    var X := RestMatrix(A, sqrt, lo, lo);
    forall x: Vector ensures Form(X, x, lo, hi) == Quadratic(Symmetric(A), x, lo, lo, hi) {
      FormSame(X, A, x, lo, hi);
      FormIsQuadratic(A, x, lo, hi);
    }
    if PositiveDefinite(A, lo, hi) {
      assert FormPositive(X, lo, hi);
      PivotsFromForm(A, sqrt, lo, hi, lo);
    }
    if PositivePivots(A, sqrt, lo, hi) {
      FormFromPivots(A, sqrt, lo, hi, lo);
    }
  }

  /** A diagonal block of a remainder is positive definite exactly when its pivots are positive too. */
  lemma BlockPositiveDefinite(A: Matrix, B: Matrix, sqrt: real -> real, lo: int, k: int, n: int)
    requires IsSqrt(sqrt) && lo <= k <= n && PositivePivots(A, sqrt, lo, k)
    requires forall i, j | k <= j <= i < n :: B(i, j) == Rest(A, sqrt, lo, k, i, j)
    ensures PositiveDefinite(B, k, n) <==> PositivePivots(A, sqrt, lo, n)
    ensures forall i, j | k <= j <= i < n :: Chol(B, sqrt, k, i, j) == Chol(A, sqrt, lo, i, j)
  {
    PositiveDefiniteIffPivots(B, sqrt, k, n);
    if PositivePivots(B, sqrt, k, n) {
      forall p | lo <= p < n ensures 0.0 < Rest(A, sqrt, lo, p, p, p) {
        if k <= p { RestOfRest(A, B, sqrt, lo, k, n, p, p, p); }
      }
    }
    if PositivePivots(A, sqrt, lo, n) {
      forall p | k <= p < n ensures 0.0 < Rest(B, sqrt, k, p, p, p) { RestOfRest(A, B, sqrt, lo, k, n, p, p, p); }
    }
    forall i, j | k <= j <= i < n ensures Chol(B, sqrt, k, i, j) == Chol(A, sqrt, lo, i, j) {
      CholOfRest(A, B, sqrt, lo, k, n, i, j);
    }
  }
}
