/** When the last pivot of an elimination is zero: exactly when the matrix maps some vector other than
    zero to zero. */
module Singular {
  import opened Matrices
  import opened LUFactors

  /** `A * x == 0`, over the indices `lo` to `hi`. */
  ghost predicate MapsToZero(A: Matrix, x: Vector, lo: int, hi: int) {
    forall i | lo <= i < hi :: RowTimes(A, x, i, lo, hi) == 0.0
  }

  ghost predicate IsSingular(A: Matrix, lo: int, hi: int) {
    exists x: Vector :: NonzeroOn(x, lo, hi) && MapsToZero(A, x, lo, hi)
  }

  // ----- One step of elimination -----

  ghost predicate LessMultiple(X': Matrix, X: Matrix, m: real, i: int, p: int, j: int) {
    X'(i, j) == X(i, j) - m * X(p, j)
  }

  ghost predicate Multiplier(X: Matrix, m: Vector, p: int, i: int) { m(i) * X(p, p) == X(i, p) }

  /** `X'` is `X` after row `p`, whose pivot is not zero, has been eliminated from the rows below it. */
  ghost predicate Eliminated(X: Matrix, X': Matrix, m: Vector, p: int, hi: int) {
    && X(p, p) != 0.0
    && (forall i | p < i < hi :: Multiplier(X, m, p, i))
    && (forall i, j | p < i < hi && p < j < hi :: LessMultiple(X', X, m(i), i, p, j))
  }

  lemma {:induction false} RowLessMultiple(X: Matrix, X': Matrix, m: real, x: Vector, i: int, p: int, lo: int, hi: int)
    requires forall j | lo <= j < hi :: LessMultiple(X', X, m, i, p, j)
    ensures RowTimes(X', x, i, lo, hi) == RowTimes(X, x, i, lo, hi) - m * RowTimes(X, x, p, lo, hi)
    decreases hi - lo
  {
    if lo < hi {
      assert LessMultiple(X', X, m, i, p, lo);
      RowLessMultiple(X, X', m, x, i, p, lo + 1, hi);
      TermLessMultiple(X'(i, lo), X(i, lo), m, X(p, lo), x(lo), RowTimes(X, x, p, lo + 1, hi));
    }
  }

  lemma TermLessMultiple(a': real, a: real, m: real, b: real, x: real, t: real)
    requires a' == a - m * b
    ensures a' * x - m * t == a * x - m * (b * x + t)
  {
  }

  /** Row `i` and the pivot row before a step, and row `i` after it, are zero together. */
  lemma RowsBalance(a: real, d: real, m: real, x: real, ri: real, rp: real)
    requires m * d == a && d * x + rp == 0.0
    ensures a * x + ri == 0.0 <==> ri - m * rp == 0.0
  {
    assert a * x + ri == m * (d * x + rp) + (ri - m * rp);
  }

  lemma StepMapsRow(X: Matrix, X': Matrix, m: Vector, p: int, next: int, hi: int, x: Vector, i: int)
    requires next == p + 1 && p < i < hi && Eliminated(X, X', m, p, hi) && RowTimes(X, x, p, p, hi) == 0.0
    ensures RowTimes(X, x, i, p, hi) == 0.0 <==> RowTimes(X', x, i, next, hi) == 0.0
  {
    assert Multiplier(X, m, p, i);
    RowLessMultiple(X, X', m(i), x, i, p, next, hi);
    RowsBalance(X(i, p), X(p, p), m(i), x(p), RowTimes(X, x, i, next, hi), RowTimes(X, x, p, next, hi));
  }

  lemma StepMapsToZero(X: Matrix, X': Matrix, m: Vector, p: int, next: int, hi: int, x: Vector)
    requires next == p + 1 && p < hi && Eliminated(X, X', m, p, hi) && RowTimes(X, x, p, p, hi) == 0.0
    ensures MapsToZero(X, x, p, hi) <==> MapsToZero(X', x, next, hi)
  {
    if MapsToZero(X, x, p, hi) {
      forall i | next <= i < hi ensures RowTimes(X', x, i, next, hi) == 0.0 {
        assert RowTimes(X, x, i, p, hi) == 0.0;
        StepMapsRow(X, X', m, p, next, hi, x, i);
      }
    }
    if MapsToZero(X', x, next, hi) {
      forall i | p <= i < hi ensures RowTimes(X, x, i, p, hi) == 0.0 {
        if p < i {
          assert RowTimes(X', x, i, next, hi) == 0.0;
          StepMapsRow(X, X', m, p, next, hi, x, i);
        }
      }
    }
  }

  lemma {:induction false} RowLocal(X: Matrix, X': Matrix, x: Vector, x': Vector, i: int, lo: int, hi: int)
    requires forall j | lo <= j < hi :: X(i, j) == X'(i, j) && x(j) == x'(j)
    ensures RowTimes(X, x, i, lo, hi) == RowTimes(X', x', i, lo, hi)
    decreases hi - lo
  {
    if lo < hi { RowLocal(X, X', x, x', i, lo + 1, hi); }
  }

  lemma {:induction false} ZeroRow(X: Matrix, x: Vector, i: int, lo: int, hi: int)
    requires forall j | lo <= j < hi :: x(j) == 0.0
    ensures RowTimes(X, x, i, lo, hi) == 0.0
    decreases hi - lo
  {
    if lo < hi { ZeroRow(X, x, i, lo + 1, hi); }
  }

  /** Going on: a vector that a step's matrix maps to zero is mapped to zero by the next one. */
  lemma NextSingular(X: Matrix, X': Matrix, m: Vector, p: int, hi: int)
    requires p < hi && Eliminated(X, X', m, p, hi) && IsSingular(X, p, hi)
    ensures IsSingular(X', p + 1, hi)
  {
    var x: Vector :| NonzeroOn(x, p, hi) && MapsToZero(X, x, p, hi);
    assert RowTimes(X, x, p, p, hi) == 0.0;
    StepMapsToZero(X, X', m, p, p + 1, hi, x);
    if !NonzeroOn(x, p + 1, hi) {
      ZeroRow(X, x, p, p + 1, hi);
      NonzeroProduct(X(p, p), x(p));
    }
  }

  lemma NonzeroProduct(d: real, x: real)
    requires d != 0.0 && d * x == 0.0
    ensures x == 0.0
  {
  }

  /** Going back: the pivot's unknown can be chosen so that the pivot row is zero. */
  lemma PreviousSingular(X: Matrix, X': Matrix, m: Vector, p: int, hi: int)
    requires p < hi && Eliminated(X, X', m, p, hi) && IsSingular(X', p + 1, hi)
    ensures IsSingular(X, p, hi)
  {
    var x: Vector :| NonzeroOn(x, p + 1, hi) && MapsToZero(X', x, p + 1, hi);
    var r := RowTimes(X, x, p, p + 1, hi);
    QuotientCancels(-r, X(p, p));
    var first := Quotient(-r, X(p, p));
    var y: Vector := i => if i == p then first else x(i);
    RowLocal(X, X, x, y, p, p + 1, hi);
    assert RowTimes(X, y, p, p, hi) == X(p, p) * first + r;
    var next := p + 1;
    forall i | next <= i < hi ensures RowTimes(X', y, i, next, hi) == 0.0 {
      assert RowTimes(X', x, i, next, hi) == 0.0;
      RowLocal(X', X', x, y, i, next, hi);
    }
    StepMapsToZero(X, X', m, p, next, hi, y);
    var q :| p + 1 <= q < hi && x(q) != 0.0;
    assert y(q) != 0.0;
  }

  // ----- The whole elimination -----

  ghost function Multipliers(A: Matrix, lo: int, p: int): Vector
    requires lo <= p
  {
    i => if p < i then Factor(A, lo, i, p) else 0.0
  }

  lemma StepEliminates(A: Matrix, lo: int, p: int, hi: int)
    requires lo <= p < hi && Schur(A, lo, p, p, p) != 0.0
    ensures Eliminated(Trailing(A, lo, p), Trailing(A, lo, p + 1), Multipliers(A, lo, p), p, hi)
  {
    var X, X', m := Trailing(A, lo, p), Trailing(A, lo, p + 1), Multipliers(A, lo, p);
    forall i | p < i < hi ensures Multiplier(X, m, p, i) {
      QuotientCancels(Schur(A, lo, p, i, p), Schur(A, lo, p, p, p));
    }
    forall i, j | p < i < hi && p < j < hi ensures LessMultiple(X', X, m(i), i, p, j) {
      assert Schur(A, lo, p + 1, i, j) == Schur(A, lo, p, i, j) - Factor(A, lo, i, p) * Factor(A, lo, p, j);
      assert Factor(A, lo, p, j) == Schur(A, lo, p, p, j);
    }
  }

  lemma OneByOne(X: Matrix, p: int)
    ensures IsSingular(X, p, p + 1) <==> X(p, p) == 0.0
  {
    if IsSingular(X, p, p + 1) {
      var x: Vector :| NonzeroOn(x, p, p + 1) && MapsToZero(X, x, p, p + 1);
      assert RowTimes(X, x, p, p, p + 1) == X(p, p) * x(p) + 0.0;
      if X(p, p) != 0.0 { NonzeroProduct(X(p, p), x(p)); }
    }
    if X(p, p) == 0.0 {
      var x: Vector := i => 1.0;
      assert x(p) != 0.0;
      assert RowTimes(X, x, p, p, p + 1) == X(p, p) * x(p) + 0.0;
      assert NonzeroOn(x, p, p + 1) && MapsToZero(X, x, p, p + 1);
    }
  }

  lemma {:induction false} TrailingSingular(A: Matrix, lo: int, hi: int, p: int)
    requires lo <= p < hi && Pivots(A, lo, hi)
    ensures IsSingular(Trailing(A, lo, p), p, hi) <==> Schur(A, lo, hi - 1, hi - 1, hi - 1) == 0.0
    decreases hi - p
  {
    var X := Trailing(A, lo, p);
    if p == hi - 1 {
      OneByOne(X, p);
    } else {
      var X', m := Trailing(A, lo, p + 1), Multipliers(A, lo, p);
      TrailingSingular(A, lo, hi, p + 1);
      StepEliminates(A, lo, p, hi);
      if IsSingular(X, p, hi) { NextSingular(X, X', m, p, hi); }
      if IsSingular(X', p + 1, hi) { PreviousSingular(X, X', m, p, hi); }
    }
  }

  /** The last pivot is zero if and only if the matrix is singular. */
  lemma LastPivotZeroIffSingular(A: Matrix, lo: int, hi: int)
    requires lo < hi && Pivots(A, lo, hi)
    ensures Schur(A, lo, hi - 1, hi - 1, hi - 1) == 0.0 <==> IsSingular(A, lo, hi)
  {
    TrailingSingular(A, lo, hi, lo);
    var X := Trailing(A, lo, lo);
    forall x: Vector ensures MapsToZero(X, x, lo, hi) <==> MapsToZero(A, x, lo, hi) {
      forall i | lo <= i < hi ensures RowTimes(X, x, i, lo, hi) == RowTimes(A, x, i, lo, hi) {
        RowLocal(X, A, x, x, i, lo, hi);
      }
    }
  }

  /** The pivots of a matrix are non-zero if and only if its leading blocks, up to one less than its
      size, are not singular. */
  lemma {:induction false} LeadingBlocks(A: Matrix, lo: int, hi: int)
    requires lo <= hi
    ensures Pivots(A, lo, hi) <==> forall p | lo < p < hi :: !IsSingular(A, lo, p)
    decreases hi - lo
  {
    if lo + 1 < hi {
      var p := hi - 1;
      LeadingBlocks(A, lo, p);
      if Pivots(A, lo, p) {
        LastPivotZeroIffSingular(A, lo, p);
        var q := p - 1;
        assert Schur(A, lo, q, q, q) == 0.0 <==> IsSingular(A, lo, p);
      }
    }
  }
}
