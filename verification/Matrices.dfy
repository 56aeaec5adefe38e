/** Matrices as total functions of two indices, snapshots of arrays, and inner products. */
module Matrices {

  function Min(x: int, y: int): int { if x <= y then x else y }
  function Max(x: int, y: int): int { if x >= y then x else y }

  /** A square diagonal block of an array. */
  predicate Square(a: array2<real>, lo: int, hi: int) {
    0 <= lo <= hi <= a.Length0 && hi <= a.Length1
  }

  /** The entries of a matrix; only the indices of interest matter. */
  type Matrix = (int, int) -> real

  ghost predicate InBounds(a: array2<real>, i: int, j: int) { 0 <= i < a.Length0 && 0 <= j < a.Length1 }

  /** The present contents of an array. */
  ghost function Snap(a: array2<real>): (X: Matrix)
    reads a
    ensures forall i, j | InBounds(a, i, j) :: X(i, j) == a[i, j]
  {
    var rows := seq(a.Length0, i requires 0 <= i < a.Length0 reads a =>
                      seq(a.Length1, j requires 0 <= j < a.Length1 reads a => a[i, j]));
    (i: int, j: int) => if 0 <= i < |rows| && 0 <= j < |rows[i]| then rows[i][j] else 0.0
  }

  /** Row `i` of `X` times column `j` of `Y`, over the inner indices `lo <= p < hi`. */
  ghost function Dot(X: Matrix, Y: Matrix, i: int, j: int, lo: int, hi: int): real
    decreases hi - lo
  {
    if hi <= lo then 0.0 else Dot(X, Y, i, j, lo, hi - 1) + X(i, hi - 1) * Y(hi - 1, j)
  }

  lemma {:induction false} DotSame(X: Matrix, Y: Matrix, X': Matrix, Y': Matrix, i: int, j: int, lo: int, hi: int)
    requires forall p | lo <= p < hi :: X(i, p) == X'(i, p) && Y(p, j) == Y'(p, j)
    ensures Dot(X, Y, i, j, lo, hi) == Dot(X', Y', i, j, lo, hi)
    decreases hi - lo
  {
    if lo < hi { DotSame(X, Y, X', Y', i, j, lo, hi - 1); }
  }

  /** Splitting the inner index range. */
  lemma {:induction false} DotSplit(X: Matrix, Y: Matrix, i: int, j: int, lo: int, mid: int, hi: int)
    requires lo <= mid <= hi
    ensures Dot(X, Y, i, j, lo, hi) == Dot(X, Y, i, j, lo, mid) + Dot(X, Y, i, j, mid, hi)
    decreases hi - mid
  {
    if mid < hi { DotSplit(X, Y, i, j, lo, mid, hi - 1); }
  }

  lemma {:induction false} DotZero(X: Matrix, Y: Matrix, i: int, j: int, lo: int, hi: int)
    requires forall p | lo <= p < hi :: X(i, p) == 0.0 || Y(p, j) == 0.0
    ensures Dot(X, Y, i, j, lo, hi) == 0.0
    decreases hi - lo
  {
    if lo < hi { DotZero(X, Y, i, j, lo, hi - 1); }
  }

  lemma SameProduct(x: real, y: real, x': real, y': real)
    requires x == x' && y == y'
    ensures x * y == x' * y'
  {
  }

  lemma DotOne(X: Matrix, Y: Matrix, i: int, j: int, p: int)
    ensures Dot(X, Y, i, j, p, p + 1) == X(i, p) * Y(p, j)
  {
    assert Dot(X, Y, i, j, p, p) == 0.0;
  }

  /** Splitting off the first term, with factors `x` and `y`. */
  lemma DotFirst(X: Matrix, Y: Matrix, i: int, j: int, lo: int, hi: int, x: real, y: real)
    requires lo < hi && x == X(i, lo) && y == Y(lo, j)
    ensures Dot(X, Y, i, j, lo, hi) == x * y + Dot(X, Y, i, j, lo + 1, hi)
  {
    DotOne(X, Y, i, j, lo);
    DotSplit(X, Y, i, j, lo, lo + 1, hi);
    SameProduct(x, y, X(i, lo), Y(lo, j));
  }

  /** Splitting off the last term, with factors `x` and `y`. */
  lemma DotLast(X: Matrix, Y: Matrix, i: int, j: int, lo: int, hi: int, x: real, y: real)
    requires lo < hi && x == X(i, hi - 1) && y == Y(hi - 1, j)
    ensures Dot(X, Y, i, j, lo, hi) == Dot(X, Y, i, j, lo, hi - 1) + x * y
  {
    SameProduct(x, y, X(i, hi - 1), Y(hi - 1, j));
  }

  // ----- Vectors -----

  type Vector = int -> real

  /** Entry `i` of the product of `M` and `x`, over the indices `lo <= j < hi`. */
  ghost function RowTimes(M: Matrix, x: Vector, i: int, lo: int, hi: int): real
    decreases hi - lo
  {
    if hi <= lo then 0.0 else M(i, lo) * x(lo) + RowTimes(M, x, i, lo + 1, hi)
  }

  ghost predicate NonzeroOn(x: Vector, lo: int, hi: int) {
    exists i :: lo <= i < hi && x(i) != 0.0
  }
}
