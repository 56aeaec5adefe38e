/** The matrices of the drivers: random entries in `[-1, 1]`, with the size added to the diagonal. All
    pivots but the last are always non-zero. The last one is zero, and the symmetric matrix is not
    positive definite, only when the random part is minus the outer product of a vector of signs. */
module Shift {
  import opened Matrices
  import opened LUFactors
  import opened Singular
  import opened Dominance
  import opened LUSteps
  import opened CholFactors
  import opened Definiteness

  ghost predicate Random(R: Matrix, n: nat) {
    forall i, j | 0 <= i < n && 0 <= j < n :: Abs(R(i, j)) <= 1.0
  }

  ghost predicate IsShifted(A: Matrix, R: Matrix, n: nat) {
    forall i, j | 0 <= i < n && 0 <= j < n :: A(i, j) == R(i, j) + if i == j then n as real else 0.0
  }

  predicate IsSign(x: real) { x == 1.0 || x == -1.0 }

  /** `R = -s * s'` for a vector `s` of signs. */
  ghost predicate MinusSigns(R: Matrix, s: Vector, n: nat) {
    && (forall i | 0 <= i < n :: IsSign(s(i)))
    && (forall i, j | 0 <= i < n && 0 <= j < n :: MinusProduct(R, s, i, j))
  }

  ghost predicate MinusProduct(R: Matrix, s: Vector, i: int, j: int) { R(i, j) == -(s(i) * s(j)) }

  ghost predicate IsMinusSigns(R: Matrix, n: nat) {
    exists s: Vector :: MinusSigns(R, s, n)
  }

  // ----- LU: the pivots -----

  /** All pivots but the last are non-zero, whatever the random entries are. */
  lemma ShiftHasPivots(R: Matrix, A: Matrix, n: nat)
    requires Random(R, n) && IsShifted(A, R, n)
    ensures Pivots(A, 0, n)
  {
    forall j | 0 <= j < n - 1 ensures Sum(AbsColumn(A, j), j, 0, n - 1) < Abs(A(j, j)) {
      forall i | 0 <= i < n - 1 && i != j ensures AbsColumn(A, j)(i) <= 1.0 { assert Abs(R(i, j)) <= 1.0; }
      BoundedSum(AbsColumn(A, j), j, 0, n - 1);
      assert Abs(R(j, j)) <= 1.0;
    }
    forall p | 0 <= p < n - 1 ensures Schur(A, 0, p, p, p) != 0.0 { DominanceIsKept(A, 0, n - 1, p); }
  }

  // ----- LU: the last pivot -----

  lemma {:induction false} SignRow(R: Matrix, A: Matrix, s: Vector, n: nat, i: int, lo: int)
    requires MinusSigns(R, s, n) && IsShifted(A, R, n) && 0 <= i < n && 0 <= lo <= n
    ensures RowTimes(A, s, i, lo, n) == ((if lo <= i then n else 0) - (n - lo)) as real * s(i)
    decreases n - lo
  {
    if lo < n {
      SignRow(R, A, s, n, i, lo + 1);
      assert MinusProduct(R, s, i, lo) && IsSign(s(lo)) && IsSign(s(i));
      SignTerm(A(i, lo), s(i), s(lo), if i == lo then n else 0, (if lo < i then n else 0) - (n - lo - 1));
    }
  }

  lemma SignTerm(a: real, si: real, sj: real, n: int, rest: int)
    requires IsSign(si) && IsSign(sj) && a == -(si * sj) + n as real && (n != 0 ==> si == sj)
    ensures a * sj + rest as real * si == (n - 1 + rest) as real * si
  {
  }

  /** The sign vector is mapped to zero. */
  lemma SignsAreSingular(R: Matrix, A: Matrix, s: Vector, n: nat)
    requires 0 < n && MinusSigns(R, s, n) && IsShifted(A, R, n)
    ensures IsSingular(A, 0, n)
  {
    forall i | 0 <= i < n ensures RowTimes(A, s, i, 0, n) == 0.0 { SignRow(R, A, s, n, i, 0); }
    assert IsSign(s(0));
    assert NonzeroOn(s, 0, n) && MapsToZero(A, s, 0, n);
  }

  lemma {:induction false} LargestEntry(x: Vector, n: nat) returns (k: int)
    requires 0 < n
    ensures IsLargest(x, k, n)
  {
    if n == 1 {
      k := 0;
    } else {
      k := LargestEntry(x, n - 1);
      if Abs(x(k)) < Abs(x(n - 1)) { k := n - 1; }
    }
  }

  ghost predicate IsLargest(x: Vector, k: int, n: nat) {
    0 <= k < n && forall j | 0 <= j < n :: Abs(x(j)) <= Abs(x(k))
  }

  /** The entries of `x` divided by entry `i`. */
  ghost function Over(x: Vector, i: int): Vector { j => Quotient(x(j), x(i)) }

  lemma AbsScaled(q: real, d: real, x: real)
    requires Scaled(q, d, x)
    ensures Scaled(Abs(q), Abs(d), Abs(x))
  {
    AbsProduct(q, d, x);
  }

  lemma ScaledDown(q: real, d: real, x: real)
    requires Scaled(q, d, x) && 0.0 <= d
    ensures q <= 1.0 ==> x <= d
    ensures 0.0 < d && x <= d ==> q <= 1.0
  {
    if q <= 1.0 { Monotone(q, 1.0, d); }
    if 0.0 < d && 1.0 < q { assert 0.0 < (q - 1.0) * d; }
  }

  lemma SmallerQuotient(x: real, d: real)
    requires d != 0.0 && Abs(x) <= Abs(d)
    ensures Scaled(Quotient(x, d), d, x) && Abs(Quotient(x, d)) <= 1.0
  {
    QuotientCancels(x, d);
    var q := Quotient(x, d);
    AbsScaled(q, d, x);
    ScaledDown(Abs(q), Abs(d), Abs(x));
  }

  lemma {:induction false} ScaledRow(A: Matrix, x: Vector, z: Vector, d: real, i: int, lo: int, hi: int)
    requires forall j | lo <= j < hi :: Scaled(z(j), d, x(j))
    ensures Scaled(RowTimes(A, z, i, lo, hi), d, RowTimes(A, x, i, lo, hi))
    decreases hi - lo
  {
    if lo < hi {
      ScaledRow(A, x, z, d, i, lo + 1, hi);
      ScaledTerm(A(i, lo), z(lo), d, x(lo), RowTimes(A, z, i, lo + 1, hi), RowTimes(A, x, i, lo + 1, hi));
    }
  }

  lemma ScaledTerm(a: real, z: real, d: real, x: real, t: real, u: real)
    requires Scaled(z, d, x) && Scaled(t, d, u)
    ensures Scaled(a * z + t, d, a * x + u)
  {
    assert (a * z + t) * d == a * (z * d) + t * d;
  }

  lemma NoZeroDivisor(t: real, d: real)
    requires Scaled(t, d, 0.0) && d != 0.0
    ensures t == 0.0
  {
  }

  /** What the other entries of row `i` contribute against its diagonal entry. */
  ghost function Against(R: Matrix, z: Vector, i: int): int -> real { j => -(R(i, j) * z(j)) }

  lemma {:induction false} RowAgainst(R: Matrix, A: Matrix, z: Vector, n: nat, i: int, lo: int)
    requires IsShifted(A, R, n) && 0 <= i < n && 0 <= lo <= n && z(i) == 1.0
    ensures RowTimes(A, z, i, lo, n) == (if lo <= i then n as real + R(i, i) else 0.0) - Sum(Against(R, z, i), i, lo, n)
    decreases n - lo
  {
    if lo < n {
      RowAgainst(R, A, z, n, i, lo + 1);
      FirstTerm(Against(R, z, i), i, lo, n);
      if lo != i { assert A(i, lo) * z(lo) == -Against(R, z, i)(lo); }
    }
  }

  lemma ProductOfSmall(a: real, b: real, p: real)
    requires Abs(a) <= 1.0 && Abs(b) <= 1.0 && Scaled(a, b, p)
    ensures Abs(p) <= Abs(b)
  {
    AbsScaled(a, b, p);
    ScaledDown(Abs(a), Abs(b), Abs(p));
  }

  lemma AgainstAtMostOne(R: Matrix, z: Vector, n: nat, i: int, j: int)
    requires Random(R, n) && 0 <= i < n && 0 <= j < n && Abs(z(j)) <= 1.0
    ensures Against(R, z, i)(j) <= 1.0
    ensures Against(R, z, i)(j) == 1.0 ==> Scaled(R(i, j), z(j), -1.0)
  {
    var p := R(i, j) * z(j);
    assert Against(R, z, i)(j) == -p && Abs(R(i, j)) <= 1.0;
    ProductOfSmall(R(i, j), z(j), p);
  }

  /** A row that maps a vector to zero, at its largest entry, has `-1` on its diagonal, and all entries
      of the vector are equally large. */
  lemma RowForced(R: Matrix, A: Matrix, z: Vector, n: nat, i: int)
    requires Random(R, n) && IsShifted(A, R, n) && 0 <= i < n && z(i) == 1.0
    requires (forall j | 0 <= j < n :: Abs(z(j)) <= 1.0) && RowTimes(A, z, i, 0, n) == 0.0
    ensures R(i, i) == -1.0
    ensures forall j | 0 <= j < n && j != i :: Against(R, z, i)(j) == 1.0
  {
    var f := Against(R, z, i);
    forall j | 0 <= j < n && j != i ensures f(j) <= 1.0 { AgainstAtMostOne(R, z, n, i, j); }
    BoundedSum(f, i, 0, n);
    RowAgainst(R, A, z, n, i, 0);
    assert Abs(R(i, i)) <= 1.0;
  }

  /** The quotients by the largest entry. */
  lemma OverLargest(A: Matrix, x: Vector, n: nat, i: int)
    requires IsLargest(x, i, n) && x(i) != 0.0 && RowTimes(A, x, i, 0, n) == 0.0
    ensures Over(x, i)(i) == 1.0 && RowTimes(A, Over(x, i), i, 0, n) == 0.0
    ensures forall j | 0 <= j < n :: Abs(Over(x, i)(j)) <= 1.0
  {
    var z := Over(x, i);
    forall j | 0 <= j < n ensures Scaled(z(j), x(i), x(j)) && Abs(z(j)) <= 1.0 { SmallerQuotient(x(j), x(i)); }
    ScaledRow(A, x, z, x(i), i, 0, n);
    NoZeroDivisor(RowTimes(A, z, i, 0, n), x(i));
    QuotientIs(x(i), 1.0, x(i));
  }

  /** Entry `j` is as large as entry `i`, and their signs make the entry of `R`. */
  ghost predicate BySigns(R: Matrix, x: Vector, i: int, j: int) {
    Abs(x(j)) == Abs(x(i)) && R(i, j) == -(Sign(x(i)) * Sign(x(j)))
  }

  lemma LargestForces(R: Matrix, A: Matrix, x: Vector, n: nat, i: int, j: int)
    requires Random(R, n) && IsShifted(A, R, n) && IsLargest(x, i, n) && x(i) != 0.0
    requires RowTimes(A, x, i, 0, n) == 0.0 && 0 <= j < n
    ensures BySigns(R, x, i, j)
  {
    var z := Over(x, i);
    OverLargest(A, x, n, i);
    RowForced(R, A, z, n, i);
    if j != i {
      AgainstAtMostOne(R, z, n, i, j);
      SmallerQuotient(x(j), x(i));
      EntryForced(R(i, j), z(j), x(i), x(j));
    }
  }

  function Sign(x: real): real { if x < 0.0 then -1.0 else 1.0 }

  ghost function Signs(x: Vector): Vector { j => Sign(x(j)) }

  lemma EntryForced(r: real, z: real, xi: real, xj: real)
    requires Abs(r) <= 1.0 && Abs(z) <= 1.0 && Scaled(r, z, -1.0) && xi != 0.0 && Scaled(z, xi, xj)
    ensures Abs(xj) == Abs(xi) && r == -(Sign(xi) * Sign(xj))
  {
    ProductOfSmall(r, z, -1.0);
    if z == 1.0 { assert xj == xi; } else { assert z == -1.0 && xj == -xi; }
  }

  lemma EquallyLarge(R: Matrix, A: Matrix, x: Vector, n: nat, k: int, i: int)
    requires Random(R, n) && IsShifted(A, R, n) && IsLargest(x, k, n) && x(k) != 0.0 && 0 <= i < n
    requires RowTimes(A, x, k, 0, n) == 0.0
    ensures IsLargest(x, i, n) && x(i) != 0.0
  {
    LargestForces(R, A, x, n, k, i);
  }

  /** A singular matrix of the driver is the exception. */
  lemma SingularIsSigns(R: Matrix, A: Matrix, n: nat)
    requires Random(R, n) && IsShifted(A, R, n) && IsSingular(A, 0, n)
    ensures IsMinusSigns(R, n)
  {
    var x: Vector :| NonzeroOn(x, 0, n) && MapsToZero(A, x, 0, n);
    var q :| 0 <= q < n && x(q) != 0.0;
    var k := LargestEntry(x, n);
    assert Abs(x(q)) <= Abs(x(k));
    forall i, j | 0 <= i < n && 0 <= j < n ensures MinusProduct(R, Signs(x), i, j) {
      EquallyLarge(R, A, x, n, k, i);
      LargestForces(R, A, x, n, i, j);
    }
    assert MinusSigns(R, Signs(x), n);
  }

  /** The last pivot is zero if and only if the random matrix is minus the outer product of signs. */
  lemma LastPivotZeroIffSigns(R: Matrix, A: Matrix, n: nat)
    requires 0 < n && Random(R, n) && IsShifted(A, R, n)
    ensures Schur(A, 0, n - 1, n - 1, n - 1) == 0.0 <==> IsMinusSigns(R, n)
  {
    ShiftHasPivots(R, A, n);
    LastPivotZeroIffSingular(A, 0, n);
    if IsSingular(A, 0, n) { SingularIsSigns(R, A, n); }
    if s: Vector :| MinusSigns(R, s, n) { SignsAreSingular(R, A, s, n); }
  }

  /** So the exception is what the checked variants refuse. */
  lemma RefusedIffSigns(R: Matrix, A: Matrix, n: nat)
    requires Random(R, n) && IsShifted(A, R, n)
    ensures Pivots(A, 0, n)
    ensures Refused(A, 0, n, true) <==> 0 < n && IsMinusSigns(R, n)
  {
    ShiftHasPivots(R, A, n);
    RefusedIffZeroPivot(A, 0, n, true);
    if 0 < n { LastPivotZeroIffSigns(R, A, n); }
  }

  /** A matrix of the driver that is refused: all random entries are `-1`. */
  lemma RefusalWitness(R: Matrix, A: Matrix)
    requires R == ((i: int, j: int) => -1.0) && IsShifted(A, R, 2)
    ensures Random(R, 2) && Pivots(A, 0, 2) && Refused(A, 0, 2, true)
  {
    var s: Vector := i => 1.0;
    assert MinusSigns(R, s, 2);
    RefusedIffSigns(R, A, 2);
  }

  // ----- LU: dominance -----

  /** Every other entry of column `j` is `1` or `-1`. */
  ghost predicate OthersAreUnits(R: Matrix, n: nat, j: int) {
    forall i | 0 <= i < n && i != j :: Abs(R(i, j)) == 1.0
  }

  lemma ShiftedColumn(R: Matrix, A: Matrix, n: nat, j: int)
    requires Random(R, n) && IsShifted(A, R, n) && 0 <= j < n
    ensures Sum(AbsColumn(A, j), j, 0, n) < Abs(A(j, j)) <==> !(R(j, j) == -1.0 && OthersAreUnits(R, n, j))
  {
    var f := AbsColumn(A, j);
    forall i | 0 <= i < n && i != j ensures f(i) == Abs(R(i, j)) <= 1.0 {}
    BoundedSum(f, j, 0, n);
    assert Abs(R(j, j)) <= 1.0 && Abs(A(j, j)) == n as real + R(j, j);
  }

  /** The matrix is strictly dominant unless some column has `-1` on the diagonal and `1` or `-1` everywhere
      else. That is not needed for the pivots. */
  lemma ShiftMakesDominant(R: Matrix, A: Matrix, n: nat)
    requires Random(R, n) && IsShifted(A, R, n)
    ensures Dominant(A, 0, n) <==> forall j | 0 <= j < n :: !(R(j, j) == -1.0 && OthersAreUnits(R, n, j))
  {
    forall j | 0 <= j < n
      ensures Sum(AbsColumn(A, j), j, 0, n) < Abs(A(j, j)) <==> !(R(j, j) == -1.0 && OthersAreUnits(R, n, j))
    {
      ShiftedColumn(R, A, n, j);
    }
  }

  // ----- Cholesky: definiteness -----

  ghost predicate RandomLower(R: Matrix, n: nat) {
    forall i, j | 0 <= j <= i < n :: Abs(R(i, j)) <= 1.0
  }

  ghost predicate IsShiftedLower(A: Matrix, R: Matrix, n: nat) {
    forall i, j | 0 <= j <= i < n :: A(i, j) == R(i, j) + if i == j then n as real else 0.0
  }

  ghost predicate MinusSignsLower(R: Matrix, s: Vector, n: nat) {
    && (forall i | 0 <= i < n :: IsSign(s(i)))
    && (forall i, j | 0 <= j <= i < n :: MinusProduct(R, s, i, j))
  }

  ghost predicate IsMinusSignsLower(R: Matrix, n: nat) {
    exists s: Vector :: MinusSignsLower(R, s, n)
  }

  /** The part of the form that two unknowns and the entry between them make. */
  function Couple(a: real, x: real, y: real): real { x * x + y * y + 2.0 * (a * x * y) }

  function Weighted(w: real, x: real): real { w * (x * x) }

  /** The couples of unknown `c` with the unknowns from `lo` on. */
  ghost function Couples(A: Matrix, x: Vector, c: int, lo: int, hi: int): real
    decreases hi - lo
  {
    if hi <= lo then 0.0 else Couple(A(lo, c), x(c), x(lo)) + Couples(A, x, c, lo + 1, hi)
  }

  ghost function AllCouples(A: Matrix, x: Vector, lo: int, hi: int): real
    decreases hi - lo
  {
    if hi <= lo then 0.0 else Couples(A, x, lo, lo + 1, hi) + AllCouples(A, x, lo + 1, hi)
  }

  /** The squares weighted by what the diagonal entries exceed `c` by. */
  ghost function Excess(A: Matrix, x: Vector, c: real, lo: int, hi: int): real
    decreases hi - lo
  {
    if hi <= lo then 0.0 else Weighted(A(lo, lo) - c, x(lo)) + Excess(A, x, c, lo + 1, hi)
  }

  ghost function Squares(x: Vector, lo: int, hi: int): real
    decreases hi - lo
  {
    if hi <= lo then 0.0 else Weighted(1.0, x(lo)) + Squares(x, lo + 1, hi)
  }

  lemma {:induction false} ExcessLess(A: Matrix, x: Vector, c: real, c': real, lo: int, hi: int)
    requires c' == c + 1.0
    ensures Excess(A, x, c', lo, hi) == Excess(A, x, c, lo, hi) - Squares(x, lo, hi)
    decreases hi - lo
  {
    if lo < hi {
      ExcessLess(A, x, c, c', lo + 1, hi);
      WeightsAdd(A(lo, lo) - c', 1.0, A(lo, lo) - c, x(lo));
    }
  }

  lemma WeightsAdd(v: real, w: real, u: real, x: real)
    requires v + w == u
    ensures Weighted(v, x) + Weighted(w, x) == Weighted(u, x)
  {
  }

  /** The terms of the form with `x` and the column sum `t`, when `x` meets unknowns of weight `n`. */
  function Cross(n: real, x: real, t: real): real { Weighted(n, x) + 2.0 * (x * t) }

  lemma {:induction false} CouplesAre(A: Matrix, x: Vector, c: int, lo: int, hi: int)
    requires lo <= hi
    ensures Couples(A, x, c, lo, hi)
         == Cross((hi - lo) as real, x(c), ColumnTimes(A, x, c, lo, hi)) + Squares(x, lo, hi)
    decreases hi - lo
  {
    if lo < hi {
      CouplesAre(A, x, c, lo + 1, hi);
      OneMoreCouple(A(lo, c), x(c), x(lo), (hi - lo - 1) as real, (hi - lo) as real,
                    ColumnTimes(A, x, c, lo + 1, hi), ColumnTimes(A, x, c, lo, hi));
    } else {
      assert Cross(0.0, x(c), 0.0) == 0.0;
    }
  }

  lemma OneMoreCouple(a: real, x: real, y: real, n: real, n': real, t: real, t': real)
    requires n' == n + 1.0 && t' == a * y + t
    ensures Cross(n', x, t') == Cross(n, x, t) + Couple(a, x, y) - Weighted(1.0, y)
  {
    WeightsAdd(n, 1.0, n', x);
    assert x * t' == a * x * y + x * t;
  }

  /** With `c` one less than the size, the form is the excess of the diagonal and all couples. */
  lemma {:induction false} FormIsCouples(A: Matrix, x: Vector, lo: int, hi: int)
    requires lo < hi
    ensures Form(A, x, lo, hi) == Excess(A, x, (hi - lo - 1) as real, lo, hi) + AllCouples(A, x, lo, hi)
    decreases hi - lo
  {
    var c := (hi - lo - 1) as real;
    CouplesAre(A, x, lo, lo + 1, hi);
    HeadIs(A(lo, lo), x(lo), ColumnTimes(A, x, lo, lo + 1, hi), c);
    if lo + 1 < hi {
      FormIsCouples(A, x, lo + 1, hi);
      ExcessLess(A, x, (hi - lo - 2) as real, c, lo + 1, hi);
    }
  }

  lemma HeadIs(d: real, x: real, t: real, c: real)
    ensures Head(d, x, t) == Weighted(d - c, x) + Cross(c, x, t)
  {
    WeightsAdd(d - c, c, d, x);
  }

  // A couple is never negative, and zero only for the signs.

  lemma WeightedSign(w: real, x: real)
    requires 0.0 <= w
    ensures 0.0 <= Weighted(w, x)
    ensures 0.0 < w && x != 0.0 ==> 0.0 < Weighted(w, x)
  {
    if x != 0.0 {
      SquarePositive(x, x * x);
      if 0.0 < w { ProductPositive(w, x * x, Weighted(w, x)); }
    }
  }

  /** Completing the square. */
  lemma CoupleIs(a: real, x: real, y: real)
    ensures Couple(a, x, y) == Weighted(1.0, x + a * y) + Weighted(1.0 - a * a, y)
  {
    var p := a * y;
    assert (x + p) * (x + p) == x * x + 2.0 * (x * p) + p * p;
    assert p * p == a * a * (y * y) && x * p == a * x * y;
  }

  lemma NonnegativeProduct(u: real, v: real, p: real)
    requires 0.0 <= u && 0.0 <= v && p == u * v
    ensures 0.0 <= p && (p == 0.0 ==> u == 0.0 || v == 0.0)
  {
    if 0.0 < u && 0.0 < v { ProductPositive(u, v, p); }
  }

  lemma SmallSquare(a: real)
    requires Abs(a) <= 1.0
    ensures a * a <= 1.0 && (a * a == 1.0 ==> IsSign(a))
  {
    var p := 1.0 - a * a;
    assert p == (1.0 - a) * (1.0 + a);
    NonnegativeProduct(1.0 - a, 1.0 + a, p);
  }

  lemma CoupleSign(a: real, x: real, y: real)
    requires Abs(a) <= 1.0
    ensures 0.0 <= Couple(a, x, y)
    ensures Couple(a, x, y) == 0.0 ==> Abs(x) == Abs(y) && (x != 0.0 ==> a == -(Sign(x) * Sign(y)))
  {
    CoupleIs(a, x, y);
    SmallSquare(a);
    WeightedSign(1.0, x + a * y);
    WeightedSign(1.0 - a * a, y);
    if Couple(a, x, y) == 0.0 {
      assert x + a * y == 0.0;
      if a * a < 1.0 {
        assert y == 0.0;
      } else {
        assert IsSign(a);
      }
    }
  }

  lemma SignCouple(s: real, t: real)
    requires IsSign(s) && IsSign(t)
    ensures Couple(-(s * t), s, t) == 0.0
  {
  }

  ghost predicate NoCouple(A: Matrix, x: Vector, i: int, j: int) { Couple(A(i, j), x(j), x(i)) == 0.0 }

  lemma {:induction false} CouplesSign(A: Matrix, x: Vector, c: int, lo: int, hi: int)
    requires forall i | lo <= i < hi :: Abs(A(i, c)) <= 1.0
    ensures 0.0 <= Couples(A, x, c, lo, hi)
    ensures Couples(A, x, c, lo, hi) == 0.0 ==> forall i | lo <= i < hi :: NoCouple(A, x, i, c)
    decreases hi - lo
  {
    if lo < hi {
      CouplesSign(A, x, c, lo + 1, hi);
      CoupleSign(A(lo, c), x(c), x(lo));
    }
  }

  lemma {:induction false} AllCouplesSign(A: Matrix, x: Vector, lo: int, hi: int)
    requires forall i, j | lo <= j < i < hi :: Abs(A(i, j)) <= 1.0
    ensures 0.0 <= AllCouples(A, x, lo, hi)
    ensures AllCouples(A, x, lo, hi) == 0.0 ==> forall i, j | lo <= j < i < hi :: NoCouple(A, x, i, j)
    decreases hi - lo
  {
    if lo < hi {
      AllCouplesSign(A, x, lo + 1, hi);
      CouplesSign(A, x, lo, lo + 1, hi);
    }
  }

  lemma {:induction false} ExcessSign(A: Matrix, x: Vector, c: real, lo: int, hi: int)
    requires forall i | lo <= i < hi :: c <= A(i, i)
    ensures 0.0 <= Excess(A, x, c, lo, hi)
    ensures Excess(A, x, c, lo, hi) == 0.0 ==> forall i | lo <= i < hi && x(i) != 0.0 :: A(i, i) == c
    decreases hi - lo
  {
    if lo < hi {
      ExcessSign(A, x, c, lo + 1, hi);
      WeightedSign(A(lo, lo) - c, x(lo));
    }
  }

  lemma {:induction false} SignsHaveNoCouples(A: Matrix, s: Vector, c: int, lo: int, hi: int)
    requires IsSign(s(c)) && forall i | lo <= i < hi :: IsSign(s(i)) && MinusProduct(A, s, i, c)
    ensures Couples(A, s, c, lo, hi) == 0.0
    decreases hi - lo
  {
    if lo < hi {
      SignsHaveNoCouples(A, s, c, lo + 1, hi);
      assert MinusProduct(A, s, lo, c);
      SignCouple(s(lo), s(c));
    }
  }

  lemma {:induction false} SignsVanish(A: Matrix, s: Vector, c: real, lo: int, hi: int)
    requires forall i | lo <= i < hi :: IsSign(s(i)) && A(i, i) == c
    requires forall i, j | lo <= j < i < hi :: MinusProduct(A, s, i, j)
    ensures Excess(A, s, c, lo, hi) == 0.0 && AllCouples(A, s, lo, hi) == 0.0
    decreases hi - lo
  {
    if lo < hi {
      SignsVanish(A, s, c, lo + 1, hi);
      SignsHaveNoCouples(A, s, lo, lo + 1, hi);
      assert Weighted(0.0, s(lo)) == 0.0;
    }
  }

  lemma NoCoupleSigns(R: Matrix, A: Matrix, x: Vector, n: nat, i: int, j: int)
    requires RandomLower(R, n) && IsShiftedLower(A, R, n) && 0 <= j < i < n && NoCouple(A, x, i, j)
    ensures Abs(x(j)) == Abs(x(i)) && (x(j) != 0.0 ==> MinusProduct(R, Signs(x), i, j))
  {
    assert Abs(R(i, j)) <= 1.0 && A(i, j) == R(i, j);
    CoupleSign(A(i, j), x(j), x(i));
  }

  lemma FlatParts(R: Matrix, A: Matrix, x: Vector, n: nat)
    requires 0 < n && RandomLower(R, n) && IsShiftedLower(A, R, n) && Form(A, x, 0, n) <= 0.0
    ensures forall i, j | 0 <= j < i < n :: NoCouple(A, x, i, j)
    ensures forall i | 0 <= i < n && x(i) != 0.0 :: R(i, i) == -1.0
  {
    var c := (n - 1) as real;
    FormIsCouples(A, x, 0, n);
    forall i | 0 <= i < n ensures c <= A(i, i) && A(i, i) == R(i, i) + n as real { assert Abs(R(i, i)) <= 1.0; }
    forall i, j | 0 <= j < i < n ensures Abs(A(i, j)) <= 1.0 { assert Abs(R(i, j)) <= 1.0; }
    ExcessSign(A, x, c, 0, n);
    AllCouplesSign(A, x, 0, n);
  }

  /** A vector other than zero on which the form is not positive shows the signs. */
  lemma FlatFormIsSigns(R: Matrix, A: Matrix, x: Vector, n: nat)
    requires 0 < n && RandomLower(R, n) && IsShiftedLower(A, R, n)
    requires NonzeroOn(x, 0, n) && Form(A, x, 0, n) <= 0.0
    ensures MinusSignsLower(R, Signs(x), n)
  {
    FlatParts(R, A, x, n);
    var k :| 0 <= k < n && x(k) != 0.0;
    forall i | 0 <= i < n ensures x(i) != 0.0 {
      if i < k { NoCoupleSigns(R, A, x, n, k, i); }
      if k < i { NoCoupleSigns(R, A, x, n, i, k); }
    }
    forall i, j | 0 <= j <= i < n ensures MinusProduct(R, Signs(x), i, j) {
      if j < i { NoCoupleSigns(R, A, x, n, i, j); }
    }
  }

  /** The form of the signs is zero. */
  lemma SignsAreFlat(R: Matrix, A: Matrix, s: Vector, n: nat)
    requires 0 < n && IsShiftedLower(A, R, n) && MinusSignsLower(R, s, n)
    ensures Form(A, s, 0, n) == 0.0 && NonzeroOn(s, 0, n)
  {
    forall i | 0 <= i < n ensures A(i, i) == (n - 1) as real { assert MinusProduct(R, s, i, i) && IsSign(s(i)); }
    forall i, j | 0 <= j < i < n ensures MinusProduct(A, s, i, j) { assert MinusProduct(R, s, i, j); }
    FormIsCouples(A, s, 0, n);
    SignsVanish(A, s, (n - 1) as real, 0, n);
    assert IsSign(s(0));
  }

  /** The driver's symmetric matrix is positive definite unless the random lower triangle is minus the outer
      product of signs. */
  lemma DefiniteIffNotSigns(R: Matrix, A: Matrix, n: nat)
    requires RandomLower(R, n) && IsShiftedLower(A, R, n)
    ensures PositiveDefinite(A, 0, n) <==> n == 0 || !IsMinusSignsLower(R, n)
  {
    if n == 0 { return; }
    if s: Vector :| MinusSignsLower(R, s, n) {
      SignsAreFlat(R, A, s, n);
      FormIsQuadratic(A, s, 0, n);
      assert !PositiveDefinite(A, 0, n);
    }
    if !IsMinusSignsLower(R, n) {
      forall x: Vector | NonzeroOn(x, 0, n) ensures 0.0 < Quadratic(Symmetric(A), x, 0, 0, n) {
        FormIsQuadratic(A, x, 0, n);
        if Form(A, x, 0, n) <= 0.0 { FlatFormIsSigns(R, A, x, n); }
      }
    }
  }
}
