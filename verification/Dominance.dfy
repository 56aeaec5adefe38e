/** Strict column diagonal dominance: elimination keeps it, so no pivot is zero and every
    multiplier is below one in absolute value. */
module Dominance {
  import opened Matrices
  import opened LUFactors

  function Abs(x: real): real { if x < 0.0 then -x else x }

  lemma AbsProduct(x: real, y: real, z: real)
    requires z == x * y
    ensures Abs(z) == Abs(x) * Abs(y)
  {
  }

  lemma AbsDifference(x: real, y: real)
    ensures Abs(x - y) <= Abs(x) + Abs(y) && Abs(x) - Abs(y) <= Abs(x - y)
  {
  }

  lemma Monotone(x: real, y: real, z: real)
    requires x <= y && 0.0 <= z
    ensures x * z <= y * z
  {
    assert (y - x) * z >= 0.0;
  }

  lemma Distribute(t: real, s: real, u: real, r: real)
    requires t == s + u
    ensures t * r == s * r + u * r
  {
  }

  // ----- Sums without one index -----

  ghost function Sum(f: int -> real, skip: int, lo: int, hi: int): real
    decreases hi - lo
  {
    if hi <= lo then 0.0 else Sum(f, skip, lo, hi - 1) + if hi - 1 == skip then 0.0 else f(hi - 1)
  }

  lemma {:induction false} SumAtMost(f: int -> real, g: int -> real, skip: int, lo: int, hi: int)
    requires forall i | lo <= i < hi && i != skip :: f(i) <= g(i)
    ensures Sum(f, skip, lo, hi) <= Sum(g, skip, lo, hi)
    decreases hi - lo
  {
    if lo < hi { SumAtMost(f, g, skip, lo, hi - 1); }
  }

  lemma {:induction false} FirstTerm(f: int -> real, skip: int, lo: int, hi: int)
    requires lo < hi
    ensures Sum(f, skip, lo, hi) == Sum(f, skip, lo + 1, hi) + if lo == skip then 0.0 else f(lo)
    decreases hi - lo
  {
    if lo + 1 < hi { FirstTerm(f, skip, lo, hi - 1); }
  }

  /** Leaving out a term takes it from the sum that leaves out none. */
  lemma {:induction false} LeftOut(f: int -> real, skip: int, none: int, lo: int, hi: int)
    requires none < lo
    ensures Sum(f, none, lo, hi) == Sum(f, skip, lo, hi) + if lo <= skip < hi then f(skip) else 0.0
    decreases hi - lo
  {
    if lo < hi { LeftOut(f, skip, none, lo, hi - 1); }
  }

  lemma {:induction false} TermAtMost(f: int -> real, skip: int, lo: int, hi: int, i: int)
    requires lo <= i < hi && i != skip && forall i | lo <= i < hi :: 0.0 <= f(i)
    ensures 0.0 <= Sum(f, skip, lo, i) && f(i) <= Sum(f, skip, lo, hi)
    decreases hi - lo
  {
    SumAtMost(_ => 0.0, f, skip, lo, i);
    ZeroSum(skip, lo, i);
    if i < hi - 1 { TermAtMost(f, skip, lo, hi - 1, i); }
  }

  lemma {:induction false} ZeroSum(skip: int, lo: int, hi: int)
    ensures Sum(_ => 0.0, skip, lo, hi) == 0.0
    decreases hi - lo
  {
    if lo < hi { ZeroSum(skip, lo, hi - 1); }
  }

  predicate Scaled(x: real, d: real, y: real) { x * d == y }
  predicate AtMost(x': real, x: real, y: real, r: real) { x' <= x + y * r }
  predicate AtLeast(x': real, x: real, y: real, r: real) { x - y * r <= x' }

  ghost predicate Scales(f: int -> real, g: int -> real, d: real, i: int) { Scaled(f(i), d, g(i)) }

  ghost predicate Raised(f': int -> real, f: int -> real, g: int -> real, r: real, i: int) {
    AtMost(f'(i), f(i), g(i), r)
  }

  ghost predicate Kept(f': int -> real, f: int -> real, g: int -> real, r: real, i: int) {
    AtLeast(f'(i), f(i), g(i), r)
  }

  lemma {:induction false} ScaledSum(f: int -> real, g: int -> real, d: real, skip: int, lo: int, hi: int)
    requires forall i | lo <= i < hi :: Scales(f, g, d, i)
    ensures Scaled(Sum(f, skip, lo, hi), d, Sum(g, skip, lo, hi))
    decreases hi - lo
  {
    if lo < hi {
      ScaledSum(f, g, d, skip, lo, hi - 1);
      assert Scales(f, g, d, hi - 1);
      if hi - 1 != skip {
        Distribute(Sum(f, skip, lo, hi), Sum(f, skip, lo, hi - 1), f(hi - 1), d);
      }
    }
  }

  lemma {:induction false} UpdatedSum(f': int -> real, f: int -> real, g: int -> real, r: real, skip: int, lo: int,
                                      hi: int)
    requires forall i | lo <= i < hi :: Raised(f', f, g, r, i)
    ensures AtMost(Sum(f', skip, lo, hi), Sum(f, skip, lo, hi), Sum(g, skip, lo, hi), r)
    decreases hi - lo
  {
    if lo < hi {
      UpdatedSum(f', f, g, r, skip, lo, hi - 1);
      assert Raised(f', f, g, r, hi - 1);
      if hi - 1 != skip {
        Distribute(Sum(g, skip, lo, hi), Sum(g, skip, lo, hi - 1), g(hi - 1), r);
      }
    }
  }

  // ----- Dominance -----

  /** The absolute values of column `c`. */
  ghost function AbsColumn(X: Matrix, c: int): int -> real { i => Abs(X(i, c)) }

  /** Every diagonal entry outweighs the rest of its column. */
  ghost predicate Dominant(X: Matrix, lo: int, hi: int) {
    forall j | lo <= j < hi :: Sum(AbsColumn(X, j), j, lo, hi) < Abs(X(j, j))
  }

  /** The inequality behind one step: `others` and `mj` are sums of multipliers, `all` their total. */
  lemma StepBound(all: real, sum: real, others: real, mj: real, d: real, r: real, off: real, diag: real, off': real,
                  diag': real)
    requires Scaled(all, d, sum) && sum < d && 0.0 <= r && 0.0 <= d && others + mj == all
    requires AtMost(off', off, others, r) && off + r < diag && AtLeast(diag', diag, mj, r)
    ensures off' < diag'
  {
    if 1.0 <= all { Monotone(1.0, all, d); }
    Monotone(all, 1.0, r);
    Distribute(all, others, mj, r);
  }

  /** What one step does to row `i` of column `j`, in absolute values. */
  ghost predicate StepAt(X: Matrix, X': Matrix, m: Matrix, p: int, j: int, i: int) {
    && m(i, p) * X(p, p) == X(i, p)
    && X'(i, j) == X(i, j) - m(i, p) * X(p, j)
  }

  lemma StepInAbs(X: Matrix, X': Matrix, m: Matrix, p: int, j: int, i: int)
    requires StepAt(X, X', m, p, j, i)
    ensures Scales(AbsColumn(m, p), AbsColumn(X, p), Abs(X(p, p)), i)
    ensures Raised(AbsColumn(X', j), AbsColumn(X, j), AbsColumn(m, p), Abs(X(p, j)), i)
    ensures Kept(AbsColumn(X', j), AbsColumn(X, j), AbsColumn(m, p), Abs(X(p, j)), i)
  {
    AbsProduct(m(i, p), X(p, p), X(i, p));
    AbsProduct(m(i, p), X(p, j), m(i, p) * X(p, j));
    AbsDifference(X(i, j), m(i, p) * X(p, j));
  }

  lemma StepColumns(X: Matrix, X': Matrix, m: Matrix, p: int, hi: int, j: int)
    requires forall i | p < i < hi :: StepAt(X, X', m, p, j, i)
    ensures forall i | p < i < hi :: Scales(AbsColumn(m, p), AbsColumn(X, p), Abs(X(p, p)), i)
    ensures forall i | p < i < hi :: Raised(AbsColumn(X', j), AbsColumn(X, j), AbsColumn(m, p), Abs(X(p, j)), i)
  {
    forall i | p < i < hi ensures Scales(AbsColumn(m, p), AbsColumn(X, p), Abs(X(p, p)), i) {
      StepInAbs(X, X', m, p, j, i);
    }
    forall i | p < i < hi ensures Raised(AbsColumn(X', j), AbsColumn(X, j), AbsColumn(m, p), Abs(X(p, j)), i) {
      StepInAbs(X, X', m, p, j, i);
    }
  }

  /** The column sums of one step: `f` and `f'` are column `j` before and after, `h` is column `p`,
      `g` its multipliers. */
  lemma ColumnBound(f': int -> real, f: int -> real, g: int -> real, h: int -> real, d: real, r: real, p: int,
                    hi: int, j: int)
    requires p < j < hi && f(p) == r && 0.0 <= r && 0.0 <= d
    requires forall i | p < i < hi :: Scales(g, h, d, i)
    requires forall i | p < i < hi :: Raised(f', f, g, r, i)
    requires Kept(f', f, g, r, j)
    requires Sum(f, j, p, hi) < f(j) && Sum(h, p, p, hi) < d
    ensures Sum(f', j, p + 1, hi) < f'(j)
  {
    UpdatedSum(f', f, g, r, j, p + 1, hi);
    ScaledSum(g, h, d, p, p + 1, hi);
    FirstTerm(f, j, p, hi);
    FirstTerm(h, p, p, hi);
    LeftOut(g, j, p, p + 1, hi);
    StepBound(Sum(g, p, p + 1, hi), Sum(h, p, p + 1, hi), Sum(g, j, p + 1, hi), g(j), d, r,
              Sum(f, j, p + 1, hi), f(j), Sum(f', j, p + 1, hi), f'(j));
  }

  /** One step of elimination on a dominant matrix leaves a dominant column. */
  lemma StepKeepsColumn(X: Matrix, X': Matrix, m: Matrix, p: int, hi: int, j: int)
    requires p < j < hi && Dominant(X, p, hi)
    requires forall i | p < i < hi :: StepAt(X, X', m, p, j, i)
    ensures Sum(AbsColumn(X', j), j, p + 1, hi) < Abs(X'(j, j))
  {
    StepColumns(X, X', m, p, hi, j);
    StepInAbs(X, X', m, p, j, j);
    ColumnBound(AbsColumn(X', j), AbsColumn(X, j), AbsColumn(m, p), AbsColumn(X, p), Abs(X(p, p)), Abs(X(p, j)), p,
                hi, j);
  }

  lemma EliminationStep(A: Matrix, lo: int, p: int, i: int, j: int)
    requires lo <= p < i && p < j && Schur(A, lo, p, p, p) != 0.0
    ensures StepAt(Trailing(A, lo, p), Trailing(A, lo, p + 1), Packed(A, lo), p, j, i)
  {
    QuotientCancels(Schur(A, lo, p, i, p), Schur(A, lo, p, p, p));
    assert Schur(A, lo, p + 1, i, j) == Schur(A, lo, p, i, j) - Factor(A, lo, i, p) * Factor(A, lo, p, j);
    assert Factor(A, lo, p, j) == Schur(A, lo, p, p, j);
  }

  lemma SmallQuotient(x: real, d: real)
    requires Abs(x) < Abs(d)
    ensures Abs(Quotient(x, d)) < 1.0
  {
    QuotientCancels(x, d);
    QuotientBelowOne(Quotient(x, d), x, d);
  }

  lemma QuotientBelowOne(q: real, x: real, d: real)
    requires x == q * d && Abs(x) < Abs(d)
    ensures Abs(q) < 1.0
  {
    AbsProduct(q, d, x);
    if 1.0 <= Abs(q) { Monotone(1.0, Abs(q), Abs(d)); }
  }

  /** The whole elimination: every trailing matrix is dominant, every pivot non-zero, every multiplier below one. */
  lemma {:induction false} DominanceIsKept(A: Matrix, lo: int, hi: int, p: int)
    requires Dominant(A, lo, hi) && lo <= p < hi
    ensures Dominant(Trailing(A, lo, p), p, hi)
    ensures Schur(A, lo, p, p, p) != 0.0
    ensures forall i | p < i < hi :: Abs(Factor(A, lo, i, p)) < 1.0
    decreases p - lo
  {
    var X := Trailing(A, lo, p);
    if p == lo {
      forall j | lo <= j < hi ensures Sum(AbsColumn(X, j), j, lo, hi) < Abs(X(j, j)) {
        SumAtMost(AbsColumn(X, j), AbsColumn(A, j), j, lo, hi);
      }
    } else {
      var q := p - 1;
      DominanceIsKept(A, lo, hi, q);
      var W, m := Trailing(A, lo, q), Packed(A, lo);
      forall j | p <= j < hi ensures Sum(AbsColumn(X, j), j, p, hi) < Abs(X(j, j)) {
        forall i | q < i < hi ensures StepAt(W, X, m, q, j, i) { EliminationStep(A, lo, q, i, j); }
        StepKeepsColumn(W, X, m, q, hi, j);
      }
    }
    assert Sum(AbsColumn(X, p), p, p, hi) < Abs(X(p, p));
    var f := AbsColumn(X, p);
    forall i | p <= i < hi ensures 0.0 <= f(i) { assert f(i) == Abs(X(i, p)); }
    TermAtMostAll(f, p, p, hi);
    forall i | p < i < hi ensures Abs(Factor(A, lo, i, p)) < 1.0 {
      assert f(i) <= Sum(f, p, p, hi);
      SmallQuotient(X(i, p), X(p, p));
    }
  }

  lemma TermAtMostAll(f: int -> real, skip: int, lo: int, hi: int)
    requires lo < hi && forall i | lo <= i < hi :: 0.0 <= f(i)
    ensures 0.0 <= Sum(f, skip, lo, hi)
    ensures forall i | lo <= i < hi && i != skip :: f(i) <= Sum(f, skip, lo, hi)
  {
    SumAtMost(_ => 0.0, f, skip, lo, hi);
    ZeroSum(skip, lo, hi);
    forall i | lo <= i < hi && i != skip ensures f(i) <= Sum(f, skip, lo, hi) { TermAtMost(f, skip, lo, hi, i); }
  }

  /** So the LU variants may be called on any strictly dominant matrix. */
  lemma DominantHasPivots(A: Matrix, lo: int, hi: int)
    requires Dominant(A, lo, hi)
    ensures Pivots(A, lo, hi)
  {
    forall p | lo <= p < hi - 1 ensures Schur(A, lo, p, p, p) != 0.0 { DominanceIsKept(A, lo, hi, p); }
  }

  /** How many of the indices `lo <= i < hi` a sum without `skip` has. */
  function Terms(skip: int, lo: int, hi: int): int { hi - lo - if lo <= skip < hi then 1 else 0 }

  /** Terms of at most one add up to their number exactly when all are one. */
  lemma {:induction false} BoundedSum(f: int -> real, skip: int, lo: int, hi: int)
    requires lo <= hi && forall i | lo <= i < hi && i != skip :: f(i) <= 1.0
    ensures Sum(f, skip, lo, hi) <= Terms(skip, lo, hi) as real
    ensures Sum(f, skip, lo, hi) == Terms(skip, lo, hi) as real <==> forall i | lo <= i < hi && i != skip :: f(i) == 1.0
    decreases hi - lo
  {
    if lo < hi { BoundedSum(f, skip, lo, hi - 1); }
  }
}
