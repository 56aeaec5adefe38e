/** `C := C + A * B`: as a sum of rank-one updates, and blocked in the inner dimension and in the rows. */
module Gemm {
  import opened Matrices

  predicate Conform(a: array2<real>, b: array2<real>, c: array2<real>) {
    && a.Length0 == c.Length0 && a.Length1 == b.Length0 && b.Length1 == c.Length1
    && c != a && c != b
  }

  /** In the rows `i0 <= i < i1` and the first `n` columns, `C'` is `C` plus the products of `A` and `B`
      over the inner indices `p0 <= p < p1`. */
  ghost predicate Added(C': Matrix, C: Matrix, A: Matrix, B: Matrix, i0: int, i1: int, n: int, p0: int, p1: int) {
    forall i, j | i0 <= i < i1 && 0 <= j < n :: C'(i, j) == C(i, j) + Dot(A, B, i, j, p0, p1)
  }

  ghost predicate SameRows(C': Matrix, C: Matrix, i0: int, i1: int, n: int) {
    forall i, j | i0 <= i < i1 && 0 <= j < n :: C'(i, j) == C(i, j)
  }

  /** Two panels of the inner dimension, one after the other, are one panel. */
  lemma PanelsJoin(C: Matrix, C': Matrix, C'': Matrix, A: Matrix, B: Matrix, m: int, n: int, p0: int, p1: int, p2: int)
    requires p0 <= p1 <= p2 && Added(C', C, A, B, 0, m, n, p0, p1) && Added(C'', C', A, B, 0, m, n, p1, p2)
    ensures Added(C'', C, A, B, 0, m, n, p0, p2)
  {
    forall i, j | 0 <= i < m && 0 <= j < n ensures C''(i, j) == C(i, j) + Dot(A, B, i, j, p0, p2) {
      DotSplit(A, B, i, j, p0, p1, p2);
    }
  }

  method DotProduct(a: array2<real>, b: array2<real>, i: int, j: int, p0: int, p1: int) returns (sum: real)
    requires 0 <= i < a.Length0 && 0 <= j < b.Length1 && 0 <= p0 <= p1 <= a.Length1 == b.Length0
    ensures sum == Dot(Snap(a), Snap(b), i, j, p0, p1)
  {
    sum := 0.0;
    for p := p0 to p1
      invariant sum == Dot(Snap(a), Snap(b), i, j, p0, p)
    {
      sum := sum + a[i, p] * b[p, j];
    }
  }

  /** Adds to one entry of `C`. */
  method AddEntry(a: array2<real>, b: array2<real>, c: array2<real>, i: int, j: int, p0: int, p1: int)
    requires Conform(a, b, c) && InBounds(c, i, j) && 0 <= p0 <= p1 <= a.Length1
    modifies c
    ensures forall r, s | InBounds(c, r, s) && !(r == i && s == j) :: c[r, s] == old(c[r, s])
    ensures c[i, j] == old(c[i, j]) + Dot(Snap(a), Snap(b), i, j, p0, p1)
  {
    var sum := DotProduct(a, b, i, j, p0, p1);
    c[i, j] := c[i, j] + sum;
  }

  /** One row of `C1 := C1 + A1 * B`. */
  method AddRow(a: array2<real>, b: array2<real>, c: array2<real>, i: int, p0: int, p1: int)
    requires Conform(a, b, c) && 0 <= i < c.Length0 && 0 <= p0 <= p1 <= a.Length1
    modifies c
    ensures forall r, s | InBounds(c, r, s) && r != i :: c[r, s] == old(c[r, s])
    ensures Added(Snap(c), old(Snap(c)), Snap(a), Snap(b), i, i + 1, c.Length1, p0, p1)
  {
    ghost var A, B, C := Snap(a), Snap(b), Snap(c);
    for j := 0 to c.Length1
      invariant forall r, s | InBounds(c, r, s) && (r != i || j <= s) :: c[r, s] == old(c[r, s])
      invariant Added(Snap(c), C, A, B, i, i + 1, j, p0, p1)
    {
      AddEntry(a, b, c, i, j, p0, p1);
    }
  }

  /** `C1 := C1 + A1 * B` for one block of rows. */
  method Gebp(a: array2<real>, b: array2<real>, c: array2<real>, i0: int, i1: int, p0: int, p1: int)
    requires Conform(a, b, c) && 0 <= i0 <= i1 <= c.Length0 && 0 <= p0 <= p1 <= a.Length1
    modifies c
    ensures SameRows(Snap(c), old(Snap(c)), 0, i0, c.Length1)
    ensures SameRows(Snap(c), old(Snap(c)), i1, c.Length0, c.Length1)
    ensures Added(Snap(c), old(Snap(c)), Snap(a), Snap(b), i0, i1, c.Length1, p0, p1)
  {
    for i := i0 to i1
      invariant SameRows(Snap(c), old(Snap(c)), 0, i0, c.Length1)
      invariant SameRows(Snap(c), old(Snap(c)), i, c.Length0, c.Length1)
      invariant Added(Snap(c), old(Snap(c)), Snap(a), Snap(b), i0, i, c.Length1, p0, p1)
    {
      AddRow(a, b, c, i, p0, p1);
    }
  }

  /** A panel product, one block of rows at a time. */
  method GeppBlkVar1(a: array2<real>, b: array2<real>, c: array2<real>, p0: int, p1: int, nb_alg: int)
    requires Conform(a, b, c) && 0 <= p0 <= p1 <= a.Length1 && 1 <= nb_alg
    modifies c
    ensures Added(Snap(c), old(Snap(c)), Snap(a), Snap(b), 0, c.Length0, c.Length1, p0, p1)
  {
    var i := 0;
    while i < c.Length0
      invariant 0 <= i <= c.Length0
      invariant SameRows(Snap(c), old(Snap(c)), i, c.Length0, c.Length1)
      invariant Added(Snap(c), old(Snap(c)), Snap(a), Snap(b), 0, i, c.Length1, p0, p1)
    {
      var bsize := Min(c.Length0 - i, nb_alg);
      Gebp(a, b, c, i, i + bsize, p0, p1);
      i := i + bsize;
    }
  }

  /** Panels of the inner dimension, whose products are blocked in the rows. */
  method GemmBlkVar1(a: array2<real>, b: array2<real>, c: array2<real>, nb_alg: int)
    requires Conform(a, b, c) && 1 <= nb_alg
    modifies c
    ensures Added(Snap(c), old(Snap(c)), Snap(a), Snap(b), 0, c.Length0, c.Length1, 0, a.Length1)
  {
    var p := 0;
    while p < a.Length1
      invariant 0 <= p <= a.Length1
      invariant Added(Snap(c), old(Snap(c)), Snap(a), Snap(b), 0, c.Length0, c.Length1, 0, p)
    {
      ghost var C := Snap(c);
      var q := p + Min(a.Length1 - p, nb_alg);
      GeppBlkVar1(a, b, c, p, q, nb_alg);
      PanelsJoin(old(Snap(c)), C, Snap(c), Snap(a), Snap(b), c.Length0, c.Length1, 0, p, q);
      p := q;
    }
  }

  /** `C := C + a1 * b1t` for one column of `A` and one row of `B`. */
  method Ger(a: array2<real>, b: array2<real>, c: array2<real>, p: int)
    requires Conform(a, b, c) && 0 <= p < a.Length1
    modifies c
    ensures Added(Snap(c), old(Snap(c)), Snap(a), Snap(b), 0, c.Length0, c.Length1, p, p + 1)
  {
    for i := 0 to c.Length0
      invariant SameRows(Snap(c), old(Snap(c)), i, c.Length0, c.Length1)
      invariant Added(Snap(c), old(Snap(c)), Snap(a), Snap(b), 0, i, c.Length1, p, p + 1)
    {
      AddRow(a, b, c, i, p, p + 1);
    }
  }

  /** A sum of rank-one updates. */
  method GemmUnbVar1(a: array2<real>, b: array2<real>, c: array2<real>)
    requires Conform(a, b, c)
    modifies c
    ensures Added(Snap(c), old(Snap(c)), Snap(a), Snap(b), 0, c.Length0, c.Length1, 0, a.Length1)
  {
    var p := 0;
    while p < a.Length1
      invariant 0 <= p <= a.Length1
      invariant Added(Snap(c), old(Snap(c)), Snap(a), Snap(b), 0, c.Length0, c.Length1, 0, p)
    {
      ghost var C := Snap(c);
      Ger(a, b, c, p);
      PanelsJoin(old(Snap(c)), C, Snap(c), Snap(a), Snap(b), c.Length0, c.Length1, 0, p, p + 1);
      p := p + 1;
    }
  }
}
