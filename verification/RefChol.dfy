/** The reference triple loop for Cholesky, as it is written: it updates with an entry of the upper
    triangle, which it never computes. It is followed up to the first number that has no root. */
module RefChol {
  import opened Matrices
  import opened LUFactors
  import opened CholFactors
  import opened RefLU
  import opened Strided

  /** What the loop has made of entry `(i, k)` of the lower triangle after `p` passes, when column `k` is not
      yet final. */
  ghost function RefRest(A: Matrix, sqrt: real -> real, p: int, i: int, k: int): real
    requires 0 <= p <= k <= i
    decreases p, 0, 0
  {
    if p == 0 then A(i, k) else RefRest(A, sqrt, p - 1, i, k) - RefEntry(A, sqrt, i, p - 1) * A(p - 1, k)
  }

  /** What the loop leaves at entry `(i, k)` of the lower triangle. */
  ghost function RefEntry(A: Matrix, sqrt: real -> real, i: int, k: int): real
    requires 0 <= k <= i
    decreases k, 1, i - k
  {
    if i == k then sqrt(RefRest(A, sqrt, k, k, k))
    else Quotient(RefRest(A, sqrt, k, i, k), RefEntry(A, sqrt, k, k))
  }

  /** Every number whose root the first `n` passes take is positive. */
  ghost predicate RootsExist(A: Matrix, sqrt: real -> real, n: int) {
    forall k | 0 <= k < n :: 0.0 < RefRest(A, sqrt, k, k, k)
  }

  // ----- The loop -----

  ghost function RefStage(A: Matrix, sqrt: real -> real, j: nat, r: int, c: int): real {
    if !(0 <= c <= r) then A(r, c)
    else if c < j then RefEntry(A, sqrt, r, c)
    else RefRest(A, sqrt, j, r, c)
  }

  ghost predicate AtStage(X: Matrix, A: Matrix, sqrt: real -> real, n: nat, j: nat) {
    forall r, c | 0 <= r < n && 0 <= c < n :: X(r, c) == RefStage(A, sqrt, j, r, c)
  }

  /** Column `k` of `A22 := A22 - a21 * a21'`, with `AA(j, k)` in place of `AA(k, j)`. */
  method UpdateLowerColumn(buf: array<real>, n: nat, ld: int, j: int, k: int, ghost X: Matrix, ghost was: seq<real>)
    returns (ghost Y: Matrix)
    requires 0 <= j < k < n && Stores(buf[..], X, was, n, ld)
    modifies buf
    ensures Stores(buf[..], Y, was, n, ld)
    ensures forall r, c | 0 <= r < n && 0 <= c < n ::
      Y(r, c) == if k <= r && c == k then X(r, k) - X(r, j) * X(j, k) else X(r, c)
  {
    Y := X;
    for i := k to n
      invariant Stores(buf[..], Y, was, n, ld)
      invariant forall r, c | 0 <= r < n && 0 <= c < n ::
        Y(r, c) == if k <= r < i && c == k then X(r, k) - X(r, j) * X(j, k) else X(r, c)
    {
      var x := Get(buf, n, ld, i, k, Y, was);
      var l := Get(buf, n, ld, i, j, Y, was);
      var u := Get(buf, n, ld, j, k, Y, was);
      Set(buf, n, ld, i, k, x - l * u, Y, was);
      Y := Changed(Y, i, k, x - l * u);
    }
  }

  method UpdateLower(buf: array<real>, n: nat, ld: int, j: int, ghost X: Matrix, ghost was: seq<real>)
    returns (ghost Y: Matrix)
    requires 0 <= j < n && Stores(buf[..], X, was, n, ld)
    modifies buf
    ensures Stores(buf[..], Y, was, n, ld)
    ensures forall r, c | 0 <= r < n && 0 <= c < n ::
      Y(r, c) == if j < c <= r then X(r, c) - X(r, j) * X(j, c) else X(r, c)
  {
    Y := X;
    for k := j + 1 to n
      invariant Stores(buf[..], Y, was, n, ld)
      invariant forall r, c | 0 <= r < n && 0 <= c < n ::
        Y(r, c) == if j < c < k && c <= r then X(r, c) - X(r, j) * X(j, c) else X(r, c)
    {
      Y := UpdateLowerColumn(buf, n, ld, j, k, Y, was);
    }
  }

  /** One pass of the outer loop takes the matrix to the next stage. */
  lemma NextStage(A: Matrix, sqrt: real -> real, X: Matrix, V: Matrix, Y: Matrix, Z: Matrix, n: nat, j: nat)
    requires j < n && AtStage(X, A, sqrt, n, j)
    requires forall r, c | 0 <= r < n && 0 <= c < n :: V(r, c) == if r == j && c == j then sqrt(X(j, j)) else X(r, c)
    requires forall r, c | 0 <= r < n && 0 <= c < n ::
      Y(r, c) == if j < r && c == j then Quotient(V(r, j), V(j, j)) else V(r, c)
    requires forall r, c | 0 <= r < n && 0 <= c < n ::
      Z(r, c) == if j < c <= r then Y(r, c) - Y(r, j) * Y(j, c) else Y(r, c)
    ensures AtStage(Z, A, sqrt, n, j + 1)
  {
    assert X(j, j) == RefRest(A, sqrt, j, j, j) && V(j, j) == RefEntry(A, sqrt, j, j);
    forall r | j <= r < n ensures Y(r, j) == RefEntry(A, sqrt, r, j) {
      assert X(r, j) == RefRest(A, sqrt, j, r, j);
    }
    forall r, c | 0 <= r < n && 0 <= c < n ensures Z(r, c) == RefStage(A, sqrt, j + 1, r, c) {
      if j < c <= r {
        assert Y(j, c) == X(j, c) == A(j, c) && Y(r, c) == X(r, c) == RefRest(A, sqrt, j, r, c);
        SameProduct(Y(r, j), Y(j, c), RefEntry(A, sqrt, r, j), A(j, c));
        assert RefRest(A, sqrt, j + 1, r, c) == RefRest(A, sqrt, j, r, c) - RefEntry(A, sqrt, r, j) * A(j, c);
      } else if c == j && j <= r {
        assert Z(r, c) == Y(r, j);
      } else {
        assert Z(r, c) == X(r, c);
      }
    }
  }

  /** One pass; it reports whether the root exists. */
  method Pass(buf: array<real>, n: nat, ld: int, sqrt: real -> real, j: nat, ghost A: Matrix, ghost X: Matrix,
              ghost was: seq<real>)
    returns (ok: bool, ghost Z: Matrix)
    requires j < n && IsSqrt(sqrt) && Stores(buf[..], X, was, n, ld) && AtStage(X, A, sqrt, n, j)
    modifies buf
    ensures Stores(buf[..], Z, was, n, ld)
    ensures ok <==> 0.0 < RefRest(A, sqrt, j, j, j)
    ensures ok ==> AtStage(Z, A, sqrt, n, j + 1)
  {
    var d := Get(buf, n, ld, j, j, X, was);
    assert d == RefRest(A, sqrt, j, j, j);
    if d <= 0.0 { return false, X; }
    assert IsRootOf(sqrt(d), d);
    Set(buf, n, ld, j, j, sqrt(d), X, was);
    ghost var V, Y, ops := Changed(X, j, j, sqrt(d)), X, 0;
    Y, ops := ScaleColumn(buf, n, ld, j, V, was);
    Z := UpdateLower(buf, n, ld, j, Y, was);
    NextStage(A, sqrt, X, V, Y, Z, n, j);
    ok := true;
  }

  method Passes(buf: array<real>, n: nat, ld: int, sqrt: real -> real, ghost A: Matrix, ghost was: seq<real>)
    returns (ok: bool, ghost X: Matrix)
    requires IsSqrt(sqrt) && Stores(buf[..], A, was, n, ld)
    modifies buf
    ensures Stores(buf[..], X, was, n, ld)
    ensures ok <==> RootsExist(A, sqrt, n)
    ensures ok ==> AtStage(X, A, sqrt, n, n)
  {
    X, ok := A, true;
    for j := 0 to n
      invariant Stores(buf[..], X, was, n, ld) && ok
      invariant AtStage(X, A, sqrt, n, j) && RootsExist(A, sqrt, j)
    {
      ok, X := Pass(buf, n, ld, sqrt, j, A, X, was);
      if !ok { return; }
    }
  }

  /** The lower triangle becomes what the loop makes of it; the upper triangle and the padding stay. */
  method RefChol(buf: array<real>, n: nat, ld: int, sqrt: real -> real) returns (ok: bool)
    requires InBuffer(buf.Length, n, ld) && IsSqrt(sqrt)
    modifies buf
    ensures ok <==> RootsExist(old(Grid(buf[..], n, ld)), sqrt, n)
    ensures ok ==> forall i, j | 0 <= i < n && 0 <= j < n ::
      && 0 <= j * ld + i < buf.Length && buf[j * ld + i] == Grid(buf[..], n, ld)(i, j)
      && Grid(buf[..], n, ld)(i, j)
        == if j <= i then RefEntry(old(Grid(buf[..], n, ld)), sqrt, i, j) else old(Grid(buf[..], n, ld))(i, j)
    ensures forall y | 0 <= y < buf.Length && Padding(y, n, n, 1, ld) :: buf[y] == old(buf[y])
  {
    ColumnsApart(buf.Length, n, ld);
    ghost var A := Grid(buf[..], n, ld);
    GridStored(buf[..], n, ld);
    ghost var X;
    ok, X := Passes(buf, n, ld, sqrt, A, buf[..]);
    StoredGrid(buf[..], X, old(buf[..]), n, ld);
    forall i, j | 0 <= i < n && 0 <= j < n
      ensures 0 <= j * ld + i < buf.Length && buf[j * ld + i] == Grid(buf[..], n, ld)(i, j)
    {
      GridCells(buf[..], n, ld, i, j);
    }
  }

  // ----- When this is the Cholesky factor -----

  /** How far the upper triangle is from the transposed factor. */
  ghost function Difference(A: Matrix, sqrt: real -> real): Matrix {
    (j: int, k: int) => if 0 <= j <= k then A(j, k) - Chol(A, sqrt, 0, k, j) else 0.0
  }

  /** For every entry of the lower triangle, the differences above its column add up to nothing against its row
      of the factor. */
  ghost predicate Balanced(A: Matrix, sqrt: real -> real, n: nat) {
    forall i, k | 0 <= k <= i < n :: Dot(CholMatrix(A, sqrt, 0), Difference(A, sqrt), i, k, 0, k) == 0.0
  }

  ghost predicate Matches(A: Matrix, sqrt: real -> real, n: nat) {
    && RootsExist(A, sqrt, n)
    && forall i, k | 0 <= k <= i < n :: RefEntry(A, sqrt, i, k) == Chol(A, sqrt, 0, i, k)
  }

  /** Where the row agrees so far, the loop is off by what the differences contribute. */
  lemma {:induction false} RestGap(A: Matrix, sqrt: real -> real, p: int, i: int, k: int)
    requires 0 <= p <= k <= i
    requires forall q | 0 <= q < p :: RefEntry(A, sqrt, i, q) == Chol(A, sqrt, 0, i, q)
    ensures RefRest(A, sqrt, p, i, k)
         == Rest(A, sqrt, 0, p, i, k) - Dot(CholMatrix(A, sqrt, 0), Difference(A, sqrt), i, k, 0, p)
    decreases p
  {
    if 0 < p {
      RestGap(A, sqrt, p - 1, i, k);
      GapStep(RefEntry(A, sqrt, i, p - 1), Chol(A, sqrt, 0, i, p - 1), A(p - 1, k), Chol(A, sqrt, 0, k, p - 1),
              Difference(A, sqrt)(p - 1, k));
    }
  }

  lemma GapStep(e: real, l: real, u: real, l': real, d: real)
    requires e == l && d == u - l'
    ensures e * u == l * l' + l * d
  {
  }

  lemma {:induction false} BalancedColumn(A: Matrix, sqrt: real -> real, n: nat, i: int, k: int)
    requires IsSqrt(sqrt) && PositivePivots(A, sqrt, 0, n) && Balanced(A, sqrt, n) && 0 <= k <= i < n
    ensures RefRest(A, sqrt, k, i, k) == Rest(A, sqrt, 0, k, i, k)
    ensures RefEntry(A, sqrt, i, k) == Chol(A, sqrt, 0, i, k)
    decreases k, i - k
  {
    forall q | 0 <= q < k ensures RefEntry(A, sqrt, i, q) == Chol(A, sqrt, 0, i, q) {
      BalancedColumn(A, sqrt, n, i, q);
    }
    RestGap(A, sqrt, k, i, k);
    if k < i { BalancedColumn(A, sqrt, n, k, k); }
  }

  lemma SameRoot(sqrt: real -> real, x: real, y: real)
    requires IsSqrt(sqrt) && 0.0 < x && 0.0 < y && sqrt(x) == sqrt(y)
    ensures x == y
  {
    assert IsRootOf(sqrt(x), x) && IsRootOf(sqrt(y), y);
  }

  lemma SameQuotient(x: real, y: real, d: real)
    requires d != 0.0 && Quotient(x, d) == Quotient(y, d)
    ensures x == y
  {
    QuotientCancels(x, d);
    QuotientCancels(y, d);
  }

  lemma MatchesBalanced(A: Matrix, sqrt: real -> real, n: nat, i: int, k: int)
    requires IsSqrt(sqrt) && PositivePivots(A, sqrt, 0, n) && Matches(A, sqrt, n) && 0 <= k <= i < n
    ensures Dot(CholMatrix(A, sqrt, 0), Difference(A, sqrt), i, k, 0, k) == 0.0
  {
    RestGap(A, sqrt, k, i, k);
    assert RefEntry(A, sqrt, i, k) == Chol(A, sqrt, 0, i, k) && RefEntry(A, sqrt, k, k) == Chol(A, sqrt, 0, k, k);
    if i == k {
      SameRoot(sqrt, RefRest(A, sqrt, k, k, k), Rest(A, sqrt, 0, k, k, k));
    } else {
      PivotRoot(A, sqrt, 0, k);
      SameQuotient(RefRest(A, sqrt, k, i, k), Rest(A, sqrt, 0, k, i, k), Chol(A, sqrt, 0, k, k));
    }
  }

  /** On a positive definite matrix, the loop takes every root and leaves the factor if and only if the
      upper triangle it reads is balanced. */
  lemma MatchesIffBalanced(A: Matrix, sqrt: real -> real, n: nat)
    requires IsSqrt(sqrt) && PositivePivots(A, sqrt, 0, n)
    ensures Matches(A, sqrt, n) <==> Balanced(A, sqrt, n)
  {
    if Balanced(A, sqrt, n) {
      forall k | 0 <= k < n ensures 0.0 < RefRest(A, sqrt, k, k, k) { BalancedColumn(A, sqrt, n, k, k); }
      forall i, k | 0 <= k <= i < n ensures RefEntry(A, sqrt, i, k) == Chol(A, sqrt, 0, i, k) {
        BalancedColumn(A, sqrt, n, i, k);
      }
    }
    if Matches(A, sqrt, n) {
      forall i, k | 0 <= k <= i < n
        ensures Dot(CholMatrix(A, sqrt, 0), Difference(A, sqrt), i, k, 0, k) == 0.0
      {
        MatchesBalanced(A, sqrt, n, i, k);
      }
    }
  }

  /** A symmetric positive definite matrix, stored in full, on which the loop does not leave the factor. */
  lemma FullStorageFails(A: Matrix, sqrt: real -> real)
    requires IsSqrt(sqrt) && A(0, 0) == 4.0 && A(0, 1) == 2.0 && A(1, 0) == 2.0 && A(1, 1) == 5.0
    ensures PositivePivots(A, sqrt, 0, 2) && !Matches(A, sqrt, 2)
  {
    RootIsUnique(sqrt, 2.0, 4.0);
    QuotientIs(2.0, 1.0, 2.0);
    assert Chol(A, sqrt, 0, 0, 0) == 2.0 && Chol(A, sqrt, 0, 1, 0) == 1.0;
    assert Rest(A, sqrt, 0, 1, 1, 1) == A(1, 1) - Chol(A, sqrt, 0, 1, 0) * Chol(A, sqrt, 0, 1, 0) == 4.0;
    assert RefEntry(A, sqrt, 1, 0) == 1.0;
    assert RefRest(A, sqrt, 1, 1, 1) == A(1, 1) - RefEntry(A, sqrt, 1, 0) * A(0, 1) == 3.0;
    if Matches(A, sqrt, 2) {
      assert RefEntry(A, sqrt, 1, 1) == Chol(A, sqrt, 0, 1, 1);
      SameRoot(sqrt, 3.0, 4.0);
    }
  }
}
