/** The reference triple loop on a column-major buffer with leading dimension `ld`. */
module RefLU {
  import opened Matrices
  import opened LUFactors
  import opened LUSteps
  import opened Strided

  /** Entry `(i, j)` of the square matrix lies at `j * ld + i`. */
  function Place(i: int, j: int, ld: int): int { Idx(i, j, 1, ld) }

  ghost predicate InBuffer(len: int, n: int, ld: int) {
    n <= ld && (0 < n ==> (n - 1) * ld + n <= len)
  }

  lemma PlaceInRange(i: int, j: int, len: int, n: nat, ld: int)
    requires InBuffer(len, n, ld) && 0 <= i < n && 0 <= j < n
    ensures 0 <= Place(i, j, ld) < len
  {
    assert (n - 1) * ld - j * ld == (n - 1 - j) * ld >= 0 && j * ld >= 0;
  }

  lemma PlacesDiffer(i: int, j: int, i': int, j': int, n: nat, ld: int)
    requires n <= ld && 0 <= i < n && 0 <= j < n && 0 <= i' < n && j < j' < n
    ensures Place(i, j, ld) < Place(i', j', ld)
  {
    var d := j' - j;
    assert j' * ld == j * ld + d * ld;
    assert d * ld == (d - 1) * ld + ld && (d - 1) * ld >= 0;
  }

  /** A leading dimension of at least `n` keeps the columns apart. */
  lemma ColumnsApart(len: int, n: nat, ld: int)
    requires InBuffer(len, n, ld)
    ensures Layout(len, n, n, 1, ld)
  {
    forall i, j | 0 <= i < n && 0 <= j < n ensures 0 <= Idx(i, j, 1, ld) < len {
      PlaceInRange(i, j, len, n, ld);
    }
    forall i, j, i', j' | 0 <= i < n && 0 <= j < n && 0 <= i' < n && 0 <= j' < n
      ensures Idx(i, j, 1, ld) == Idx(i', j', 1, ld) ==> i == i' && j == j'
    {
      if j < j' { PlacesDiffer(i, j, i', j', n, ld); }
      if j' < j { PlacesDiffer(i', j', i, j, n, ld); }
    }
  }

  /** The matrix in the buffer. */
  ghost function Grid(buf: seq<real>, n: nat, ld: int): (X: Matrix) {
    (i: int, j: int) => if 0 <= i < n && 0 <= j < n && 0 <= Place(i, j, ld) < |buf| then buf[Place(i, j, ld)] else 0.0
  }

  /** The buffer holds the matrix `X` and, outside the matrix, what `was` holds. */
  ghost predicate Stores(buf: seq<real>, X: Matrix, was: seq<real>, n: nat, ld: int) {
    && |buf| == |was| && Layout(|buf|, n, n, 1, ld)
    && (forall i, j {:trigger Place(i, j, ld)} | 0 <= i < n && 0 <= j < n :: buf[Place(i, j, ld)] == X(i, j))
    && (forall y | 0 <= y < |buf| && Padding(y, n, n, 1, ld) :: buf[y] == was[y])
  }

  /** Entry `(i, j)` is the cell `j * ld + i`. */
  lemma GridCells(buf: seq<real>, n: nat, ld: int, i: int, j: int)
    requires InBuffer(|buf|, n, ld) && 0 <= i < n && 0 <= j < n
    ensures 0 <= j * ld + i < |buf| && Grid(buf, n, ld)(i, j) == buf[j * ld + i]
  {
    PlaceInRange(i, j, |buf|, n, ld);
  }

  ghost function Changed(X: Matrix, i: int, j: int, x: real): Matrix {
    (r: int, c: int) => if r == i && c == j then x else X(r, c)
  }

  /** Reading `AA(i, j)`. */
  method Get(buf: array<real>, n: nat, ld: int, i: int, j: int, ghost X: Matrix, ghost was: seq<real>) returns (x: real)
    requires 0 <= i < n && 0 <= j < n && Stores(buf[..], X, was, n, ld)
    ensures x == X(i, j)
  {
    x := buf[Place(i, j, ld)];
  }

  /** Assigning `AA(i, j)` changes that entry of the matrix and nothing else. */
  method Set(buf: array<real>, n: nat, ld: int, i: int, j: int, x: real, ghost X: Matrix, ghost was: seq<real>)
    requires 0 <= i < n && 0 <= j < n && Stores(buf[..], X, was, n, ld)
    modifies buf
    ensures Stores(buf[..], Changed(X, i, j, x), was, n, ld)
  {
    buf[Place(i, j, ld)] := x;
  }

  /** `a21 := a21 / alpha11`. */
  method ScaleColumn(buf: array<real>, n: nat, ld: int, j: int, ghost X: Matrix, ghost was: seq<real>)
    returns (ghost Y: Matrix, ghost ops: nat)
    requires 0 <= j < n && Stores(buf[..], X, was, n, ld)
    requires j < n - 1 ==> X(j, j) != 0.0
    modifies buf
    ensures Stores(buf[..], Y, was, n, ld) && ops == n - 1 - j
    ensures forall r, c | 0 <= r < n && 0 <= c < n ::
      Y(r, c) == if j < r && c == j then Quotient(X(r, j), X(j, j)) else X(r, c)
  {
    Y, ops := X, 0;
    for i := j + 1 to n
      invariant Stores(buf[..], Y, was, n, ld) && ops == i - j - 1
      invariant forall r, c | 0 <= r < n && 0 <= c < n ::
        Y(r, c) == if j < r < i && c == j then Quotient(X(r, j), X(j, j)) else X(r, c)
    {
      var x := Get(buf, n, ld, i, j, Y, was);
      var d := Get(buf, n, ld, j, j, Y, was);
      Set(buf, n, ld, i, j, x / d, Y, was);
      Y, ops := Changed(Y, i, j, x / d), ops + 1;
    }
  }

  /** Column `k` of `A22 := A22 - a21 * a12t`. */
  method UpdateOneColumn(buf: array<real>, n: nat, ld: int, j: int, k: int, ghost X: Matrix, ghost was: seq<real>)
    returns (ghost Y: Matrix, ghost ops: nat)
    requires 0 <= j < k < n && Stores(buf[..], X, was, n, ld)
    modifies buf
    ensures Stores(buf[..], Y, was, n, ld) && ops == 2 * (n - 1 - j)
    ensures forall r, c | 0 <= r < n && 0 <= c < n ::
      Y(r, c) == if j < r && c == k then X(r, k) - X(r, j) * X(j, k) else X(r, c)
  {
    Y, ops := X, 0;
    for i := j + 1 to n
      invariant Stores(buf[..], Y, was, n, ld) && ops == 2 * (i - j - 1)
      invariant forall r, c | 0 <= r < n && 0 <= c < n ::
        Y(r, c) == if j < r < i && c == k then X(r, k) - X(r, j) * X(j, k) else X(r, c)
    {
      var x := Get(buf, n, ld, i, k, Y, was);
      var l := Get(buf, n, ld, i, j, Y, was);
      var u := Get(buf, n, ld, j, k, Y, was);
      Set(buf, n, ld, i, k, x - l * u, Y, was);
      Y, ops := Changed(Y, i, k, x - l * u), ops + 2;
    }
  }

  /** `A22 := A22 - a21 * a12t`. */
  method UpdateTrailing(buf: array<real>, n: nat, ld: int, j: int, ghost X: Matrix, ghost was: seq<real>)
    returns (ghost Y: Matrix, ghost ops: nat)
    requires 0 <= j < n && Stores(buf[..], X, was, n, ld)
    modifies buf
    ensures Stores(buf[..], Y, was, n, ld) && ops == 2 * (n - 1 - j) * (n - 1 - j)
    ensures forall r, c | 0 <= r < n && 0 <= c < n ::
      Y(r, c) == if j < r && j < c then X(r, c) - X(r, j) * X(j, c) else X(r, c)
  {
    ghost var perColumn := 2 * (n - 1 - j);
    Y, ops := X, 0;
    for k := j + 1 to n
      invariant Stores(buf[..], Y, was, n, ld) && ops == perColumn * (k - j - 1)
      invariant forall r, c | 0 <= r < n && 0 <= c < n ::
        Y(r, c) == if j < r && j < c < k then X(r, c) - X(r, j) * X(j, c) else X(r, c)
    {
      ghost var more;
      Y, more := UpdateOneColumn(buf, n, ld, j, k, Y, was);
      assert perColumn * (k - j - 1) + perColumn == perColumn * (k + 1 - j - 1);
      ops := ops + more;
    }
  }

  /** One pass of the outer loop is one step of right-looking elimination. */
  lemma RightLookingStep(A: Matrix, X: Matrix, Y: Matrix, Z: Matrix, n: nat, j: nat)
    requires j < n && Pivots(A, 0, n)
    requires forall r, c | 0 <= r < n && 0 <= c < n :: X(r, c) == Stage(RightLooking, A, 0, n, j, r, c)
    requires forall r, c | 0 <= r < n && 0 <= c < n ::
      Y(r, c) == if j < r && c == j then Quotient(X(r, j), X(j, j)) else X(r, c)
    requires forall r, c | 0 <= r < n && 0 <= c < n ::
      Z(r, c) == if j < r && j < c then Y(r, c) - Y(r, j) * Y(j, c) else Y(r, c)
    ensures forall r, c | 0 <= r < n && 0 <= c < n :: Z(r, c) == Stage(RightLooking, A, 0, n, j + 1, r, c)
  {
    assert X(j, j) == Schur(A, 0, j, j, j);
    forall r, c | 0 <= r < n && 0 <= c < n ensures Z(r, c) == Stage(RightLooking, A, 0, n, j + 1, r, c) {
      if j < r && j < c {
        assert Y(r, j) == Factor(A, 0, r, j) && Y(j, c) == Factor(A, 0, j, c) && Y(r, c) == Schur(A, 0, j, r, c);
      }
    }
  }

  lemma StepCost(r: int, total: int, ops: int, step: int)
    requires 6 * ops == total - r * (r - 1) * (4 * r + 1)
    requires step == (r - 1) + 2 * (r - 1) * (r - 1)
    ensures 6 * (ops + step) == total - (r - 1) * (r - 2) * (4 * (r - 1) + 1)
  {
    assert r * (r - 1) * (4 * r + 1) - (r - 1) * (r - 2) * (4 * (r - 1) + 1) == 6 * (r - 1) * (2 * r - 1);
    assert 6 * step == 6 * (r - 1) * (2 * r - 1);
  }

  /** The outer loop, on the matrix that the buffer stores. */
  method EliminateAll(buf: array<real>, n: nat, ld: int, ghost A: Matrix, ghost was: seq<real>)
    returns (ghost X: Matrix, ghost ops: nat)
    requires Stores(buf[..], A, was, n, ld) && Pivots(A, 0, n)
    modifies buf
    ensures Stores(buf[..], X, was, n, ld)
    ensures forall i, j | 0 <= i < n && 0 <= j < n :: X(i, j) == Factor(A, 0, i, j)
    ensures 6 * ops == n * (n - 1) * (4 * n + 1)
  {
    ghost var total := n * (n - 1) * (4 * n + 1);
    X, ops := A, 0;
    for j := 0 to n
      invariant Stores(buf[..], X, was, n, ld)
      invariant forall r, c | 0 <= r < n && 0 <= c < n :: X(r, c) == Stage(RightLooking, A, 0, n, j, r, c)
      invariant 6 * ops == total - (n - j) * (n - j - 1) * (4 * (n - j) + 1)
    {
      assert j < n - 1 ==> X(j, j) == Schur(A, 0, j, j, j);
      ghost var Y, Z, ops1, ops2;
      Y, ops1 := ScaleColumn(buf, n, ld, j, X, was);
      Z, ops2 := UpdateTrailing(buf, n, ld, j, Y, was);
      RightLookingStep(A, X, Y, Z, n, j);
      StepCost(n - j, total, ops, ops1 + ops2);
      X, ops := Z, ops + ops1 + ops2;
    }
  }

  /** The reference loop leaves the packed factors, touches no padding, and executes
      `n (n - 1) (4 n + 1) / 6` operations. */
  method RefLU(buf: array<real>, n: nat, ld: int) returns (ghost ops: nat)
    requires InBuffer(buf.Length, n, ld) && Pivots(Grid(buf[..], n, ld), 0, n)
    modifies buf
    ensures forall i, j | 0 <= i < n && 0 <= j < n ::
      && 0 <= j * ld + i < buf.Length
      && buf[j * ld + i] == Grid(buf[..], n, ld)(i, j) == Factor(old(Grid(buf[..], n, ld)), 0, i, j)
    ensures forall y | 0 <= y < buf.Length && Padding(y, n, n, 1, ld) :: buf[y] == old(buf[y])
    ensures 6 * ops == n * (n - 1) * (4 * n + 1)
  {
    ColumnsApart(buf.Length, n, ld);
    ghost var A := Grid(buf[..], n, ld);
    GridStored(buf[..], n, ld);
    ghost var X;
    X, ops := EliminateAll(buf, n, ld, A, buf[..]);
    StoredGrid(buf[..], X, old(buf[..]), n, ld);
    forall i, j | 0 <= i < n && 0 <= j < n
      ensures 0 <= j * ld + i < buf.Length && buf[j * ld + i] == Grid(buf[..], n, ld)(i, j)
    {
      GridCells(buf[..], n, ld, i, j);
    }
  }

  /** The variants and the reference loop leave equal entries on equal matrices: `F` is the matrix in the
      buffer after the loop, `B` the one before it. */
  lemma AgreesWithReference(a: array2<real>, A: Matrix, B: Matrix, F: Matrix, n: nat)
    requires Square(a, 0, n) && SameBlock(A, B, 0, n) && Replaced(a, A, 0, n)
    requires forall i, j | 0 <= i < n && 0 <= j < n :: F(i, j) == Factor(B, 0, i, j)
    ensures forall i, j | 0 <= i < n && 0 <= j < n :: a[i, j] == F(i, j)
  {
    forall i, j | 0 <= i < n && 0 <= j < n ensures a[i, j] == F(i, j) { FactorOfSchur(A, B, 0, 0, n, i, j); }
  }

  /** The driver counts `2 n^3 / 3` operations, which is `(3 n^2 + n) / 6` too many. */
  lemma DriverCount(n: nat, ops: nat)
    requires 6 * ops == n * (n - 1) * (4 * n + 1)
    ensures 4 * (n * n * n) - 6 * ops == 3 * (n * n) + n
  {
    assert n * (n - 1) * (4 * n + 1) == n * ((n - 1) * (4 * n + 1));
    assert (n - 1) * (4 * n + 1) == 4 * (n * n) - 3 * n - 1;
    assert n * (4 * (n * n) - 3 * n - 1) == 4 * (n * n * n) - 3 * (n * n) - n;
  }

  lemma GridStored(buf: seq<real>, n: nat, ld: int)
    requires Layout(|buf|, n, n, 1, ld)
    ensures Stores(buf, Grid(buf, n, ld), buf, n, ld)
  {
  }

  lemma StoredGrid(buf: seq<real>, X: Matrix, was: seq<real>, n: nat, ld: int)
    requires Stores(buf, X, was, n, ld)
    ensures forall i, j | 0 <= i < n && 0 <= j < n :: Grid(buf, n, ld)(i, j) == X(i, j)
  {
    forall i, j | 0 <= i < n && 0 <= j < n ensures Grid(buf, n, ld)(i, j) == X(i, j) {
      assert buf[Place(i, j, ld)] == X(i, j);
    }
  }
}
