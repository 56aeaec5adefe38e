/** What applying the sets of rotations means as a matrix product: the result is `A * Q`, where the
    rows of `Q` are the images of the unit rows; with true Givens rotations `Q` is orthogonal. */
module Orthogonal {
  import opened Rotations
  import opened Schedule

  ghost function RowDot(x: seq<real>, y: seq<real>, n: nat): real
    requires n <= |x| && n <= |y|
  {
    if n == 0 then 0.0 else RowDot(x, y, n - 1) + x[n - 1] * y[n - 1]
  }

  lemma {:induction false} RowDotSame(x: seq<real>, y: seq<real>, x': seq<real>, y': seq<real>, n: nat)
    requires n <= |x| && n <= |y| && n <= |x'| && n <= |y'|
    requires forall i | 0 <= i < n :: x[i] == x'[i] && y[i] == y'[i]
    ensures RowDot(x, y, n) == RowDot(x', y', n)
  {
    if n > 0 { RowDotSame(x, y, x', y', n - 1); }
  }

  /** In one plane: `(a, b)` and `(c, d)` are rotated to `(a', b')` and `(c', d')`. */
  lemma RotationKeepsPlaneProduct(r: Rotation, a: real, b: real, c: real, d: real,
                                  a': real, b': real, c': real, d': real)
    requires r.IsGivens() && a' == r.Left(a, b) && b' == r.Right(a, b) && c' == r.Left(c, d) && d' == r.Right(c, d)
    ensures a' * c' + b' * d' == a * c + b * d
  {
    var g, s := r.gamma, r.sigma;
    assert a' * c' == g * g * (a * c) + g * s * (a * d) + s * g * (b * c) + s * s * (b * d);
    assert b' * d' == s * s * (a * c) - s * g * (a * d) - g * s * (b * c) + g * g * (b * d);
    assert (g * g + s * s) * (a * c) + (g * g + s * s) * (b * d) == a * c + b * d;
  }

  /** One more term, with factors `a` and `b`. */
  lemma RowDotLast(x: seq<real>, y: seq<real>, n: nat, a: real, b: real)
    requires n < |x| && n < |y| && a == x[n] && b == y[n]
    ensures RowDot(x, y, n + 1) == RowDot(x, y, n) + a * b
  {
  }

  lemma {:induction false} RotationKeepsDot(r: Rotation, x: seq<real>, y: seq<real>, g: int, n: nat)
    requires r.IsGivens() && 0 <= g && g + 1 < |x| == |y| && n <= |x| && n != g + 1
    ensures RowDot(Rotate(r, x, g), Rotate(r, y, g), n) == RowDot(x, y, n)
  {
    var x', y' := Rotate(r, x, g), Rotate(r, y, g);
    if n <= g {
      RowDotSame(x', y', x, y, n);
    } else if n == g + 2 {
      RowDotSame(x', y', x, y, g);
      var a, b, c, d := x[g], x[g + 1], y[g], y[g + 1];
      var a', b', c', d' := x'[g], x'[g + 1], y'[g], y'[g + 1];
      RotationKeepsPlaneProduct(r, a, b, c, d, a', b', c', d');
      RowDotLast(x, y, g, a, c);
      RowDotLast(x, y, g + 1, b, d);
      RowDotLast(x', y', g, a', c');
      RowDotLast(x', y', g + 1, b', d');
    } else {
      RotationKeepsDot(r, x, y, g, n - 1);
      RowDotLast(x, y, n - 1, x[n - 1], y[n - 1]);
      RowDotLast(x', y', n - 1, x[n - 1], y[n - 1]);
    }
  }

  lemma {:induction false} RunKeepsDot(G: RotationSets, nG: int, x: seq<real>, y: seq<real>, tr: Trace)
    requires Fits(G, nG) && |x| == |y| == nG + 1 && Inside(tr, nG, |G|) && AllGivens(G, nG)
    ensures RowDot(Run(G, nG, x, tr), Run(G, nG, y, tr), nG + 1) == RowDot(x, y, nG + 1)
  {
    if tr.Then? {
      RunKeepsDot(G, nG, x, y, tr.before);
      var c := tr.last;
      RotationKeepsDot(G[c.k][c.g], Run(G, nG, x, tr.before), Run(G, nG, y, tr.before), c.g, nG + 1);
    }
  }

  /** The routine keeps the inner product of any two rows; in particular the sum of squares of each. */
  lemma ApplySetsKeepsDot(G: RotationSets, nG: nat, x: seq<real>, y: seq<real>)
    requires Fits(G, nG) && |x| == |y| == nG + 1 && AllGivens(G, nG)
    ensures RowDot(ApplySets(G, nG, x, |G|), ApplySets(G, nG, y, |G|), nG + 1) == RowDot(x, y, nG + 1)
  {
    var tr := NaivePrefix(G, nG, x, |G|, 0);
    ScheduleMeaning(Naive, G, nG, y, tr);
    RunKeepsDot(G, nG, x, y, tr);
  }

  // ----- The product with Q -----

  ghost function Unit(n: nat, i: int): (e: seq<real>)
    ensures |e| == n
  {
    seq(n, j => if i == j then 1.0 else 0.0)
  }

  /** Row `i` of `Q`: the image of row `i` of the identity. */
  ghost function QRow(G: RotationSets, nG: nat, i: int): (row: seq<real>)
    requires Fits(G, nG)
    ensures |row| == nG + 1
  {
    ApplySets(G, nG, Unit(nG + 1, i), |G|)
  }

  /** Entry `j` of the first `n` terms of `row * Q`, for a given matrix `Q`. */
  ghost function Product(row: seq<real>, Q: seq<seq<real>>, j: int, n: nat): real
    requires n <= |row| && n <= |Q| && 0 <= j && forall i | 0 <= i < |Q| :: j < |Q[i]|
  {
    if n == 0 then 0.0 else Product(row, Q, j, n - 1) + row[n - 1] * Q[n - 1][j]
  }

  ghost function Images(G: RotationSets, nG: nat, tr: Trace): (Q: seq<seq<real>>)
    requires Fits(G, nG) && Inside(tr, nG, |G|)
    ensures |Q| == nG + 1 && forall i | 0 <= i <= nG :: |Q[i]| == nG + 1 && Q[i] == Run(G, nG, Unit(nG + 1, i), tr)
  {
    seq(nG + 1, i requires 0 <= i < nG + 1 => Run(G, nG, Unit(nG + 1, i), tr))
  }

  lemma {:induction false} ProductWithIdentity(row: seq<real>, Q: seq<seq<real>>, j: int, n: nat)
    requires n <= |row| == |Q| && 0 <= j < |row| && forall i | 0 <= i < |Q| :: |Q[i]| == |row| && Q[i] == Unit(|row|, i)
    ensures Product(row, Q, j, n) == if j < n then row[j] else 0.0
  {
    if n > 0 {
      ProductWithIdentity(row, Q, j, n - 1);
      assert Q[n - 1][j] == if n - 1 == j then 1.0 else 0.0;
    }
  }

  /** Mixing two columns of `Q` mixes the two entries of the product in the same way. */
  lemma {:induction false} ProductIsLinear(row: seq<real>, P: seq<seq<real>>, Q: seq<seq<real>>, j: int, g: int,
                                           a: real, b: real, n: nat)
    requires n <= |row| == |P| == |Q| && 0 <= j < |row| && 0 <= g && g + 1 < |row|
    requires forall i | 0 <= i < |row| :: |P[i]| == |Q[i]| == |row|
    requires forall i | 0 <= i < |row| :: Q[i][j] == a * P[i][g] + b * P[i][g + 1]
    ensures Product(row, Q, j, n) == a * Product(row, P, g, n) + b * Product(row, P, g + 1, n)
  {
    if n > 0 {
      ProductIsLinear(row, P, Q, j, g, a, b, n - 1);
      var x, u, v := row[n - 1], P[n - 1][g], P[n - 1][g + 1];
      assert x * (a * u + b * v) == a * (x * u) + b * (x * v);
    }
  }

  lemma {:induction false} ProductSame(row: seq<real>, P: seq<seq<real>>, Q: seq<seq<real>>, j: int, n: nat)
    requires n <= |row| == |P| == |Q| && 0 <= j < |row|
    requires forall i | 0 <= i < |row| :: |P[i]| == |Q[i]| == |row| && P[i][j] == Q[i][j]
    ensures Product(row, P, j, n) == Product(row, Q, j, n)
  {
    if n > 0 { ProductSame(row, P, Q, j, n - 1); }
  }

  /** `X` is the product of `row` and the matrix `P`. */
  ghost predicate IsProduct(X: seq<real>, row: seq<real>, P: seq<seq<real>>) {
    && |X| == |row| == |P| && (forall i | 0 <= i < |P| :: |P[i]| == |row|)
    && forall j | 0 <= j < |row| :: X[j] == Product(row, P, j, |row|)
  }

  lemma RotateProduct(r: Rotation, row: seq<real>, X: seq<real>, P: seq<seq<real>>, Q: seq<seq<real>>, g: int)
    requires 0 <= g && g + 1 < |row| && IsProduct(X, row, P)
    requires |Q| == |P| && forall i | 0 <= i < |P| :: Q[i] == Rotate(r, P[i], g)
    ensures IsProduct(Rotate(r, X, g), row, Q)
  {
    forall j | 0 <= j < |row| ensures Rotate(r, X, g)[j] == Product(row, Q, j, |row|) {
      if j == g {
        ProductIsLinear(row, P, Q, j, g, r.gamma, r.sigma, |row|);
      } else if j == g + 1 {
        ProductIsLinear(row, P, Q, j, g, -r.sigma, r.gamma, |row|);
      } else {
        ProductSame(row, P, Q, j, |row|);
      }
    }
  }

  lemma {:induction false} RunIsProduct(G: RotationSets, nG: nat, row: seq<real>, tr: Trace)
    requires Fits(G, nG) && |row| == nG + 1 && Inside(tr, nG, |G|)
    ensures IsProduct(Run(G, nG, row, tr), row, Images(G, nG, tr))
  {
    if tr.Start? {
      forall j | 0 <= j <= nG ensures row[j] == Product(row, Images(G, nG, tr), j, nG + 1) {
        ProductWithIdentity(row, Images(G, nG, tr), j, nG + 1);
      }
    } else {
      RunIsProduct(G, nG, row, tr.before);
      var c := tr.last;
      RotateProduct(G[c.k][c.g], row, Run(G, nG, row, tr.before), Images(G, nG, tr.before), Images(G, nG, tr), c.g);
    }
  }

  ghost function Q(G: RotationSets, nG: nat): (q: seq<seq<real>>)
    requires Fits(G, nG)
    ensures |q| == nG + 1
  {
    seq(nG + 1, i requires 0 <= i < nG + 1 => QRow(G, nG, i))
  }

  /** The routine multiplies every row by `Q` from the right. */
  lemma ApplySetsIsProduct(G: RotationSets, nG: nat, row: seq<real>)
    requires Fits(G, nG) && |row| == nG + 1
    ensures IsProduct(ApplySets(G, nG, row, |G|), row, Q(G, nG))
  {
    var tr := NaivePrefix(G, nG, row, |G|, 0);
    RunIsProduct(G, nG, row, tr);
    forall i | 0 <= i <= nG ensures QRow(G, nG, i) == Images(G, nG, tr)[i] {
      ScheduleMeaning(Naive, G, nG, Unit(nG + 1, i), tr);
    }
    assert Images(G, nG, tr) == Q(G, nG);
  }

  lemma {:induction false} UnitDots(n: nat, i: int, j: int, l: nat)
    requires 0 <= i < n && 0 <= j < n && l <= n
    ensures RowDot(Unit(n, i), Unit(n, j), l) == if i == j && i < l then 1.0 else 0.0
  {
    if l > 0 { UnitDots(n, i, j, l - 1); }
  }

  /** With true Givens rotations the rows of `Q` are orthonormal. */
  lemma QIsOrthogonal(G: RotationSets, nG: nat, i: int, j: int)
    requires Fits(G, nG) && AllGivens(G, nG) && 0 <= i <= nG && 0 <= j <= nG
    ensures RowDot(QRow(G, nG, i), QRow(G, nG, j), nG + 1) == if i == j then 1.0 else 0.0
  {
    ApplySetsKeepsDot(G, nG, Unit(nG + 1, i), Unit(nG + 1, j));
    UnitDots(nG + 1, i, j, nG + 1);
  }

  // ----- The columns of Q -----

  ghost predicate IsSquare(P: seq<seq<real>>) { forall i | 0 <= i < |P| :: |P[i]| == |P| }

  ghost function Column(P: seq<seq<real>>, j: int): (column: seq<real>)
    requires IsSquare(P) && 0 <= j < |P|
    ensures |column| == |P|
  {
    seq(|P|, i requires 0 <= i < |P| => P[i][j])
  }

  /** The products of one vector with all columns of `P`. */
  ghost function Products(x: seq<real>, P: seq<seq<real>>): (X: seq<real>)
    requires IsSquare(P) && |x| == |P|
    ensures |X| == |P| && IsProduct(X, x, P)
  {
    seq(|P|, j requires 0 <= j < |P| => Product(x, P, j, |P|))
  }

  /** The inner product of column `a` and column `b`. */
  ghost function ColumnDot(P: seq<seq<real>>, a: int, b: int): real
    requires IsSquare(P) && 0 <= a < |P| && 0 <= b < |P|
  {
    Product(Column(P, a), P, b, |P|)
  }

  ghost predicate OrthonormalColumns(P: seq<seq<real>>)
    requires IsSquare(P)
  {
    forall a, b | 0 <= a < |P| && 0 <= b < |P| :: ColumnDot(P, a, b) == if a == b then 1.0 else 0.0
  }

  /** Exchanging the two columns of an inner product. */
  lemma {:induction false} ColumnsCommute(P: seq<seq<real>>, Q: seq<seq<real>>, a: int, b: int, n: nat)
    requires IsSquare(P) && IsSquare(Q) && |P| == |Q| && 0 <= a < |P| && 0 <= b < |P| && n <= |P|
    ensures Product(Column(P, a), Q, b, n) == Product(Column(Q, b), P, a, n)
  {
    if n > 0 { ColumnsCommute(P, Q, a, b, n - 1); }
  }

  ghost predicate RowsRotated(r: Rotation, P: seq<seq<real>>, Q: seq<seq<real>>, g: int) {
    && 0 <= g && g + 1 < |P| && IsSquare(P) && IsSquare(Q) && |P| == |Q|
    && forall i | 0 <= i < |P| :: Q[i] == Rotate(r, P[i], g)
  }

  lemma ProductsRotated(r: Rotation, x: seq<real>, P: seq<seq<real>>, Q: seq<seq<real>>, g: int, j: int)
    requires RowsRotated(r, P, Q, g) && |x| == |P| && 0 <= j < |P|
    ensures Product(x, Q, j, |P|) == Rotate(r, Products(x, P), g)[j]
  {
    RotateProduct(r, x, Products(x, P), P, Q, g);
  }

  /** Column `h` of `P` against all columns of the rotated matrix. */
  lemma OneRotated(r: Rotation, P: seq<seq<real>>, Q: seq<seq<real>>, g: int, a: int, h: int)
    requires RowsRotated(r, P, Q, g) && OrthonormalColumns(P) && 0 <= a < |P| && 0 <= h < |P|
    ensures Product(Column(Q, a), P, h, |P|) == Rotate(r, Unit(|P|, h), g)[a]
  {
    ColumnsCommute(Q, P, a, h, |P|);
    ProductsRotated(r, Column(P, h), P, Q, g, a);
    assert forall b | 0 <= b < |P| :: Products(Column(P, h), P)[b] == ColumnDot(P, h, b);
    assert Products(Column(P, h), P) == Unit(|P|, h);
  }

  /** Rotating twice along unit vectors gives a unit vector. */
  lemma UnitsRotated(r: Rotation, X: seq<real>, n: nat, g: int, a: int, b: int)
    requires r.IsGivens() && 0 <= g && g + 1 < n && 0 <= a < n && 0 <= b < n && |X| == n
    requires forall h | 0 <= h < n :: X[h] == Rotate(r, Unit(n, h), g)[a]
    ensures Rotate(r, X, g)[b] == if a == b then 1.0 else 0.0
  {
    assert X[g] == if a == g then r.gamma else if a == g + 1 then -r.sigma else 0.0;
    assert X[g + 1] == if a == g then r.sigma else if a == g + 1 then r.gamma else 0.0;
    var c, s := r.gamma, r.sigma;
    assert s * s + c * c == 1.0 && c * s - s * c == 0.0;
    if b == g {
      assert Rotate(r, X, g)[b] == c * X[g] + s * X[g + 1];
    } else if b == g + 1 {
      assert Rotate(r, X, g)[b] == -s * X[g] + c * X[g + 1];
    }
  }

  /** A true rotation keeps the columns orthonormal. */
  lemma RotationKeepsColumns(r: Rotation, P: seq<seq<real>>, Q: seq<seq<real>>, g: int)
    requires r.IsGivens() && RowsRotated(r, P, Q, g) && OrthonormalColumns(P)
    ensures OrthonormalColumns(Q)
  {
    forall a, b | 0 <= a < |Q| && 0 <= b < |Q| ensures ColumnDot(Q, a, b) == if a == b then 1.0 else 0.0 {
      var X := Products(Column(Q, a), P);
      forall h | 0 <= h < |P| ensures X[h] == Rotate(r, Unit(|P|, h), g)[a] { OneRotated(r, P, Q, g, a, h); }
      ProductsRotated(r, Column(Q, a), P, Q, g, b);
      UnitsRotated(r, X, |P|, g, a, b);
    }
  }

  lemma {:induction false} RunKeepsColumns(G: RotationSets, nG: nat, tr: Trace)
    requires Fits(G, nG) && Inside(tr, nG, |G|) && AllGivens(G, nG)
    ensures OrthonormalColumns(Images(G, nG, tr))
  {
    if tr.Start? {
      var P := Images(G, nG, tr);
      forall a, b | 0 <= a < |P| && 0 <= b < |P| ensures ColumnDot(P, a, b) == if a == b then 1.0 else 0.0 {
        ProductWithIdentity(Column(P, a), P, b, |P|);
      }
    } else {
      RunKeepsColumns(G, nG, tr.before);
      var c := tr.last;
      RotationKeepsColumns(G[c.k][c.g], Images(G, nG, tr.before), Images(G, nG, tr), c.g);
    }
  }

  /** With true Givens rotations the columns of `Q` are orthonormal too. */
  lemma QHasOrthonormalColumns(G: RotationSets, nG: nat)
    requires Fits(G, nG) && AllGivens(G, nG)
    ensures IsSquare(Q(G, nG)) && OrthonormalColumns(Q(G, nG))
  {
    var tr := NaivePrefix(G, nG, Unit(nG + 1, 0), |G|, 0);
    RunKeepsColumns(G, nG, tr);
    forall i | 0 <= i <= nG ensures QRow(G, nG, i) == Images(G, nG, tr)[i] {
      ScheduleMeaning(Naive, G, nG, Unit(nG + 1, i), tr);
    }
    assert Images(G, nG, tr) == Q(G, nG);
  }
}
