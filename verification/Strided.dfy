/** The naive variant on a flat buffer with general row and column strides. */
module Strided {
  import opened Rotations
  import opened Kernels

  /** Where entry `(i, j)` lies in the buffer. */
  function Idx(i: int, j: int, rs: int, cs: int): int { i * rs + j * cs }

  lemma IdxSteps(i: int, j: int, rs: int, cs: int)
    ensures Idx(0, 0, rs, cs) == 0 && Idx(0, 1, rs, cs) == cs
    ensures Idx(i + 1, j, rs, cs) == Idx(i, j, rs, cs) + rs
    ensures Idx(i, j + 1, rs, cs) == Idx(i, j, rs, cs) + cs
  {
    assert (i + 1) * rs == i * rs + rs && (j + 1) * cs == j * cs + cs;
  }

  /** The strides place the `m` by `n` matrix inside a buffer of `len` cells, without overlap. */
  ghost predicate Layout(len: int, m: int, n: int, rs: int, cs: int) {
    && (forall i, j | 0 <= i < m && 0 <= j < n :: 0 <= Idx(i, j, rs, cs) < len)
    && (forall i, j, i', j' | 0 <= i < m && 0 <= j < n && 0 <= i' < m && 0 <= j' < n ::
          Idx(i, j, rs, cs) == Idx(i', j', rs, cs) ==> i == i' && j == j')
  }

  /** No entry of the matrix lies in cell `x`. */
  ghost predicate Padding(x: int, m: int, n: int, rs: int, cs: int) {
    forall i, j | 0 <= i < m && 0 <= j < n :: Idx(i, j, rs, cs) != x
  }

  ghost function RowOf(buf: seq<real>, i: int, m: int, n: nat, rs: int, cs: int): (row: seq<real>)
    requires Layout(|buf|, m, n, rs, cs) && 0 <= i < m
    ensures |row| == n
  {
    seq(n, j requires 0 <= j < n => buf[Idx(i, j, rs, cs)])
  }

  /** Entry `j` of row `i` is the cell `i * rs + j * cs`. */
  lemma RowOfCells(buf: seq<real>, i: int, j: int, m: int, n: nat, rs: int, cs: int)
    requires Layout(|buf|, m, n, rs, cs) && 0 <= i < m && 0 <= j < n
    ensures 0 <= i * rs + j * cs < |buf| && RowOf(buf, i, m, n, rs, cs)[j] == buf[i * rs + j * cs]
  {
    assert Idx(i, j, rs, cs) == i * rs + j * cs;
  }

  /** The buffer holds the rows `rows`, and outside the matrix what `old` holds. */
  ghost predicate Contains(buf: seq<real>, rows: seq<seq<real>>, was: seq<real>, m: int, n: nat, rs: int, cs: int) {
    && |buf| == |was| && Layout(|buf|, m, n, rs, cs)
    && |rows| == m && (forall i | 0 <= i < m :: |rows[i]| == n && RowOf(buf, i, m, n, rs, cs) == rows[i])
    && (forall x | 0 <= x < |buf| && Padding(x, m, n, rs, cs) :: buf[x] == was[x])
  }

  ghost function RowsOf(buf: seq<real>, m: nat, n: nat, rs: int, cs: int): (rows: seq<seq<real>>)
    requires Layout(|buf|, m, n, rs, cs)
    ensures |rows| == m && forall i | 0 <= i < m :: rows[i] == RowOf(buf, i, m, n, rs, cs)
  {
    seq(m, i requires 0 <= i < m => RowOf(buf, i, m, n, rs, cs))
  }

  /** `buf'` is `buf` with the entries in the cells `x` and `y` rotated. */
  ghost predicate RotatedAt(buf: seq<real>, buf': seq<real>, r: Rotation, x: int, y: int)
    requires 0 <= x < |buf| && 0 <= y < |buf|
  {
    buf' == buf[x := r.Left(buf[x], buf[y])][y := r.Right(buf[x], buf[y])]
  }

  lemma RowRotated(buf: seq<real>, buf': seq<real>, r: Rotation, i: int, g: int, p: int, m: int, n: nat, rs: int,
                   cs: int)
    requires Layout(|buf|, m, n, rs, cs) && 0 <= i < m && 0 <= g && g + 1 < n && 0 <= p < m
    requires RotatedAt(buf, buf', r, Idx(i, g, rs, cs), Idx(i, g + 1, rs, cs))
    ensures RowOf(buf', p, m, n, rs, cs) == if p == i then Rotate(r, RowOf(buf, i, m, n, rs, cs), g)
        else RowOf(buf, p, m, n, rs, cs)
  {
    var x, y := Idx(i, g, rs, cs), Idx(i, g + 1, rs, cs);
    forall j | 0 <= j < n && !(p == i && (j == g || j == g + 1))
      ensures buf'[Idx(p, j, rs, cs)] == buf[Idx(p, j, rs, cs)]
    {
      assert Idx(p, j, rs, cs) != x && Idx(p, j, rs, cs) != y;
    }
    assert x != y;
  }

  /** Rotating the two entries of one row in the buffer rotates that row and nothing else. */
  lemma EntriesRotated(buf: seq<real>, buf': seq<real>, r: Rotation, i: int, g: int, m: int, n: nat, rs: int, cs: int)
    requires Layout(|buf|, m, n, rs, cs) && 0 <= i < m && 0 <= g && g + 1 < n
    requires RotatedAt(buf, buf', r, Idx(i, g, rs, cs), Idx(i, g + 1, rs, cs))
    ensures forall p | 0 <= p < m ::
      RowOf(buf', p, m, n, rs, cs) == if p == i then Rotate(r, RowOf(buf, i, m, n, rs, cs), g)
          else RowOf(buf, p, m, n, rs, cs)
    ensures forall x | 0 <= x < |buf| && Padding(x, m, n, rs, cs) :: buf'[x] == buf[x]
  {
    forall p | 0 <= p < m
      ensures RowOf(buf', p, m, n, rs, cs)
           == if p == i then Rotate(r, RowOf(buf, i, m, n, rs, cs), g) else RowOf(buf, p, m, n, rs, cs)
    {
      RowRotated(buf, buf', r, i, g, p, m, n, rs, cs);
    }
  }

  /** The rows before `i` rotated, the others as they were. */
  ghost function Partly(rows: seq<seq<real>>, r: Rotation, g: int, n: int, i: int): (rows': seq<seq<real>>)
    requires 0 <= g && g + 1 < n && forall p | 0 <= p < |rows| :: |rows[p]| == n
    ensures |rows'| == |rows| && forall p | 0 <= p < |rows| ::
      rows'[p] == if p < i then Rotate(r, rows[p], g) else rows[p]
  {
    seq(|rows|, p requires 0 <= p < |rows| => if p < i then Rotate(r, rows[p], g) else rows[p])
  }

  /** The two-column kernel with pointers `alpha1`, `alpha2` advanced by the row stride. */
  method StridedMx2(buf: array<real>, m: nat, ghost n: nat, rs: int, ghost cs: int, r: Rotation, ghost g: int,
                    a1: int, a2: int, ghost rows: seq<seq<real>>, ghost was: seq<real>)
    requires 0 <= g && g + 1 < n && a1 == Idx(0, g, rs, cs) && a2 == Idx(0, g + 1, rs, cs)
    requires Contains(buf[..], rows, was, m, n, rs, cs)
    modifies buf
    ensures Contains(buf[..], Partly(rows, r, g, n, m), was, m, n, rs, cs)
  {
    var alpha1, alpha2 := a1, a2;
    var i := 0;
    while i < m
      invariant 0 <= i <= m
      invariant alpha1 == Idx(i, g, rs, cs) && alpha2 == Idx(i, g + 1, rs, cs)
      invariant Contains(buf[..], Partly(rows, r, g, n, i), was, m, n, rs, cs)
    {
      ghost var before := buf[..];
      var temp1, temp2 := buf[alpha1], buf[alpha2];
      buf[alpha1] := r.Left(temp1, temp2);
      buf[alpha2] := r.Right(temp1, temp2);
      EntriesRotated(before, buf[..], r, i, g, m, n, rs, cs);
      IdxSteps(i, g, rs, cs);
      IdxSteps(i, g + 1, rs, cs);
      alpha1, alpha2, i := alpha1 + rs, alpha2 + rs, i + 1;
    }
  }

  /** All rows after the first `j` rotations of set `l`. */
  ghost function SetRows(G: RotationSets, nG: int, rows: seq<seq<real>>, l: int, j: nat): (rows': seq<seq<real>>)
    requires Fits(G, nG) && 0 <= l < |G| && (j == 0 || j <= nG)
    requires forall p | 0 <= p < |rows| :: |rows[p]| == nG + 1
    ensures |rows'| == |rows| && forall p | 0 <= p < |rows| :: rows'[p] == ApplySet(G, nG, rows[p], l, j)
  {
    seq(|rows|, p requires 0 <= p < |rows| => ApplySet(G, nG, rows[p], l, j))
  }

  lemma NextSetRows(G: RotationSets, n: int, rows: seq<seq<real>>, l: int, j: nat, m: nat)
    requires Fits(G, n - 1) && 0 <= l < |G| && j + 1 < n && m == |rows|
    requires forall p | 0 <= p < |rows| :: |rows[p]| == n
    ensures SetRows(G, n - 1, rows, l, j + 1) == Partly(SetRows(G, n - 1, rows, l, j), G[l][j], j, n, m)
  {
  }

  /** All rows after the first `l` sets. */
  ghost function SetsRows(G: RotationSets, nG: int, rows: seq<seq<real>>, l: nat): (rows': seq<seq<real>>)
    requires Fits(G, nG) && l <= |G|
    requires forall p | 0 <= p < |rows| :: |rows[p]| == nG + 1
    ensures |rows'| == |rows| && forall p | 0 <= p < |rows| :: rows'[p] == ApplySets(G, nG, rows[p], l)
  {
    seq(|rows|, p requires 0 <= p < |rows| => ApplySets(G, nG, rows[p], l))
  }

  /** One rotation, skipped when it is the identity. */
  method StridedOne(buf: array<real>, m: nat, ghost n: nat, rs: int, ghost cs: int, r: Rotation, ghost g: int,
                    a1: int, a2: int, ghost rows: seq<seq<real>>, ghost was: seq<real>)
    requires 0 <= g && g + 1 < n && a1 == Idx(0, g, rs, cs) && a2 == Idx(0, g + 1, rs, cs)
    requires Contains(buf[..], rows, was, m, n, rs, cs)
    modifies buf
    ensures Contains(buf[..], Partly(rows, r, g, n, m), was, m, n, rs, cs)
  {
    if !r.IsIdentity() {
      StridedMx2(buf, m, n, rs, cs, r, g, a1, a2, rows, was);
    } else {
      forall p | 0 <= p < m ensures Rotate(r, rows[p], g) == rows[p] { IdentityLeavesRow(r, rows[p], g); }
      assert Partly(rows, r, g, n, m) == rows;
    }
  }

  /** One set, with `a1` and `a2` advanced by the column stride. */
  method StridedSet(buf: array<real>, m: nat, n: nat, rs: int, cs: int, G: RotationSets, l: int,
                    ghost rows: seq<seq<real>>, ghost was: seq<real>)
    requires Fits(G, n - 1) && 0 <= l < |G|
    requires Contains(buf[..], rows, was, m, n, rs, cs)
    modifies buf
    ensures Contains(buf[..], SetRows(G, n - 1, rows, l, if n == 0 then 0 else n - 1), was, m, n, rs, cs)
  {
    var nG_app := n - 1;
    var a1, a2 := 0, cs;
    IdxSteps(0, 0, rs, cs);
    var j := 0;
    while j < nG_app
      invariant 0 <= j && (j <= nG_app || (nG_app < 0 && j == 0))
      invariant a1 == Idx(0, j, rs, cs) && a2 == Idx(0, j + 1, rs, cs)
      invariant Contains(buf[..], SetRows(G, nG_app, rows, l, j), was, m, n, rs, cs)
    {
      ghost var cur := SetRows(G, nG_app, rows, l, j);
      var r := G[l][j];
      StridedOne(buf, m, n, rs, cs, r, j, a1, a2, cur, was);
      NextSetRows(G, n, rows, l, j, m);
      IdxSteps(0, j, rs, cs);
      IdxSteps(0, j + 1, rs, cs);
      a1, a2, j := a1 + cs, a2 + cs, j + 1;
    }
  }

  /** The naive order: set after set. */
  method StridedVar1(buf: array<real>, m: nat, n: nat, rs: int, cs: int, G: RotationSets)
    requires Layout(buf.Length, m, n, rs, cs) && Fits(G, n - 1)
    modifies buf
    ensures RowsOf(buf[..], m, n, rs, cs) == SetsRows(G, n - 1, RowsOf(old(buf[..]), m, n, rs, cs), |G|)
    ensures forall x | 0 <= x < buf.Length && Padding(x, m, n, rs, cs) :: buf[x] == old(buf[x])
  {
    ghost var was := buf[..];
    ghost var rows := RowsOf(was, m, n, rs, cs);
    var l := 0;
    while l < |G|
      invariant 0 <= l <= |G|
      invariant Contains(buf[..], SetsRows(G, n - 1, rows, l), was, m, n, rs, cs)
    {
      ghost var cur := SetsRows(G, n - 1, rows, l);
      StridedSet(buf, m, n, rs, cs, G, l, cur, was);
      assert SetsRows(G, n - 1, rows, l + 1) == SetRows(G, n - 1, cur, l, if n == 0 then 0 else n - 1);
      l := l + 1;
    }
  }
}
