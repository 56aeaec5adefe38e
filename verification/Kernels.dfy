/** The in-place kernels: they overwrite columns of `A` in the rows of one stripe only. */
module Kernels {
  import opened Rotations

  ghost function Row(A: array2<real>, i: int): (row: seq<real>)
    requires 0 <= i < A.Length0
    reads A
    ensures |row| == A.Length1
  {
    seq(A.Length1, j requires 0 <= j < A.Length1 reads A => A[i, j])
  }

  /** Entry `j` of a row is the cell in column `j`. */
  lemma RowCells(A: array2<real>, i: int)
    requires 0 <= i < A.Length0
    ensures forall j | 0 <= j < A.Length1 :: Row(A, i)[j] == A[i, j]
  {
  }

  ghost function Rows(A: array2<real>): (rows: seq<seq<real>>)
    reads A
    ensures |rows| == A.Length0
    ensures forall i | 0 <= i < A.Length0 :: rows[i] == Row(A, i)
  {
    seq(A.Length0, i requires 0 <= i < A.Length0 reads A => Row(A, i))
  }

  /** The rows a kernel visits: `count` of them from row `first` on, `inc` apart. The count is the `m_A`
      and the distance the `inc_a` of a kernel call. */
  datatype Stripe = Stripe(first: int, count: nat, inc: int)

  ghost function Visited(s: Stripe): set<int>
    decreases s.count
  {
    if s.count == 0 then {} else {s.first} + Visited(Tail(s))
  }

  function Tail(s: Stripe): Stripe
    requires 0 < s.count
  {
    Stripe(s.first + s.inc, s.count - 1, s.inc)
  }

  lemma {:induction false} VisitedFrom(s: Stripe)
    requires 1 <= s.inc
    ensures forall i | i in Visited(s) :: s.first <= i
    decreases s.count
  {
    if 0 < s.count { VisitedFrom(Tail(s)); }
  }

  /** A stripe visits exactly the rows `first + i * inc` for `0 <= i < count`. */
  lemma {:induction false} VisitedRow(s: Stripe, i: int)
    requires 0 <= i < s.count
    ensures s.first + i * s.inc in Visited(s)
    decreases s.count
  {
    if 0 < i {
      VisitedRow(Tail(s), i - 1);
      assert s.inc + (i - 1) * s.inc == i * s.inc;
    }
  }

  lemma {:induction false} VisitedIndex(s: Stripe, p: int) returns (i: int)
    requires p in Visited(s)
    ensures 0 <= i < s.count && p == s.first + i * s.inc
    decreases s.count
  {
    if p == s.first {
      i := 0;
    } else {
      i := VisitedIndex(Tail(s), p);
      assert s.inc + i * s.inc == (i + 1) * s.inc;
      i := i + 1;
    }
  }

  lemma NonnegativeProduct(k: int, inc: int)
    requires 0 <= k && 0 <= inc
    ensures 0 <= k * inc
  {
  }

  lemma NoMultiple(k: int, inc: int)
    requires 0 <= k * inc < inc
    ensures k == 0
  {
    if 1 <= k { NonnegativeProduct(k - 1, inc); }
    if k <= -1 { NonnegativeProduct(-k - 1, inc); }
  }

  lemma Divided(d: int, i: int, inc: int)
    requires 1 <= inc && 0 <= i && d == i * inc
    ensures 0 <= d && d % inc == 0 && d / inc == i
  {
    NonnegativeProduct(i, inc);
    var q := d / inc;
    assert d == q * inc + d % inc;
    assert (i - q) * inc == d % inc;
    NoMultiple(i - q, inc);
  }

  lemma Multiple(d: int, inc: int)
    requires 1 <= inc && 0 <= d && d % inc == 0
    ensures 0 <= d / inc && d == (d / inc) * inc
  {
  }

  /** The same as one condition on the row: its distance from the first one is a multiple of the increment. */
  lemma VisitedIff(s: Stripe, p: int)
    requires 1 <= s.inc
    ensures p in Visited(s)
       <==> s.first <= p && (p - s.first) % s.inc == 0 && (p - s.first) / s.inc < s.count
  {
    var d := p - s.first;
    if p in Visited(s) {
      var i := VisitedIndex(s, p);
      Divided(d, i, s.inc);
    } else if 0 <= d && d % s.inc == 0 {
      Multiple(d, s.inc);
      if d / s.inc < s.count { VisitedRow(s, d / s.inc); }
    }
  }

  /** The rows of the stripe are rows of `A`. */
  ghost predicate Within(A: array2<real>, s: Stripe) {
    1 <= s.inc && forall i | i in Visited(s) :: 0 <= i < A.Length0
  }

  /** `orig` has the shape of `A` and the stripe is part of it. */
  ghost predicate Shaped(A: array2<real>, orig: seq<seq<real>>, s: Stripe, G: RotationSets) {
    && Within(A, s) && Fits(G, A.Length1 - 1)
    && |orig| == A.Length0 && (forall i | 0 <= i < |orig| :: |orig[i]| == A.Length1)
  }

  /** The rows of `A` are the rows `orig`, with the rotations `tr` applied to those of the stripe. */
  ghost predicate Holds(A: array2<real>, orig: seq<seq<real>>, s: Stripe, G: RotationSets, tr: Trace)
    requires Shaped(A, orig, s, G)
    reads A
  {
    && Inside(tr, A.Length1 - 1, |G|)
    && (forall i | 0 <= i < A.Length0 ::
          Row(A, i) == if i in Visited(s) then Run(G, A.Length1 - 1, orig[i], tr) else orig[i])
  }

  lemma IdentityLeavesRow(r: Rotation, row: seq<real>, g: int)
    requires r.IsIdentity() && 0 <= g && g + 1 < |row|
    ensures Rotate(r, row, g) == row
  {
    assert r.Left(row[g], row[g + 1]) == row[g] && r.Right(row[g], row[g + 1]) == row[g + 1];
  }

  /** One pass of a kernel's loop, on the two cells of row `i` in columns `g` and `g + 1`. */
  method RotateCells(A: array2<real>, i: nat, r: Rotation, g: int)
    requires i < A.Length0 && 0 <= g && g + 1 < A.Length1
    modifies A
    ensures A[i, g] == r.gamma * old(A[i, g]) + r.sigma * old(A[i, g + 1])
    ensures A[i, g + 1] == -r.sigma * old(A[i, g]) + r.gamma * old(A[i, g + 1])
    ensures forall p, q | 0 <= p < A.Length0 && 0 <= q < A.Length1 && !(p == i && (q == g || q == g + 1)) ::
      A[p, q] == old(A[p, q])
    ensures forall p | 0 <= p < A.Length0 ::
      Row(A, p) == if p == i then Rotate(r, old(Row(A, p)), g) else old(Row(A, p))
  {
    var temp1, temp2 := A[i, g], A[i, g + 1];
    A[i, g] := r.Left(temp1, temp2);
    A[i, g + 1] := r.Right(temp1, temp2);
    assert forall p | 0 <= p < A.Length0 && p != i :: Row(A, p) == old(Row(A, p));
    assert Row(A, i) == Rotate(r, old(Row(A, i)), g);
  }

  /** The same, as a rotation of one row. */
  method RotateEntries(A: array2<real>, i: nat, r: Rotation, g: int)
    requires i < A.Length0 && 0 <= g && g + 1 < A.Length1
    modifies A
    ensures forall p | 0 <= p < A.Length0 ::
      Row(A, p) == if p == i then Rotate(r, old(Row(A, p)), g) else old(Row(A, p))
  {
    RotateCells(A, i, r, g);
  }

  ghost function TwoRotations(row: seq<real>, r: Rotation, g: int, r': Rotation, g': int): (row': seq<real>)
    requires 0 <= g && g + 1 < |row| && 0 <= g' && g' + 1 < |row|
    ensures |row'| == |row|
  {
    Rotate(r', Rotate(r, row, g), g')
  }

  /** Two rotations of one row. */
  method RotateTwice(A: array2<real>, i: nat, r: Rotation, g: int, r': Rotation, g': int)
    requires i < A.Length0 && 0 <= g && g + 1 < A.Length1 && 0 <= g' && g' + 1 < A.Length1
    modifies A
    ensures forall p | 0 <= p < A.Length0 ::
      Row(A, p) == if p == i then TwoRotations(old(Row(A, p)), r, g, r', g') else old(Row(A, p))
  {
    RotateEntries(A, i, r, g);
    RotateEntries(A, i, r', g');
  }

  /** Columns `g` and `g + 1`. */
  method ApplyMx2(A: array2<real>, s: Stripe, r12: Rotation, g: int)
    requires Within(A, s) && 0 <= g && g + 1 < A.Length1
    modifies A
    ensures forall p | 0 <= p < A.Length0 ::
      Row(A, p) == if p in Visited(s) then Rotate(r12, old(Row(A, p)), g) else old(Row(A, p))
  {
    ghost var rest := s;
    var i, row := 0, s.first;
    while i < s.count
      invariant 0 <= i <= s.count && rest == Stripe(row, s.count - i, s.inc) && Visited(rest) <= Visited(s)
      invariant forall p | 0 <= p < A.Length0 ::
        Row(A, p) == if p in Visited(s) && p !in Visited(rest) then Rotate(r12, old(Row(A, p)), g) else old(Row(A, p))
    {
      VisitedFrom(Tail(rest));
      RotateEntries(A, row, r12, g);
      rest := Tail(rest);
      i, row := i + 1, row + s.inc;
    }
  }

  /** Columns `g`, `g + 1`, `g + 2`: the left pair first. */
  method ApplyMx3(A: array2<real>, s: Stripe, r12: Rotation, r23: Rotation, g: int)
    requires Within(A, s) && 0 <= g && g + 2 < A.Length1
    modifies A
    ensures forall p | 0 <= p < A.Length0 ::
      Row(A, p) == if p in Visited(s) then TwoRotations(old(Row(A, p)), r12, g, r23, g + 1) else old(Row(A, p))
  {
    ghost var rest := s;
    var i, row := 0, s.first;
    while i < s.count
      invariant 0 <= i <= s.count && rest == Stripe(row, s.count - i, s.inc) && Visited(rest) <= Visited(s)
      invariant forall p | 0 <= p < A.Length0 ::
        Row(A, p) == if p in Visited(s) && p !in Visited(rest) then TwoRotations(old(Row(A, p)), r12, g, r23, g + 1)
            else old(Row(A, p))
    {
      VisitedFrom(Tail(rest));
      RotateTwice(A, row, r12, g, r23, g + 1);
      rest := Tail(rest);
      i, row := i + 1, row + s.inc;
    }
  }

  /** Columns `g`, `g + 1`, `g + 2`: the right pair first. */
  method ApplyMx3b(A: array2<real>, s: Stripe, r12: Rotation, r23: Rotation, g: int)
    requires Within(A, s) && 0 <= g && g + 2 < A.Length1
    modifies A
    ensures forall p | 0 <= p < A.Length0 ::
      Row(A, p) == if p in Visited(s) then TwoRotations(old(Row(A, p)), r23, g + 1, r12, g) else old(Row(A, p))
  {
    ghost var rest := s;
    var i, row := 0, s.first;
    while i < s.count
      invariant 0 <= i <= s.count && rest == Stripe(row, s.count - i, s.inc) && Visited(rest) <= Visited(s)
      invariant forall p | 0 <= p < A.Length0 ::
        Row(A, p) == if p in Visited(s) && p !in Visited(rest) then TwoRotations(old(Row(A, p)), r23, g + 1, r12, g)
            else old(Row(A, p))
    {
      VisitedFrom(Tail(rest));
      RotateTwice(A, row, r23, g + 1, r12, g);
      rest := Tail(rest);
      i, row := i + 1, row + s.inc;
    }
  }

  ghost function FourRotations(row: seq<real>, r23k1: Rotation, r34k1: Rotation, r12k2: Rotation, r23k2: Rotation,
                               g: int): (row': seq<real>)
    requires 1 <= g && g + 2 < |row|
    ensures |row'| == |row|
  {
    TwoRotations(TwoRotations(row, r23k1, g, r34k1, g + 1), r12k2, g - 1, r23k2, g)
  }

  /** Four rotations of one row. */
  method RotateFour(A: array2<real>, i: nat, r23k1: Rotation, r34k1: Rotation, r12k2: Rotation, r23k2: Rotation, g: int)
    requires i < A.Length0 && 1 <= g && g + 2 < A.Length1
    modifies A
    ensures forall p | 0 <= p < A.Length0 ::
      Row(A, p) == if p == i then FourRotations(old(Row(A, p)), r23k1, r34k1, r12k2, r23k2, g) else old(Row(A, p))
  {
    RotateTwice(A, i, r23k1, g, r34k1, g + 1);
    RotateTwice(A, i, r12k2, g - 1, r23k2, g);
  }

  /** Columns `g - 1` to `g + 2`: the middle and right pairs of one set, then the left and middle pairs of the next. */
  method ApplyMx4s(A: array2<real>, s: Stripe, r23k1: Rotation, r34k1: Rotation, r12k2: Rotation, r23k2: Rotation,
                   g: int)
    requires Within(A, s) && 1 <= g && g + 2 < A.Length1
    modifies A
    ensures forall p | 0 <= p < A.Length0 ::
      Row(A, p) == if p in Visited(s) then FourRotations(old(Row(A, p)), r23k1, r34k1, r12k2, r23k2, g)
          else old(Row(A, p))
  {
    ghost var rest := s;
    var i, row := 0, s.first;
    while i < s.count
      invariant 0 <= i <= s.count && rest == Stripe(row, s.count - i, s.inc) && Visited(rest) <= Visited(s)
      invariant forall p | 0 <= p < A.Length0 ::
        Row(A, p) == if p in Visited(s) && p !in Visited(rest)
            then FourRotations(old(Row(A, p)), r23k1, r34k1, r12k2, r23k2, g)
            else old(Row(A, p))
    {
      VisitedFrom(Tail(rest));
      RotateFour(A, row, r23k1, r34k1, r12k2, r23k2, g);
      rest := Tail(rest);
      i, row := i + 1, row + s.inc;
    }
  }

  // ----- Fused blocks: the body of an inner loop, with its tests for identity rotations -----

  ghost function Pair(tr: Trace, c: Cell, d: Cell): Trace { Then(Then(tr, c), d) }

  ghost function Block(tr: Trace, g: int, k: int): Trace {
    Pair(Pair(tr, Cell(g, k), Cell(g + 1, k)), Cell(g - 1, k + 1), Cell(g, k + 1))
  }

  lemma RunPair(G: RotationSets, nG: int, row: seq<real>, tr: Trace, c: Cell, d: Cell)
    requires Fits(G, nG) && |row| == nG + 1 && Inside(tr, nG, |G|)
    requires InGrid(c, nG, |G|) && InGrid(d, nG, |G|)
    ensures Inside(Pair(tr, c, d), nG, |G|)
    ensures Run(G, nG, row, Pair(tr, c, d)) == TwoRotations(Run(G, nG, row, tr), G[c.k][c.g], c.g, G[d.k][d.g], d.g)
  {
  }

  /** Leaving out identities from two rotations changes nothing. */
  lemma PairCases(row: seq<real>, r: Rotation, g: int, r': Rotation, g': int)
    requires 0 <= g && g + 1 < |row| && 0 <= g' && g' + 1 < |row|
    ensures r.IsIdentity() ==> TwoRotations(row, r, g, r', g') == Rotate(r', row, g')
    ensures r'.IsIdentity() ==> TwoRotations(row, r, g, r', g') == Rotate(r, row, g)
    ensures r.IsIdentity() && r'.IsIdentity() ==> TwoRotations(row, r, g, r', g') == row
  {
    if r.IsIdentity() { IdentityLeavesRow(r, row, g); }
    if r'.IsIdentity() {
      IdentityLeavesRow(r', Rotate(r, row, g), g');
      IdentityLeavesRow(r', row, g');
    }
  }

  /** One rotation, skipped when it is the identity. */
  method ApplyOne(A: array2<real>, s: Stripe, G: RotationSets, g: int, k: int, ghost orig: seq<seq<real>>,
                  ghost tr: Trace)
    requires Shaped(A, orig, s, G) && InGrid(Cell(g, k), A.Length1 - 1, |G|)
    requires Holds(A, orig, s, G, tr)
    modifies A
    ensures Holds(A, orig, s, G, Then(tr, Cell(g, k)))
  {
    var r := G[k][g];
    if !r.IsIdentity() {
      ApplyMx2(A, s, r, g);
    } else {
      forall i | i in Visited(s) ensures Rotate(r, Row(A, i), g) == Row(A, i) { IdentityLeavesRow(r, Row(A, i), g); }
    }
  }

  ghost function PairRotations(G: RotationSets, nG: int, row: seq<real>, c: Cell, d: Cell): (row': seq<real>)
    requires Fits(G, nG) && |row| == nG + 1 && InGrid(c, nG, |G|) && InGrid(d, nG, |G|)
    ensures |row'| == nG + 1
  {
    TwoRotations(row, G[c.k][c.g], c.g, G[d.k][d.g], d.g)
  }

  /** Two rotations of what a trace leaves, in every row of the stripe, are that trace and two more cells. */
  lemma PairOnRows(rows: seq<seq<real>>, orig: seq<seq<real>>, nG: int, s: Stripe, G: RotationSets, c: Cell, d: Cell,
                   tr: Trace)
    requires Fits(G, nG) && Inside(tr, nG, |G|) && InGrid(c, nG, |G|) && InGrid(d, nG, |G|) && |rows| == |orig|
    requires forall i | 0 <= i < |orig| :: |orig[i]| == |rows[i]| == nG + 1
    requires forall i | i in Visited(s) :: 0 <= i < |orig| && rows[i] == Run(G, nG, orig[i], tr)
    ensures Inside(Pair(tr, c, d), nG, |G|)
    ensures forall i | i in Visited(s) :: PairRotations(G, nG, rows[i], c, d) == Run(G, nG, orig[i], Pair(tr, c, d))
  {
    assert Inside(Then(tr, c), nG, |G|);
    forall i | i in Visited(s)
      ensures PairRotations(G, nG, rows[i], c, d) == Run(G, nG, orig[i], Pair(tr, c, d))
    {
      RunPair(G, nG, orig[i], tr, c, d);
    }
  }

  /** Two neighbouring rotations of one set (the fused body of variant 9). */
  method NeighbourKernels(A: array2<real>, s: Stripe, G: RotationSets, g: int, k: int)
    requires Within(A, s) && Fits(G, A.Length1 - 1)
    requires InGrid(Cell(g, k), A.Length1 - 1, |G|) && InGrid(Cell(g + 1, k), A.Length1 - 1, |G|)
    modifies A
    ensures forall p | 0 <= p < A.Length0 ::
      Row(A, p) == if p in Visited(s)
        then PairRotations(G, A.Length1 - 1, old(Row(A, p)), Cell(g, k), Cell(g + 1, k))
        else old(Row(A, p))
  {
    var r12, r23 := G[k][g], G[k][g + 1];
    forall p | 0 <= p < A.Length0 { PairCases(Row(A, p), r12, g, r23, g + 1); }
    if !r12.IsIdentity() && r23.IsIdentity() {
      ApplyMx2(A, s, r12, g);
    } else if r12.IsIdentity() && !r23.IsIdentity() {
      ApplyMx2(A, s, r23, g + 1);
    } else if !r12.IsIdentity() && !r23.IsIdentity() {
      ApplyMx3(A, s, r12, r23, g);
    }
  }

  method ApplyNeighbours(A: array2<real>, s: Stripe, G: RotationSets, g: int, k: int,
                ghost orig: seq<seq<real>>, ghost tr: Trace)
    requires Shaped(A, orig, s, G)
    requires InGrid(Cell(g, k), A.Length1 - 1, |G|) && InGrid(Cell(g + 1, k), A.Length1 - 1, |G|)
    requires Holds(A, orig, s, G, tr)
    modifies A
    ensures Holds(A, orig, s, G, Pair(tr, Cell(g, k), Cell(g + 1, k)))
  {
    ghost var rows := Rows(A);
    NeighbourKernels(A, s, G, g, k);
    PairOnRows(rows, orig, A.Length1 - 1, s, G, Cell(g, k), Cell(g + 1, k), tr);
  }

  /** The leftover pair of variant 3: the three-column kernel is also used when both are identities. */
  method LeftoverKernels(A: array2<real>, s: Stripe, G: RotationSets, g: int, k: int)
    requires Within(A, s) && Fits(G, A.Length1 - 1)
    requires InGrid(Cell(g, k), A.Length1 - 1, |G|) && InGrid(Cell(g + 1, k), A.Length1 - 1, |G|)
    modifies A
    ensures forall p | 0 <= p < A.Length0 ::
      Row(A, p) == if p in Visited(s)
        then PairRotations(G, A.Length1 - 1, old(Row(A, p)), Cell(g, k), Cell(g + 1, k))
        else old(Row(A, p))
  {
    var r23, r34 := G[k][g], G[k][g + 1];
    forall p | 0 <= p < A.Length0 { PairCases(Row(A, p), r23, g, r34, g + 1); }
    if !r23.IsIdentity() && r34.IsIdentity() {
      ApplyMx2(A, s, r23, g);
    } else if r23.IsIdentity() && !r34.IsIdentity() {
      ApplyMx2(A, s, r34, g + 1);
    } else {
      ApplyMx3(A, s, r23, r34, g);
    }
  }

  method ApplyLeftoverPair(A: array2<real>, s: Stripe, G: RotationSets, g: int, k: int,
                ghost orig: seq<seq<real>>, ghost tr: Trace)
    requires Shaped(A, orig, s, G)
    requires InGrid(Cell(g, k), A.Length1 - 1, |G|) && InGrid(Cell(g + 1, k), A.Length1 - 1, |G|)
    requires Holds(A, orig, s, G, tr)
    modifies A
    ensures Holds(A, orig, s, G, Pair(tr, Cell(g, k), Cell(g + 1, k)))
  {
    ghost var rows := Rows(A);
    LeftoverKernels(A, s, G, g, k);
    PairOnRows(rows, orig, A.Length1 - 1, s, G, Cell(g, k), Cell(g + 1, k), tr);
  }

  /** Two rotations of neighbouring sets on one anti-diagonal (the fused body of variant 6). */
  method DiagonalKernels(A: array2<real>, s: Stripe, G: RotationSets, g: int, k: int)
    requires Within(A, s) && Fits(G, A.Length1 - 1)
    requires InGrid(Cell(g, k), A.Length1 - 1, |G|) && InGrid(Cell(g - 1, k + 1), A.Length1 - 1, |G|)
    modifies A
    ensures forall p | 0 <= p < A.Length0 ::
      Row(A, p) == if p in Visited(s)
        then PairRotations(G, A.Length1 - 1, old(Row(A, p)), Cell(g, k), Cell(g - 1, k + 1))
        else old(Row(A, p))
  {
    var r12, r23 := G[k + 1][g - 1], G[k][g];
    forall p | 0 <= p < A.Length0 { PairCases(Row(A, p), r23, g, r12, g - 1); }
    if !r12.IsIdentity() && r23.IsIdentity() {
      ApplyMx2(A, s, r12, g - 1);
    } else if r12.IsIdentity() && !r23.IsIdentity() {
      ApplyMx2(A, s, r23, g);
    } else if !r12.IsIdentity() && !r23.IsIdentity() {
      ApplyMx3b(A, s, r12, r23, g - 1);
    }
  }

  method ApplyDiagonalPair(A: array2<real>, s: Stripe, G: RotationSets, g: int, k: int,
                ghost orig: seq<seq<real>>, ghost tr: Trace)
    requires Shaped(A, orig, s, G)
    requires InGrid(Cell(g, k), A.Length1 - 1, |G|) && InGrid(Cell(g - 1, k + 1), A.Length1 - 1, |G|)
    requires Holds(A, orig, s, G, tr)
    modifies A
    ensures Holds(A, orig, s, G, Pair(tr, Cell(g, k), Cell(g - 1, k + 1)))
  {
    ghost var rows := Rows(A);
    DiagonalKernels(A, s, G, g, k);
    PairOnRows(rows, orig, A.Length1 - 1, s, G, Cell(g, k), Cell(g - 1, k + 1), tr);
  }

  predicate BlockInGrid(g: int, k: int, nG: int, kG: int) {
    1 <= g && g + 1 < nG && 0 <= k && k + 1 < kG
  }

  method ApplyTwo(A: array2<real>, s: Stripe, G: RotationSets, c: Cell, d: Cell,
                  ghost orig: seq<seq<real>>, ghost tr: Trace)
    requires Shaped(A, orig, s, G)
    requires InGrid(c, A.Length1 - 1, |G|) && InGrid(d, A.Length1 - 1, |G|)
    requires Holds(A, orig, s, G, tr)
    modifies A
    ensures Holds(A, orig, s, G, Pair(tr, c, d))
  {
    ApplyOne(A, s, G, c.g, c.k, orig, tr);
    ApplyOne(A, s, G, d.g, d.k, orig, Then(tr, c));
  }

  method ApplyBlockSingly(A: array2<real>, s: Stripe, G: RotationSets, g: int, k: int,
                          ghost orig: seq<seq<real>>, ghost tr: Trace)
    requires Shaped(A, orig, s, G)
    requires BlockInGrid(g, k, A.Length1 - 1, |G|)
    requires Holds(A, orig, s, G, tr)
    modifies A
    ensures Holds(A, orig, s, G, Block(tr, g, k))
  {
    ApplyTwo(A, s, G, Cell(g, k), Cell(g + 1, k), orig, tr);
    ApplyTwo(A, s, G, Cell(g - 1, k + 1), Cell(g, k + 1), orig, Pair(tr, Cell(g, k), Cell(g + 1, k)));
  }

  /** The second pair of a block acts on what the first pair leaves. */
  ghost function BlockRotations(G: RotationSets, nG: int, row: seq<real>, g: int, k: int): (row': seq<real>)
    requires Fits(G, nG) && |row| == nG + 1 && BlockInGrid(g, k, nG, |G|)
    ensures |row'| == nG + 1
  {
    var half := PairRotations(G, nG, row, Cell(g, k), Cell(g + 1, k));
    PairRotations(G, nG, half, Cell(g - 1, k + 1), Cell(g, k + 1))
  }

  lemma BlockOnRows(rows: seq<seq<real>>, orig: seq<seq<real>>, nG: int, s: Stripe, G: RotationSets, g: int, k: int,
                    tr: Trace)
    requires Fits(G, nG) && Inside(tr, nG, |G|) && BlockInGrid(g, k, nG, |G|) && |rows| == |orig|
    requires forall i | 0 <= i < |orig| :: |orig[i]| == |rows[i]| == nG + 1
    requires forall i | i in Visited(s) :: 0 <= i < |orig| && rows[i] == Run(G, nG, orig[i], tr)
    ensures Inside(Block(tr, g, k), nG, |G|)
    ensures forall i | i in Visited(s) :: BlockRotations(G, nG, rows[i], g, k) == Run(G, nG, orig[i], Block(tr, g, k))
  {
    var c, d := Cell(g, k), Cell(g + 1, k);
    PairOnRows(rows, orig, nG, s, G, c, d, tr);
    var half := seq(|rows|, i requires 0 <= i < |rows| => PairRotations(G, nG, rows[i], c, d));
    PairOnRows(half, orig, nG, s, G, Cell(g - 1, k + 1), Cell(g, k + 1), Pair(tr, c, d));
  }

  /** The four-column kernel on the rotations of one block. */
  method FusedKernel(A: array2<real>, s: Stripe, G: RotationSets, g: int, k: int)
    requires Within(A, s) && Fits(G, A.Length1 - 1) && BlockInGrid(g, k, A.Length1 - 1, |G|)
    modifies A
    ensures forall p | 0 <= p < A.Length0 ::
      Row(A, p) == if p in Visited(s) then BlockRotations(G, A.Length1 - 1, old(Row(A, p)), g, k) else old(Row(A, p))
  {
    ApplyMx4s(A, s, G[k][g], G[k][g + 1], G[k + 1][g - 1], G[k + 1][g], g);
  }

  method ApplyBlockFused(A: array2<real>, s: Stripe, G: RotationSets, g: int, k: int,
                         ghost orig: seq<seq<real>>, ghost tr: Trace)
    requires Shaped(A, orig, s, G) && BlockInGrid(g, k, A.Length1 - 1, |G|)
    requires Holds(A, orig, s, G, tr)
    modifies A
    ensures Holds(A, orig, s, G, Block(tr, g, k))
  {
    ghost var nG := A.Length1 - 1;
    ghost var rows := Rows(A);
    FusedKernel(A, s, G, g, k);
    BlockOnRows(rows, orig, nG, s, G, g, k, tr);
  }

  /** A 2x2 block of rotations (the fused body of variant 3). */
  method ApplyBlock(A: array2<real>, s: Stripe, G: RotationSets, g: int, k: int, ghost orig: seq<seq<real>>,
                    ghost tr: Trace)
    requires Shaped(A, orig, s, G) && BlockInGrid(g, k, A.Length1 - 1, |G|)
    requires Holds(A, orig, s, G, tr)
    modifies A
    ensures Holds(A, orig, s, G, Block(tr, g, k))
  {
    var r23k1, r34k1, r12k2, r23k2 := G[k][g], G[k][g + 1], G[k + 1][g - 1], G[k + 1][g];
    var hasIdentity := r23k1.IsIdentity() || r34k1.IsIdentity() || r12k2.IsIdentity() || r23k2.IsIdentity();
    if hasIdentity {
      ApplyBlockSingly(A, s, G, g, k, orig, tr);
    } else {
      ApplyBlockFused(A, s, G, g, k, orig, tr);
    }
  }
}
