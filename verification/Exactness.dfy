/** Keeping the naive order of adjacent rotations is not only enough but necessary: a listing of the
    grid that breaks it fails on some sets of rotations. */
module Exactness {
  import opened Rotations
  import opened Schedule

  ghost predicate Distinct(tr: Trace) {
    tr.Then? ==> Distinct(tr.before) && tr.last !in Cells(tr.before)
  }

  /** `tr` lists every cell of the grid once, in any order. */
  ghost predicate Lists(tr: Trace, nG: int, kG: int) {
    Distinct(tr) && forall c :: c in Cells(tr) <==> InGrid(c, nG, kG)
  }

  /** On every row and for all sets of true Givens rotations, `tr` has the effect of set after set. */
  ghost predicate AlwaysNaive(tr: Trace, nG: int, kG: int)
    requires Inside(tr, nG, kG)
  {
    forall G: RotationSets, row: seq<real> | |G| == kG && Fits(G, nG) && AllGivens(G, nG) && |row| == nG + 1 ::
      Run(G, nG, row, tr) == ApplySets(G, nG, row, |G|)
  }

  /** How many cells come before the (latest) `c`. */
  ghost function Index(tr: Trace, c: Cell): nat {
    match tr
    case Start => 0
    case Then(before, last) => if last == c then Length(before) else Index(before, c)
  }

  lemma {:induction false} IndexInRange(tr: Trace, c: Cell)
    requires c in Cells(tr)
    ensures Index(tr, c) < Length(tr)
  {
    if tr.last != c { IndexInRange(tr.before, c); }
  }

  lemma {:induction false} IndexIsUnique(tr: Trace, c: Cell, d: Cell)
    requires Distinct(tr) && c in Cells(tr) && d in Cells(tr) && Index(tr, c) == Index(tr, d)
    ensures c == d
  {
    if c != d {
      if tr.last == c {
        IndexInRange(tr.before, d);
      } else if tr.last == d {
        IndexInRange(tr.before, c);
      } else {
        IndexIsUnique(tr.before, c, d);
      }
    }
  }

  lemma {:induction false} RespectsByIndex(tr: Trace)
    requires Distinct(tr)
    requires forall c, d | c in Cells(tr) && d in Cells(tr) && Index(tr, c) < Index(tr, d) :: MayPrecede(c, d)
    ensures Respects(tr)
  {
    if tr.Then? {
      forall c, d | c in Cells(tr.before) && d in Cells(tr.before) && Index(tr.before, c) < Index(tr.before, d)
        ensures MayPrecede(c, d)
      {
        assert Index(tr, c) < Index(tr, d);
      }
      RespectsByIndex(tr.before);
      forall c | c in Cells(tr.before) ensures MayPrecede(c, tr.last) {
        IndexInRange(tr.before, c);
        assert Index(tr, c) < Index(tr, tr.last);
      }
    }
  }

  lemma {:induction false} SortedIndex(o: Order, tr: Trace, c: Cell, d: Cell)
    requires Sorted(o, tr) && c in Cells(tr) && d in Cells(tr) && Less(o, c, d)
    ensures Distinct(tr) && Index(tr, c) < Index(tr, d)
  {
    SortedIsDistinct(o, tr);
    if tr.last == d {
      IndexInRange(tr.before, c);
    } else {
      SortedIndex(o, tr.before, c, d);
    }
  }

  lemma {:induction false} SortedIsDistinct(o: Order, tr: Trace)
    requires Sorted(o, tr)
    ensures Distinct(tr)
  {
    if tr.Then? { SortedIsDistinct(o, tr.before); }
  }

  // ----- Two quarter turns among identities -----

  ghost function QuarterTurns(nG: nat, kG: nat, c: Cell, d: Cell): (G: RotationSets)
    ensures |G| == kG && Fits(G, nG) && AllGivens(G, nG)
  {
    seq(kG, k => seq(nG, g => if Cell(g, k) == c || Cell(g, k) == d then Quarter else Identity))
  }

  lemma TurnsSymmetric(nG: nat, kG: nat, c: Cell, d: Cell)
    ensures QuarterTurns(nG, kG, c, d) == QuarterTurns(nG, kG, d, c)
  {
    var G, H := QuarterTurns(nG, kG, c, d), QuarterTurns(nG, kG, d, c);
    forall k | 0 <= k < kG ensures G[k] == H[k] {
      assert forall g | 0 <= g < nG :: G[k][g] == H[k][g];
    }
  }

  ghost function Turned(row: seq<real>, tr: Trace, c: Cell): (row': seq<real>)
    requires 0 <= c.g && c.g + 1 < |row|
    ensures |row'| == |row|
  {
    if c in Cells(tr) then Rotate(Quarter, row, c.g) else row
  }

  lemma IdentityStep(row: seq<real>, g: int)
    requires 0 <= g && g + 1 < |row|
    ensures Rotate(Identity, row, g) == row
  {
  }

  /** Such sets turn the row by the two quarter turns, in the order of the trace. */
  lemma {:induction false} RunQuarterTurns(nG: nat, kG: nat, row: seq<real>, tr: Trace, c: Cell, d: Cell)
    requires c != d && InGrid(c, nG, kG) && InGrid(d, nG, kG) && |row| == nG + 1
    requires Inside(tr, nG, kG) && Distinct(tr)
    requires c in Cells(tr) && d in Cells(tr) ==> Index(tr, c) < Index(tr, d)
    ensures Run(QuarterTurns(nG, kG, c, d), nG, row, tr) == Turned(Turned(row, tr, c), tr, d)
  {
    if tr.Then? {
      var before, e := tr.before, tr.last;
      if c in Cells(before) && d in Cells(before) {
        assert Index(before, c) == Index(tr, c) && Index(before, d) == Index(tr, d);
      }
      RunQuarterTurns(nG, kG, row, before, c, d);
      if e == c {
        if d in Cells(before) { IndexInRange(before, d); }
      } else if e != d {
        IdentityStep(Turned(Turned(row, before, c), before, d), e.g);
      }
    }
  }

  lemma QuartersDiffer(row: seq<real>, g: int)
    requires 0 <= g && g + 2 < |row| && row[g] == 1.0 && row[g + 1] == 0.0 && row[g + 2] == 0.0
    ensures Rotate(Quarter, Rotate(Quarter, row, g), g + 1)[g + 2] == 1.0
    ensures Rotate(Quarter, Rotate(Quarter, row, g + 1), g)[g + 2] == 0.0
  {
  }

  /** Set after set makes the earlier quarter turn first. */
  lemma NaiveQuarterTurns(nG: nat, kG: nat, row: seq<real>, c: Cell, d: Cell)
    requires InGrid(c, nG, kG) && InGrid(d, nG, kG) && |row| == nG + 1 && Earlier(c, d)
    ensures ApplySets(QuarterTurns(nG, kG, c, d), nG, row, kG) == Rotate(Quarter, Rotate(Quarter, row, c.g), d.g)
  {
    var G := QuarterTurns(nG, kG, c, d);
    var naive := NaivePrefix(G, nG, row, kG, 0);
    SortedIndex(Naive, naive, c, d);
    RunQuarterTurns(nG, kG, row, naive, c, d);
  }

  /** In a trace that always has the effect of set after set, the turns may not come the other way round. */
  lemma OutOfOrder(tr: Trace, nG: nat, kG: nat, row: seq<real>, c: Cell, d: Cell)
    requires Lists(tr, nG, kG) && Inside(tr, nG, kG) && AlwaysNaive(tr, nG, kG) && |row| == nG + 1
    requires InGrid(c, nG, kG) && InGrid(d, nG, kG) && Index(tr, c) < Index(tr, d) && Earlier(d, c)
    ensures Rotate(Quarter, Rotate(Quarter, row, c.g), d.g) == Rotate(Quarter, Rotate(Quarter, row, d.g), c.g)
  {
    var G := QuarterTurns(nG, kG, c, d);
    RunQuarterTurns(nG, kG, row, tr, c, d);
    TurnsSymmetric(nG, kG, c, d);
    NaiveQuarterTurns(nG, kG, row, d, c);
    assert Run(G, nG, row, tr) == ApplySets(G, nG, row, |G|);
  }

  /** An adjacent pair out of order shows on the quarter turns. */
  lemma AdjacentInOrder(tr: Trace, nG: nat, kG: nat, c: Cell, d: Cell)
    requires Lists(tr, nG, kG) && Inside(tr, nG, kG) && AlwaysNaive(tr, nG, kG)
    requires InGrid(c, nG, kG) && InGrid(d, nG, kG) && Adjacent(c, d) && Index(tr, c) < Index(tr, d)
    ensures Earlier(c, d)
  {
    if Earlier(d, c) {
      var h := if c.g < d.g then c.g else d.g;
      var row := seq(nG + 1, j => if j == h then 1.0 else 0.0);
      OutOfOrder(tr, nG, kG, row, c, d);
      QuartersDiffer(row, h);
    }
  }

  /** Whatever numbers are put for the rotations, keeping the naive order of adjacent pairs is enough. */
  lemma RespectsIsNaive(tr: Trace, G: RotationSets, nG: nat, row: seq<real>)
    requires Lists(tr, nG, |G|) && Respects(tr) && Fits(G, nG) && |row| == nG + 1
    ensures Inside(tr, nG, |G|)
    ensures Run(G, nG, row, tr) == ApplySets(G, nG, row, |G|)
  {
    CellsInside(tr, nG, |G|);
    var naive := NaivePrefix(G, nG, row, |G|, 0);
    assert Cells(naive) == Cells(tr);
    ScheduleRespects(Naive, naive);
    TraceEquivalence(G, nG, row, naive, tr);
  }

  /** A listing of the grid may replace set after set, whatever the Givens rotations are, exactly when it
      keeps the naive order of every two rotations that share one column. */
  lemma OrderIsExact(tr: Trace, nG: nat, kG: nat)
    requires Lists(tr, nG, kG)
    ensures Inside(tr, nG, kG)
    ensures AlwaysNaive(tr, nG, kG) <==> Respects(tr)
  {
    CellsInside(tr, nG, kG);
    if AlwaysNaive(tr, nG, kG) {
      forall c, d | c in Cells(tr) && d in Cells(tr) && Index(tr, c) < Index(tr, d) ensures MayPrecede(c, d) {
        if Adjacent(c, d) { AdjacentInOrder(tr, nG, kG, c, d); }
      }
      RespectsByIndex(tr);
    }
    if Respects(tr) {
      forall G: RotationSets, row: seq<real> | |G| == kG && Fits(G, nG) && |row| == nG + 1
        ensures Run(G, nG, row, tr) == ApplySets(G, nG, row, |G|)
      {
        RespectsIsNaive(tr, G, nG, row);
      }
    }
  }
}
