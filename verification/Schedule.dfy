/** The orders in which the variants visit the grid of rotations, what it means that a trace
    has emitted everything up to a frontier, and why every such order is as good as the naive one. */
module Schedule {
  import opened Rotations

  /** Naive: set by set. Single: one anti-diagonal at a time. Double: two anti-diagonals at a time. */
  datatype Order = Naive | Single | Double

  function Wave(o: Order, c: Cell): int {
    match o
    case Naive => 0
    case Single => c.g + c.k
    case Double => (c.g + c.k + 1) / 2
  }

  /** The position of `c` in order `o` is before the position `(w, k, g)`. */
  predicate Before(o: Order, c: Cell, w: int, k: int, g: int) {
    Wave(o, c) < w || (Wave(o, c) == w && (c.k < k || (c.k == k && c.g < g)))
  }

  predicate Less(o: Order, c: Cell, d: Cell) {
    Before(o, c, Wave(o, d), d.k, d.g)
  }

  /** The orders in terms of the cells: by `(k, g)`, by `(g + k, k)`, and by `((g + k + 1) / 2, k, g)`. */
  lemma OrdersAre(c: Cell, d: Cell)
    ensures Less(Naive, c, d) <==> c.k < d.k || (c.k == d.k && c.g < d.g)
    ensures Less(Single, c, d) <==> c.g + c.k < d.g + d.k || (c.g + c.k == d.g + d.k && c.k < d.k)
    ensures var v, w := (c.g + c.k + 1) / 2, (d.g + d.k + 1) / 2;
            Less(Double, c, d) <==> v < w || (v == w && (c.k < d.k || (c.k == d.k && c.g < d.g)))
  {
  }

  ghost predicate Sorted(o: Order, tr: Trace) {
    tr.Then? ==> Sorted(o, tr.before) && forall c | c in Cells(tr.before) :: Less(o, c, tr.last)
  }

  /** `tr` lists, in order `o`, exactly the grid cells before the frontier `(w, k, g)`. */
  ghost predicate Emitted(o: Order, tr: Trace, nG: int, kG: int, w: int, k: int, g: int) {
    && Sorted(o, tr)
    && (forall c :: c in Cells(tr) <==> InGrid(c, nG, kG) && Before(o, c, w, k, g))
  }

  /** `tr` is the whole grid, each cell once, sorted by `o`. */
  ghost predicate IsSchedule(o: Order, tr: Trace, nG: int, kG: int) {
    && Sorted(o, tr)
    && (forall c :: c in Cells(tr) <==> InGrid(c, nG, kG))
  }

  /** No grid cell lies between two frontiers. */
  ghost predicate NoCellBetween(o: Order, nG: int, kG: int, w: int, k: int, g: int, w': int, k': int, g': int) {
    forall c | InGrid(c, nG, kG) :: Before(o, c, w, k, g) <==> Before(o, c, w', k', g')
  }

  lemma Skip(o: Order, tr: Trace, nG: int, kG: int, w: int, k: int, g: int, w': int, k': int, g': int)
    requires Emitted(o, tr, nG, kG, w, k, g)
    requires NoCellBetween(o, nG, kG, w, k, g, w', k', g')
    ensures Emitted(o, tr, nG, kG, w', k', g')
  {
  }

  /** Emitting the next cell moves the frontier just past it. */
  lemma Emit(o: Order, tr: Trace, nG: int, kG: int, w: int, k: int, g: int, c: Cell)
    requires Emitted(o, tr, nG, kG, w, k, g) && InGrid(c, nG, kG)
    requires NoCellBetween(o, nG, kG, w, k, g, Wave(o, c), c.k, c.g)
    ensures Emitted(o, Then(tr, c), nG, kG, Wave(o, c), c.k, c.g + 1)
  {
    forall d ensures Before(o, d, Wave(o, c), c.k, c.g + 1) <==> Before(o, d, Wave(o, c), c.k, c.g) || d == c {
      assert d == Cell(d.g, d.k) && c == Cell(c.g, c.k);
    }
  }

  /** An order never places an overlapping pair against the naive order. */
  lemma OrderRespectsOverlap(o: Order, c: Cell, d: Cell)
    requires Less(o, c, d)
    ensures c != d && (Overlap(c, d) ==> Earlier(c, d))
  {
  }

  lemma {:induction false} ScheduleRespects(o: Order, tr: Trace)
    requires Sorted(o, tr)
    ensures Respects(tr)
  {
    if tr.Then? {
      ScheduleRespects(o, tr.before);
      forall c | c in Cells(tr.before) ensures MayPrecede(c, tr.last) { OrderRespectsOverlap(o, c, tr.last); }
    }
  }

  lemma {:induction false} CellsInside(tr: Trace, nG: int, kG: int)
    requires forall c | c in Cells(tr) :: InGrid(c, nG, kG)
    ensures Inside(tr, nG, kG)
  {
    if tr.Then? { CellsInside(tr.before, nG, kG); }
  }

  /** There is only one way to list the same cells in a given order. */
  lemma {:induction false} SortedIsUnique(o: Order, s: Trace, t: Trace)
    requires Sorted(o, s) && Sorted(o, t) && Cells(s) == Cells(t)
    ensures s == t
    decreases s
  {
    assert (s.Then? ==> s.last in Cells(s)) && (t.Then? ==> t.last in Cells(t));
    if s.Then? && t.Then? {
      assert s.last == t.last;
      assert Cells(s.before) == Cells(s) - {s.last} && Cells(t.before) == Cells(t) - {t.last};
      SortedIsUnique(o, s.before, t.before);
    }
  }

  lemma {:induction false} LengthIsSize(o: Order, tr: Trace)
    requires Sorted(o, tr)
    ensures Length(tr) == |Cells(tr)|
  {
    if tr.Then? {
      LengthIsSize(o, tr.before);
      assert tr.last !in Cells(tr.before);
    }
  }

  /** The naive listing up to a frontier, and what it does: whole sets, then part of one. */
  lemma {:induction false} NaivePrefix(G: RotationSets, nG: int, row: seq<real>, k: nat, g: nat) returns (tr: Trace)
    requires 0 <= nG && |row| == nG + 1 && Fits(G, nG)
    requires g <= nG && (k < |G| || (k == |G| && g == 0))
    ensures Emitted(Naive, tr, nG, |G|, 0, k, g) && Length(tr) == k * nG + g
    ensures Inside(tr, nG, |G|)
    ensures Run(G, nG, row, tr) == if g == 0 then ApplySets(G, nG, row, k)
        else ApplySet(G, nG, ApplySets(G, nG, row, k), k, g)
    decreases k, g
  {
    if g > 0 {
      var prev := NaivePrefix(G, nG, row, k, g - 1);
      var c := Cell(g - 1, k);
      Emit(Naive, prev, nG, |G|, 0, k, g - 1, c);
      tr := Then(prev, c);
    } else if k > 0 {
      tr := NaivePrefix(G, nG, row, k - 1, nG);
      assert (k - 1) * nG + nG == k * nG;
      Skip(Naive, tr, nG, |G|, 0, k - 1, nG, 0, k, 0);
    } else {
      tr := Start;
    }
  }

  /** Any schedule, in any of the orders, has `nG * kG` rotations and applies set after set. */
  lemma ScheduleMeaning(o: Order, G: RotationSets, nG: int, row: seq<real>, tr: Trace)
    requires 0 <= nG && |row| == nG + 1 && Fits(G, nG)
    requires IsSchedule(o, tr, nG, |G|)
    ensures Inside(tr, nG, |G|)
    ensures Run(G, nG, row, tr) == ApplySets(G, nG, row, |G|)
    ensures Length(tr) == |G| * nG
  {
    var naive := NaivePrefix(G, nG, row, |G|, 0);
    assert Cells(naive) == Cells(tr);
    CellsInside(tr, nG, |G|);
    ScheduleRespects(o, tr);
    ScheduleRespects(Naive, naive);
    TraceEquivalence(G, nG, row, naive, tr);
    LengthIsSize(o, tr);
    LengthIsSize(Naive, naive);
  }
}
