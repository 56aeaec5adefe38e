/** Givens rotations acting from the right on one row of a matrix, traces of such rotations,
    and the theorem that lets a schedule reorder them.

    A rotation of set `k` at position `g` mixes columns `g` and `g + 1`; it is named by the
    cell `Cell(g, k)` of the grid of rotations. */
module Rotations {

  datatype Rotation = Rotation(gamma: real, sigma: real) {
    predicate IsIdentity() { gamma == 1.0 && sigma == 0.0 }
    predicate IsGivens() { gamma * gamma + sigma * sigma == 1.0 }

    /** The new left and right entries that the two-column kernel makes of `x` and `y`. */
    function Left(x: real, y: real): real { gamma * x + sigma * y }
    function Right(x: real, y: real): real { -sigma * x + gamma * y }
  }

  /** `G[k][g]` is rotation `g` of set `k`. */
  type RotationSets = seq<seq<Rotation>>

  datatype Cell = Cell(g: int, k: int)

  predicate InGrid(c: Cell, nG: int, kG: int) {
    0 <= c.g < nG && 0 <= c.k < kG
  }

  /** Every set holds at least the `nG` rotations a matrix with `nG + 1` columns needs. */
  ghost predicate Fits(G: RotationSets, nG: int) {
    forall k | 0 <= k < |G| :: nG <= |G[k]|
  }

  /** True Givens rotations: every `gamma^2 + sigma^2 == 1`. */
  ghost predicate AllGivens(G: RotationSets, nG: int)
    requires Fits(G, nG)
  {
    forall k, g | 0 <= k < |G| && 0 <= g < nG :: G[k][g].IsGivens()
  }

  const Quarter: Rotation := Rotation(0.0, 1.0)
  const Identity: Rotation := Rotation(1.0, 0.0)

  /** The rotations applied so far, latest outermost. */
  datatype Trace = Start | Then(before: Trace, last: Cell)

  ghost function Cells(tr: Trace): set<Cell> {
    match tr
    case Start => {}
    case Then(before, c) => Cells(before) + {c}
  }

  function Length(tr: Trace): nat {
    match tr
    case Start => 0
    case Then(before, _) => Length(before) + 1
  }

  ghost predicate Inside(tr: Trace, nG: int, kG: int) {
    tr.Then? ==> Inside(tr.before, nG, kG) && InGrid(tr.last, nG, kG)
  }

  /** What the two-column kernel does to one row. */
  function Rotate(r: Rotation, row: seq<real>, g: int): (row': seq<real>)
    requires 0 <= g && g + 1 < |row|
    ensures |row'| == |row|
  {
    row[g := r.Left(row[g], row[g + 1])][g + 1 := r.Right(row[g], row[g + 1])]
  }

  /** Entry by entry: the two entries at `g` are mixed with `gamma` and `sigma`, the others stay. */
  lemma RotatedEntry(r: Rotation, row: seq<real>, g: int, j: int)
    requires 0 <= g && g + 1 < |row| && 0 <= j < |row|
    ensures Rotate(r, row, g)[j] == if j == g then r.gamma * row[g] + r.sigma * row[g + 1]
                                    else if j == g + 1 then -r.sigma * row[g] + r.gamma * row[g + 1]
                                    else row[j]
  {
  }

  lemma Cancel(t: real, d: real)
    requires t * d == 0.0 && d != 0.0
    ensures t == 0.0
  {
  }

  lemma LengthsMakeGivens(c: real, s: real, x: real, y: real, r: real)
    requires r != 0.0 && r * r == x * x + y * y && c * r == x && s * r == y
    ensures Rotation(c, s).IsGivens()
  {
    var q, d := c * c + s * s, r * r;
    assert x * x == c * c * d && y * y == s * s * d;
    if d == 0.0 { Cancel(r, r); }
    assert (q - 1.0) * d == 0.0;
    Cancel(q - 1.0, d);
  }

  /** What a Givens rotation is for: with `gamma = x / r` and `sigma = y / r`, where `r` is plus or minus
      the length of `(x, y)`, it maps `(x, y)` to `(r, 0)`. */
  lemma RotationAnnihilates(x: real, y: real, r: real, c: real, s: real)
    requires r != 0.0 && r * r == x * x + y * y && c * r == x && s * r == y
    ensures Rotation(c, s).IsGivens()
    ensures Rotation(c, s).Left(x, y) == r && Rotation(c, s).Right(x, y) == 0.0
  {
    LengthsMakeGivens(c, s, x, y, r);
    var q := c * c + s * s;
    assert c * x + s * y == q * r;
    assert s * x == s * c * r && c * y == c * s * r;
  }

  lemma PlaneUndone(c: real, s: real, x: real, y: real, x': real, y': real)
    requires Rotation(c, s).IsGivens() && x' == Rotation(c, s).Left(x, y) && y' == Rotation(c, s).Right(x, y)
    ensures Rotation(c, -s).Left(x', y') == x && Rotation(c, -s).Right(x', y') == y
  {
    var q := c * c + s * s;
    assert c * x' == c * c * x + c * s * y && s * y' == -(s * s * x) + s * c * y;
    assert s * x' == s * c * x + s * s * y && c * y' == -(c * s * x) + c * c * y;
    assert q * x == x && q * y == y;
  }

  /** The rotation with `-sigma` undoes the one with `sigma`. */
  lemma RotationUndone(c: real, s: real, row: seq<real>, g: int)
    requires Rotation(c, s).IsGivens() && 0 <= g && g + 1 < |row|
    ensures Rotate(Rotation(c, -s), Rotate(Rotation(c, s), row, g), g) == row
  {
    var row' := Rotate(Rotation(c, s), row, g);
    PlaneUndone(c, s, row[g], row[g + 1], row'[g], row'[g + 1]);
  }

  function Step(G: RotationSets, nG: int, row: seq<real>, c: Cell): (row': seq<real>)
    requires Fits(G, nG) && |row| == nG + 1 && InGrid(c, nG, |G|)
    ensures |row'| == nG + 1
  {
    Rotate(G[c.k][c.g], row, c.g)
  }

  /** Applies the rotations of a trace, earliest first. */
  ghost function Run(G: RotationSets, nG: int, row: seq<real>, tr: Trace): (row': seq<real>)
    requires Fits(G, nG) && |row| == nG + 1 && Inside(tr, nG, |G|)
    ensures |row'| == nG + 1
  {
    match tr
    case Start => row
    case Then(before, c) => Step(G, nG, Run(G, nG, row, before), c)
  }

  /** The meaning of the routine: set 0, then set 1, and so on; within a set, rotation 0 first. */
  ghost function ApplySet(G: RotationSets, nG: int, row: seq<real>, k: int, n: nat): (row': seq<real>)
    requires Fits(G, nG) && |row| == nG + 1 && 0 <= k < |G| && (n == 0 || n <= nG)
    ensures |row'| == nG + 1
  {
    if n == 0 then row else Step(G, nG, ApplySet(G, nG, row, k, n - 1), Cell(n - 1, k))
  }

  ghost function ApplySets(G: RotationSets, nG: int, row: seq<real>, kG: nat): (row': seq<real>)
    requires Fits(G, nG) && |row| == nG + 1 && kG <= |G|
    ensures |row'| == nG + 1
  {
    if kG == 0 then row
    else ApplySet(G, nG, ApplySets(G, nG, row, kG - 1), kG - 1, if nG < 0 then 0 else nG)
  }

  // ----- Reordering -----

  /** Two cells touch a common column. */
  predicate Overlap(c: Cell, d: Cell) {
    -1 <= c.g - d.g <= 1
  }

  /** Two cells share exactly one column. Only these do not commute: rotations of the same two
      columns do. */
  predicate Adjacent(c: Cell, d: Cell) {
    c.g - d.g == 1 || d.g - c.g == 1
  }

  /** The naive order: by set, then by position. */
  predicate Earlier(c: Cell, d: Cell) {
    c.k < d.k || (c.k == d.k && c.g < d.g)
  }

  predicate MayPrecede(c: Cell, d: Cell) {
    c != d && (Adjacent(c, d) ==> Earlier(c, d))
  }

  /** No repetitions, and adjacent rotations come in the naive order. */
  ghost predicate Respects(tr: Trace) {
    tr.Then? ==> Respects(tr.before) && forall c | c in Cells(tr.before) :: MayPrecede(c, tr.last)
  }

  /** The trace with (the latest occurrence of) `e` taken out. */
  ghost function Without(tr: Trace, e: Cell): Trace {
    match tr
    case Start => Start
    case Then(before, c) => if c == e then before else Then(Without(before, e), c)
  }

  function Put(row: seq<real>, g: int, x: real, y: real): seq<real>
    requires 0 <= g && g + 1 < |row|
  {
    row[g := x][g + 1 := y]
  }

  lemma PutsCommute(row: seq<real>, g: int, x: real, y: real, h: int, u: real, v: real)
    requires 0 <= g && g + 1 < |row| && 0 <= h && h + 1 < |row| && !(-1 <= g - h <= 1)
    ensures Put(Put(row, g, x, y), h, u, v) == Put(Put(row, h, u, v), g, x, y)
  {
  }

  lemma DisjointStepsCommute(G: RotationSets, nG: int, row: seq<real>, c: Cell, d: Cell)
    requires Fits(G, nG) && |row| == nG + 1 && InGrid(c, nG, |G|) && InGrid(d, nG, |G|)
    requires !Overlap(c, d)
    ensures Step(G, nG, Step(G, nG, row, c), d) == Step(G, nG, Step(G, nG, row, d), c)
  {
    var rc, rd := Step(G, nG, row, c), Step(G, nG, row, d);
    assert rc[d.g] == row[d.g] && rc[d.g + 1] == row[d.g + 1];
    assert rd[c.g] == row[c.g] && rd[c.g + 1] == row[c.g + 1];
    assert Step(G, nG, rc, d) == Put(rc, d.g, rd[d.g], rd[d.g + 1]);
    assert Step(G, nG, rd, c) == Put(rd, c.g, rc[c.g], rc[c.g + 1]);
    assert rc == Put(row, c.g, rc[c.g], rc[c.g + 1]) && rd == Put(row, d.g, rd[d.g], rd[d.g + 1]);
    PutsCommute(row, c.g, rc[c.g], rc[c.g + 1], d.g, rd[d.g], rd[d.g + 1]);
  }

  lemma PlaneCommutes(r: Rotation, s: Rotation, x: real, y: real)
    ensures s.Left(r.Left(x, y), r.Right(x, y)) == r.Left(s.Left(x, y), s.Right(x, y))
    ensures s.Right(r.Left(x, y), r.Right(x, y)) == r.Right(s.Left(x, y), s.Right(x, y))
  {
  }

  lemma SamePlaneStepsCommute(r: Rotation, s: Rotation, row: seq<real>, g: int)
    requires 0 <= g && g + 1 < |row|
    ensures Rotate(s, Rotate(r, row, g), g) == Rotate(r, Rotate(s, row, g), g)
  {
    PlaneCommutes(r, s, row[g], row[g + 1]);
  }

  lemma StepsCommute(G: RotationSets, nG: int, row: seq<real>, c: Cell, d: Cell)
    requires Fits(G, nG) && |row| == nG + 1 && InGrid(c, nG, |G|) && InGrid(d, nG, |G|)
    requires !Adjacent(c, d)
    ensures Step(G, nG, Step(G, nG, row, c), d) == Step(G, nG, Step(G, nG, row, d), c)
  {
    if c.g == d.g {
      SamePlaneStepsCommute(G[c.k][c.g], G[d.k][d.g], row, c.g);
    } else {
      DisjointStepsCommute(G, nG, row, c, d);
    }
  }

  /** A rotation that may follow all others of a trace may be delayed to its end. */
  lemma {:induction false} Delay(G: RotationSets, nG: int, row: seq<real>, tr: Trace, e: Cell)
    requires Fits(G, nG) && |row| == nG + 1 && Inside(tr, nG, |G|) && Respects(tr)
    requires e in Cells(tr) && forall c | c in Cells(tr) && c != e :: MayPrecede(c, e)
    ensures Inside(Without(tr, e), nG, |G|) && Respects(Without(tr, e))
    ensures Cells(Without(tr, e)) == Cells(tr) - {e} && InGrid(e, nG, |G|)
    ensures Run(G, nG, row, tr) == Step(G, nG, Run(G, nG, row, Without(tr, e)), e)
  {
    var before, c := tr.before, tr.last;
    if c == e {
      assert e !in Cells(before);
    } else {
      Delay(G, nG, row, before, e);
      assert MayPrecede(c, e) && MayPrecede(e, c);
      StepsCommute(G, nG, Run(G, nG, row, Without(before, e)), e, c);
    }
  }

  /** Trace equivalence: two orders of the same rotations that both keep the naive order of
      every adjacent pair have the same effect on every row. */
  lemma {:induction false} TraceEquivalence(G: RotationSets, nG: int, row: seq<real>, s: Trace, t: Trace)
    requires Fits(G, nG) && |row| == nG + 1 && Inside(s, nG, |G|) && Inside(t, nG, |G|)
    requires Respects(s) && Respects(t) && Cells(s) == Cells(t)
    ensures Run(G, nG, row, s) == Run(G, nG, row, t)
    decreases s
  {
    assert t.Then? ==> t.last in Cells(t);
    if s.Then? {
      var before, e := s.before, s.last;
      Delay(G, nG, row, t, e);
      assert Cells(before) == Cells(s) - {e};
      TraceEquivalence(G, nG, row, before, Without(t, e));
    }
  }
}
