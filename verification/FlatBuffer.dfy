/** The kernels on a column-major buffer: what the variants do when the cells of the rows they visit are
    all different, and what becomes of their agreement when they are not. */
module FlatBuffer {
  import opened Rotations
  import opened Schedule
  import opened Kernels
  import opened Strided
  import opened Exactness

  /** The `m` visited rows of the `n` columns lie in the buffer, perhaps on top of each other. */
  ghost predicate InRange(len: int, m: int, n: int, inc: int, cs: int) {
    forall i, j | 0 <= i < m && 0 <= j < n :: 0 <= Idx(i, j, inc, cs) < len
  }

  ghost predicate CellsDiffer(m: int, n: int, inc: int, cs: int) {
    forall i, j, i', j' | 0 <= i < m && 0 <= j < n && 0 <= i' < m && 0 <= j' < n ::
      Idx(i, j, inc, cs) == Idx(i', j', inc, cs) ==> i == i' && j == j'
  }

  /** One pass of the kernel's loop, on two cells of the buffer. */
  function Turn(buf: seq<real>, r: Rotation, x: int, y: int): (buf': seq<real>)
    ensures |buf'| == |buf|
  {
    if 0 <= x < |buf| && 0 <= y < |buf| then buf[x := r.Left(buf[x], buf[y])][y := r.Right(buf[x], buf[y])] else buf
  }

  /** The two-column kernel on columns `g` and `g + 1`: its first `m` rows, `inc` apart. */
  function Kernel(buf: seq<real>, r: Rotation, g: int, m: nat, inc: int, cs: int): (buf': seq<real>)
    ensures |buf'| == |buf|
  {
    if m == 0 then buf
    else Turn(Kernel(buf, r, g, m - 1, inc, cs), r, Idx(m - 1, g, inc, cs), Idx(m - 1, g + 1, inc, cs))
  }

  /** The kernels of a trace, earliest first. */
  ghost function FlatRun(G: RotationSets, nG: int, buf: seq<real>, tr: Trace, m: nat, inc: int, cs: int)
    : (buf': seq<real>)
    requires Fits(G, nG) && Inside(tr, nG, |G|)
    ensures |buf'| == |buf|
  {
    match tr
    case Start => buf
    case Then(before, c) => Kernel(FlatRun(G, nG, buf, before, m, inc, cs), G[c.k][c.g], c.g, m, inc, cs)
  }

  // ----- When the cells differ -----

  lemma TurnOnRows(buf: seq<real>, r: Rotation, g: int, i: nat, x: int, y: int, m: nat, n: nat, inc: int, cs: int,
                   rows: seq<seq<real>>, was: seq<real>)
    requires 0 <= g && g + 1 < n && i < m && x == Idx(i, g, inc, cs) && y == Idx(i, g + 1, inc, cs)
    requires |rows| == m && forall p | 0 <= p < m :: |rows[p]| == n
    requires Contains(buf, Partly(rows, r, g, n, i), was, m, n, inc, cs)
    ensures Contains(Turn(buf, r, x, y), Partly(rows, r, g, n, i + 1), was, m, n, inc, cs)
  {
    EntriesRotated(buf, Turn(buf, r, x, y), r, i, g, m, n, inc, cs);
  }

  /** A kernel rotates the visited rows, one after the other, and nothing else. */
  lemma {:induction false} KernelOnRows(buf: seq<real>, r: Rotation, g: int, i: nat, m: nat, n: nat, inc: int, cs: int,
                                        rows: seq<seq<real>>, was: seq<real>)
    requires 0 <= g && g + 1 < n && i <= m
    requires |rows| == m && forall p | 0 <= p < m :: |rows[p]| == n
    requires Contains(buf, rows, was, m, n, inc, cs)
    ensures Contains(Kernel(buf, r, g, i, inc, cs), Partly(rows, r, g, n, i), was, m, n, inc, cs)
    decreases i
  {
    if i == 0 {
      assert Partly(rows, r, g, n, 0) == rows;
    } else {
      KernelOnRows(buf, r, g, i - 1, m, n, inc, cs, rows, was);
      TurnOnRows(Kernel(buf, r, g, i - 1, inc, cs), r, g, i - 1, Idx(i - 1, g, inc, cs), Idx(i - 1, g + 1, inc, cs),
                 m, n, inc, cs, rows, was);
    }
  }

  ghost function RunRows(G: RotationSets, rows: seq<seq<real>>, tr: Trace, n: nat): (rows': seq<seq<real>>)
    requires Fits(G, n - 1) && Inside(tr, n - 1, |G|) && forall p | 0 <= p < |rows| :: |rows[p]| == n
    ensures |rows'| == |rows| && forall p | 0 <= p < |rows| :: |rows'[p]| == n && rows'[p] == Run(G, n - 1, rows[p], tr)
  {
    seq(|rows|, p requires 0 <= p < |rows| => Run(G, n - 1, rows[p], tr))
  }

  lemma StepOnRows(G: RotationSets, buf: seq<real>, before: Trace, c: Cell, m: nat, n: nat, inc: int, cs: int,
                   rows: seq<seq<real>>, was: seq<real>)
    requires Fits(G, n - 1) && Inside(Then(before, c), n - 1, |G|)
    requires |rows| == m && forall p | 0 <= p < m :: |rows[p]| == n
    requires Contains(buf, RunRows(G, rows, before, n), was, m, n, inc, cs)
    ensures Contains(Kernel(buf, G[c.k][c.g], c.g, m, inc, cs), RunRows(G, rows, Then(before, c), n),
                     was, m, n, inc, cs)
  {
    var cur, r := RunRows(G, rows, before, n), G[c.k][c.g];
    KernelOnRows(buf, r, c.g, m, m, n, inc, cs, cur, was);
    assert Partly(cur, r, c.g, n, m) == RunRows(G, rows, Then(before, c), n);
  }

  /** A trace of kernels runs that trace on every visited row and leaves every other cell. */
  lemma {:induction false} FlatRunOnRows(G: RotationSets, buf: seq<real>, tr: Trace, m: nat, n: nat, inc: int, cs: int)
    requires Layout(|buf|, m, n, inc, cs) && Fits(G, n - 1) && Inside(tr, n - 1, |G|)
    ensures Contains(FlatRun(G, n - 1, buf, tr, m, inc, cs), RunRows(G, RowsOf(buf, m, n, inc, cs), tr, n),
                     buf, m, n, inc, cs)
  {
    var rows := RowsOf(buf, m, n, inc, cs);
    if tr.Start? {
      assert RunRows(G, rows, tr, n) == rows;
    } else {
      FlatRunOnRows(G, buf, tr.before, m, n, inc, cs);
      StepOnRows(G, FlatRun(G, n - 1, buf, tr.before, m, inc, cs), tr.before, tr.last, m, n, inc, cs, rows, buf);
    }
  }

  /** The rows and the padding determine the buffer. */
  lemma SameContents(b: seq<real>, c: seq<real>, rows: seq<seq<real>>, was: seq<real>,
                     m: nat, n: nat, inc: int, cs: int)
    requires Contains(b, rows, was, m, n, inc, cs) && Contains(c, rows, was, m, n, inc, cs)
    ensures b == c
  {
    forall x | 0 <= x < |b| ensures b[x] == c[x] {
      if !Padding(x, m, n, inc, cs) {
        var i, j :| 0 <= i < m && 0 <= j < n && Idx(i, j, inc, cs) == x;
        assert b[x] == RowOf(b, i, m, n, inc, cs)[j] && c[x] == RowOf(c, i, m, n, inc, cs)[j];
      }
    }
  }

  lemma SchedulesOnRows(o: Order, o': Order, G: RotationSets, rows: seq<seq<real>>, tr: Trace, tr': Trace, n: nat)
    requires 1 <= n && Fits(G, n - 1) && forall p | 0 <= p < |rows| :: |rows[p]| == n
    requires IsSchedule(o, tr, n - 1, |G|) && IsSchedule(o', tr', n - 1, |G|)
    ensures Inside(tr, n - 1, |G|) && Inside(tr', n - 1, |G|)
    ensures RunRows(G, rows, tr, n) == RunRows(G, rows, tr', n)
  {
    CellsInside(tr, n - 1, |G|);
    CellsInside(tr', n - 1, |G|);
    forall p | 0 <= p < |rows| ensures Run(G, n - 1, rows[p], tr) == Run(G, n - 1, rows[p], tr') {
      ScheduleMeaning(o, G, n - 1, rows[p], tr);
      ScheduleMeaning(o', G, n - 1, rows[p], tr');
    }
  }

  /** When the cells differ, any two schedules leave the same buffer. */
  lemma SchedulesAgree(o: Order, o': Order, G: RotationSets, buf: seq<real>, tr: Trace, tr': Trace,
                       m: nat, n: nat, inc: int, cs: int)
    requires InRange(|buf|, m, n, inc, cs) && CellsDiffer(m, n, inc, cs) && 1 <= n && Fits(G, n - 1)
    requires IsSchedule(o, tr, n - 1, |G|) && IsSchedule(o', tr', n - 1, |G|)
    ensures Inside(tr, n - 1, |G|) && Inside(tr', n - 1, |G|)
    ensures FlatRun(G, n - 1, buf, tr, m, inc, cs) == FlatRun(G, n - 1, buf, tr', m, inc, cs)
  {
    assert Layout(|buf|, m, n, inc, cs);
    var rows := RowsOf(buf, m, n, inc, cs);
    SchedulesOnRows(o, o', G, rows, tr, tr', n);
    FlatRunOnRows(G, buf, tr, m, n, inc, cs);
    FlatRunOnRows(G, buf, tr', m, n, inc, cs);
    SameContents(FlatRun(G, n - 1, buf, tr, m, inc, cs), FlatRun(G, n - 1, buf, tr', m, inc, cs),
                 RunRows(G, rows, tr, n), buf, m, n, inc, cs);
  }

  // ----- The increment two -----

  lemma OddProduct(e: int, cs: int)
    requires e % 2 == 1 && cs % 2 == 1
    ensures e * cs % 2 == 1
  {
    var a, b := e / 2, cs / 2;
    assert e * cs == 2 * (2 * a * b + a + b) + 1;
  }

  lemma AtLeastMultiple(k: int, e: int, cs: int)
    requires k <= e && 1 <= cs
    ensures k * cs <= e * cs
  {
    assert 0 <= (e - k) * cs;
  }

  /** Two cells of different columns, `d` rows and `e` columns apart. */
  lemma MeetingCells(d: int, e: int, m: nat, n: nat, cs: int)
    requires 1 <= cs && 1 <= e < n && 2 * d == e * cs && d < m
    ensures if cs % 2 == 0 then cs < 2 * m else cs < m && 3 <= n
  {
    AtLeastMultiple(1, e, cs);
    if cs % 2 == 1 {
      if e % 2 == 1 { OddProduct(e, cs); }
      AtLeastMultiple(2, e, cs);
    }
  }

  /** With the increment two, the cells of `m` rows and `n` columns differ if and only if there is one column,
      or the rows fit into half a column, or, for an odd number of cells in a column, into a whole one or
      there are two columns. */
  lemma CellsDifferIff(m: nat, n: nat, cs: int)
    requires 1 <= m && 1 <= n && 1 <= cs
    ensures CellsDiffer(m, n, 2, cs) <==> n == 1 || (if cs % 2 == 0 then 2 * m <= cs else m <= cs || n == 2)
  {
    if n == 1 || (if cs % 2 == 0 then 2 * m <= cs else m <= cs || n == 2) {
      forall i, j, i', j' | 0 <= i < m && 0 <= j < n && 0 <= i' < m && 0 <= j' < n
        ensures Idx(i, j, 2, cs) == Idx(i', j', 2, cs) ==> i == i' && j == j'
      {
        if Idx(i, j, 2, cs) == Idx(i', j', 2, cs) {
          assert 2 * (i - i') == (j' - j) * cs;
          if j < j' { MeetingCells(i - i', j' - j, m, n, cs); }
          if j' < j {
            assert 2 * (i' - i) == (j - j') * cs;
            MeetingCells(i' - i, j - j', m, n, cs);
          }
        }
      }
    } else if cs % 2 == 0 {
      assert Idx(cs / 2, 0, 2, cs) == Idx(0, 1, 2, cs);
    } else {
      assert Idx(cs, 0, 2, cs) == Idx(0, 2, 2, cs);
    }
  }

  /** When a column has exactly `m` cells, the cells lie in the buffer if and only if there is one row. */
  lemma DefaultStridesIff(m: nat, n: nat)
    requires 1 <= m && 1 <= n
    ensures InRange(n * m, m, n, 2, m) <==> m == 1
  {
    if m == 1 {
      forall i, j | 0 <= i < m && 0 <= j < n ensures 0 <= Idx(i, j, 2, m) < n * m {}
    } else {
      assert Idx(m - 1, n - 1, 2, m) == 2 * (m - 1) + n * m - m >= n * m;
    }
  }

  // ----- When cells meet -----

  lemma {:induction false} IdentityKernel(buf: seq<real>, g: int, m: nat, inc: int, cs: int)
    ensures Kernel(buf, Identity, g, m, inc, cs) == buf
  {
    if m > 0 { IdentityKernel(buf, g, m - 1, inc, cs); }
  }

  ghost function FlatTurned(buf: seq<real>, tr: Trace, c: Cell, m: nat, inc: int, cs: int): (buf': seq<real>)
    ensures |buf'| == |buf|
  {
    if c in Cells(tr) then Kernel(buf, Quarter, c.g, m, inc, cs) else buf
  }

  /** Two quarter turns among identities turn the buffer in the order of the trace. */
  lemma {:induction false} FlatQuarterTurns(nG: nat, kG: nat, buf: seq<real>, tr: Trace, c: Cell, d: Cell,
                                            m: nat, inc: int, cs: int)
    requires c != d && InGrid(c, nG, kG) && InGrid(d, nG, kG) && Inside(tr, nG, kG) && Distinct(tr)
    requires c in Cells(tr) && d in Cells(tr) ==> Index(tr, c) < Index(tr, d)
    ensures FlatRun(QuarterTurns(nG, kG, c, d), nG, buf, tr, m, inc, cs)
         == FlatTurned(FlatTurned(buf, tr, c, m, inc, cs), tr, d, m, inc, cs)
  {
    if tr.Then? {
      var before, e := tr.before, tr.last;
      if c in Cells(before) && d in Cells(before) {
        assert Index(before, c) == Index(tr, c) && Index(before, d) == Index(tr, d);
      }
      FlatQuarterTurns(nG, kG, buf, before, c, d, m, inc, cs);
      if e == c {
        if d in Cells(before) { IndexInRange(before, d); }
      } else if e != d {
        IdentityKernel(FlatTurned(FlatTurned(buf, before, c, m, inc, cs), before, d, m, inc, cs), e.g, m, inc, cs);
      }
    }
  }

  /** Three rotations of two sets in the naive order, and by anti-diagonals. */
  ghost function NaiveSix(): Trace {
    Then(Then(Then(Then(Then(Then(Start, Cell(0, 0)), Cell(1, 0)), Cell(2, 0)), Cell(0, 1)), Cell(1, 1)), Cell(2, 1))
  }

  ghost function SingleSix(): Trace {
    Then(Then(Then(Then(Then(Then(Start, Cell(0, 0)), Cell(1, 0)), Cell(0, 1)), Cell(2, 0)), Cell(1, 1)), Cell(2, 1))
  }

  lemma SixAreSchedules()
    ensures IsSchedule(Naive, NaiveSix(), 3, 2) && IsSchedule(Single, SingleSix(), 3, 2)
    ensures Inside(NaiveSix(), 3, 2) && Inside(SingleSix(), 3, 2)
  {
    CellsInside(NaiveSix(), 3, 2);
    CellsInside(SingleSix(), 3, 2);
  }

  /** A kernel's last pass. */
  lemma LastTurn(buf: seq<real>, r: Rotation, g: int, m: nat, inc: int, cs: int, before: seq<real>, x: int, y: int)
    requires 0 < m && before == Kernel(buf, r, g, m - 1, inc, cs)
    requires x == Idx(m - 1, g, inc, cs) && y == Idx(m - 1, g + 1, inc, cs)
    ensures Kernel(buf, r, g, m, inc, cs) == Turn(before, r, x, y)
  {
  }

  lemma TurnQuarter(buf: seq<real>, x: int, y: int)
    requires 0 <= x < |buf| && 0 <= y < |buf|
    ensures Turn(buf, Quarter, x, y) == buf[x := buf[y]][y := -buf[x]]
  {
  }

  /** Three cells of which each takes what the next one holds. */
  function Cycled(buf: seq<real>, x: int, y: int, z: int): (buf': seq<real>)
    requires 0 <= x < |buf| && 0 <= y < |buf| && 0 <= z < |buf|
    ensures |buf'| == |buf|
  {
    buf[x := buf[y]][y := buf[z]][z := buf[x]]
  }

  /** Two rows whose pairs of cells meet in `y`: the quarter turn moves three cells around. */
  lemma QuarterKernel(buf: seq<real>, g: int, m: nat, inc: int, cs: int, x: int, y: int, z: int)
    requires m == 2 && 0 <= x < y < z < |buf|
    requires x == Idx(m - 2, g, inc, cs) && y == Idx(m - 2, g + 1, inc, cs)
    requires y == Idx(m - 1, g, inc, cs) && z == Idx(m - 1, g + 1, inc, cs)
    ensures Kernel(buf, Quarter, g, m, inc, cs) == Cycled(buf, x, y, z)
  {
    LastTurn(buf, Quarter, g, m - 1, inc, cs, buf, x, y);
    TurnQuarter(buf, x, y);
    var once := buf[x := buf[y]][y := -buf[x]];
    LastTurn(buf, Quarter, g, m, inc, cs, once, y, z);
    TurnQuarter(once, y, z);
  }

  /** Where the cells lie when rows and columns are two cells apart. */
  lemma EvenCells(i: int, j: int, inc: int, cs: int)
    requires inc == 2 && cs == 2
    ensures Idx(i, j, inc, cs) == 2 * (i + j)
  {
  }

  lemma KernelTwice(buf: seq<real>, g: int, m: nat, inc: int, cs: int)
    requires m == 2 && inc == 2 && cs == 2 && 0 <= g && 2 * g + 4 < |buf|
    ensures Kernel(buf, Quarter, g, m, inc, cs) == Cycled(buf, 2 * g, 2 * g + 2, 2 * g + 4)
  {
    EvenCells(m - 2, g, inc, cs);
    EvenCells(m - 2, g + 1, inc, cs);
    EvenCells(m - 1, g, inc, cs);
    EvenCells(m - 1, g + 1, inc, cs);
    QuarterKernel(buf, g, m, inc, cs, 2 * g, 2 * g + 2, 2 * g + 4);
  }

  /** Nine cells, with one in cell `e`. */
  function OneIn(e: int): (buf: seq<real>)
    ensures |buf| == 9
  {
    seq(9, p => if p == e then 1.0 else 0.0)
  }

  /** Where the kernel at `g` moves the one. */
  function Moved(e: int, g: int): int {
    if e == 2 * g then 2 * g + 4 else if e == 2 * g + 2 then 2 * g else if e == 2 * g + 4 then 2 * g + 2 else e
  }

  lemma OneMoves(e: int, g: int, m: nat, inc: int, cs: int, buf: seq<real>)
    requires m == 2 && inc == 2 && cs == 2 && 0 <= g && 2 * g + 4 < 9 && buf == OneIn(e)
    ensures Kernel(buf, Quarter, g, m, inc, cs) == OneIn(Moved(e, g))
  {
    KernelTwice(buf, g, m, inc, cs);
    OneCycles(e, 2 * g, buf);
  }

  lemma OneCycles(e: int, x: int, buf: seq<real>)
    requires 0 <= x && x + 4 < 9 && buf == OneIn(e)
    ensures Cycled(buf, x, x + 2, x + 4)
         == OneIn(if e == x then x + 4 else if e == x + 2 then x else if e == x + 4 then x + 2 else e)
  {
  }

  lemma Ends(tr: Trace, c: Cell, d: Cell, e: int, m: nat, inc: int, cs: int)
    requires m == 2 && inc == 2 && cs == 2 && c != d && InGrid(c, 3, 2) && InGrid(d, 3, 2)
    requires Inside(tr, 3, 2) && Distinct(tr) && c in Cells(tr) && d in Cells(tr) && Index(tr, c) < Index(tr, d)
    ensures FlatRun(QuarterTurns(3, 2, c, d), 3, OneIn(e), tr, m, inc, cs) == OneIn(Moved(Moved(e, c.g), d.g))
  {
    FlatQuarterTurns(3, 2, OneIn(e), tr, c, d, m, inc, cs);
    OneMoves(e, c.g, m, inc, cs, OneIn(e));
    OneMoves(Moved(e, c.g), d.g, m, inc, cs, Kernel(OneIn(e), Quarter, c.g, m, inc, cs));
  }

  /** So with the increment two, two rows, four columns of two cells, and a buffer that holds them, the naive
      order and the anti-diagonals leave different buffers: the kernels at 0 and at 2 meet in cell 4. */
  lemma SchedulesDiffer(G: RotationSets, buf: seq<real>, t: Trace, u: Trace, m: nat, inc: int, cs: int)
    requires m == 2 && inc == 2 && cs == 2 && buf == OneIn(4) && G == QuarterTurns(3, 2, Cell(2, 0), Cell(0, 1))
    requires IsSchedule(Naive, t, 3, 2) && IsSchedule(Single, u, 3, 2)
    ensures InRange(|buf|, m, 4, inc, cs) && Inside(t, 3, 2) && Inside(u, 3, 2)
    ensures FlatRun(G, 3, buf, t, m, inc, cs) != FlatRun(G, 3, buf, u, m, inc, cs)
  {
    forall i, j | 0 <= i < m && 0 <= j < 4 ensures 0 <= Idx(i, j, inc, cs) < |buf| { EvenCells(i, j, inc, cs); }
    var c, d := Cell(2, 0), Cell(0, 1);
    CellsInside(t, 3, 2);
    CellsInside(u, 3, 2);
    SortedIndex(Naive, t, c, d);
    SortedIndex(Single, u, d, c);
    Ends(t, c, d, 4, m, inc, cs);
    Ends(u, d, c, 4, m, inc, cs);
    TurnsSymmetric(3, 2, c, d);
    assert OneIn(8)[8] != OneIn(2)[8];
  }
}
