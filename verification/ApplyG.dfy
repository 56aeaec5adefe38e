/** The variants of applying `k` sets of Givens rotations to the rows of one stripe of `A` from the
    right. They differ in the order of the rotations only; each also returns, as a ghost, the trace of
    the rotations it has applied. */
module ApplyG {
  import opened Rotations
  import opened Schedule
  import opened Kernels

  /** What every variant promises: every row of the stripe has had set after set applied. */
  ghost predicate Applied(A: array2<real>, orig: seq<seq<real>>, s: Stripe, G: RotationSets)
    requires Shaped(A, orig, s, G)
    reads A
  {
    forall i | 0 <= i < A.Length0 ::
      Row(A, i) == if i in Visited(s) then ApplySets(G, A.Length1 - 1, orig[i], |G|) else orig[i]
  }

  /** The variant has applied the whole grid of rotations, once each, in order `o`. */
  ghost predicate Followed(A: array2<real>, orig: seq<seq<real>>, s: Stripe, G: RotationSets, o: Order, tr: Trace)
    requires Shaped(A, orig, s, G)
    reads A
  {
    && Holds(A, orig, s, G, tr)
    && IsSchedule(o, tr, A.Length1 - 1, |G|)
  }

  lemma FollowedIsApplied(A: array2<real>, orig: seq<seq<real>>, s: Stripe, G: RotationSets, o: Order, tr: Trace)
    requires Shaped(A, orig, s, G) && Followed(A, orig, s, G, o, tr)
    ensures Applied(A, orig, s, G)
  {
    var nG := A.Length1 - 1;
    forall i | i in Visited(s) ensures Row(A, i) == ApplySets(G, nG, orig[i], |G|) {
      if 0 <= nG { ScheduleMeaning(o, G, nG, orig[i], tr); }
    }
  }

  lemma Complete(o: Order, tr: Trace, nG: int, kG: int, w: int, k: int, g: int)
    requires Emitted(o, tr, nG, kG, w, k, g)
    requires forall c | InGrid(c, nG, kG) :: Before(o, c, w, k, g)
    ensures IsSchedule(o, tr, nG, kG)
  {
  }

  /** Set after set, two columns at a time. */
  method Var1(A: array2<real>, s: Stripe, G: RotationSets) returns (ghost tr: Trace)
    requires Within(A, s) && Fits(G, A.Length1 - 1)
    modifies A
    ensures Followed(A, old(Rows(A)), s, G, Naive, tr)
    ensures Applied(A, old(Rows(A)), s, G)
  {
    ghost var orig := Rows(A);
    tr := Start;
    var nG_app := A.Length1 - 1;
    var l := 0;
    while l < |G|
      invariant 0 <= l <= |G|
      invariant Holds(A, orig, s, G, tr)
      invariant Emitted(Naive, tr, nG_app, |G|, 0, l, 0)
    {
      var j := 0;
      while j < nG_app
        invariant 0 <= j && (j <= nG_app || nG_app < 0)
        invariant Holds(A, orig, s, G, tr)
        invariant Emitted(Naive, tr, nG_app, |G|, 0, l, j)
      {
        ApplyOne(A, s, G, j, l, orig, tr);
        Emit(Naive, tr, nG_app, |G|, 0, l, j, Cell(j, l));
        tr := Then(tr, Cell(j, l));
        j := j + 1;
      }
      Skip(Naive, tr, nG_app, |G|, 0, l, j, 0, l + 1, 0);
      l := l + 1;
    }
    Complete(Naive, tr, nG_app, |G|, 0, l, 0);
    FollowedIsApplied(A, orig, s, G, Naive, tr);
  }

  // ----- Single wavefront -----

  lemma EmitDiagonal(tr: Trace, nG: int, kG: int, g: int, k: int)
    requires InGrid(Cell(g, k), nG, kG)
    requires Emitted(Single, tr, nG, kG, g + k, k, 0)
    ensures Emitted(Single, Then(tr, Cell(g, k)), nG, kG, g + k, k + 1, 0)
  {
    Emit(Single, tr, nG, kG, g + k, k, 0, Cell(g, k));
    Skip(Single, Then(tr, Cell(g, k)), nG, kG, g + k, k, g + 1, g + k, k + 1, 0);
  }

  /** An inner loop of variant 2: down one anti-diagonal, one rotation at a time. */
  method SweepSingles(A: array2<real>, s: Stripe, G: RotationSets, k0: int, k1: int, g0: int,
                      ghost orig: seq<seq<real>>, ghost tr0: Trace) returns (ghost tr: Trace)
    requires Shaped(A, orig, s, G) && Holds(A, orig, s, G, tr0)
    requires 0 <= k0 <= k1 <= |G| && g0 < A.Length1 - 1 && k1 - k0 <= g0 + 1
    requires Emitted(Single, tr0, A.Length1 - 1, |G|, g0 + k0, k0, 0)
    modifies A
    ensures Holds(A, orig, s, G, tr)
    ensures Emitted(Single, tr, A.Length1 - 1, |G|, g0 + k0, k1, 0)
  {
    tr := tr0;
    ghost var nG := A.Length1 - 1;
    var k, g := k0, g0;
    while k < k1
      invariant k0 <= k <= k1 && g + k == g0 + k0
      invariant Holds(A, orig, s, G, tr)
      invariant Emitted(Single, tr, nG, |G|, g0 + k0, k, 0)
    {
      ApplyOne(A, s, G, g, k, orig, tr);
      EmitDiagonal(tr, nG, |G|, g, k);
      tr := Then(tr, Cell(g, k));
      k, g := k + 1, g - 1;
    }
  }

  method Var2(A: array2<real>, s: Stripe, G: RotationSets) returns (ghost o: Order, ghost tr: Trace)
    requires Within(A, s) && Fits(G, A.Length1 - 1)
    modifies A
    ensures o == if A.Length1 - 1 < |G| - 1 || |G| == 1 then Naive else Single
    ensures Followed(A, old(Rows(A)), s, G, o, tr)
    ensures Applied(A, old(Rows(A)), s, G)
  {
    ghost var orig := Rows(A);
    var k_minus_1 := |G| - 1;
    var nG := A.Length1 - 1;
    if nG < k_minus_1 || |G| == 1 {
      o := Naive;
      tr := Var1(A, s, G);
      return;
    }
    o, tr := Single, Start;

    // Start-up phase.
    var j := 0;
    while j < k_minus_1
      invariant 0 <= j && (j <= k_minus_1 || k_minus_1 < 0)
      invariant Holds(A, orig, s, G, tr)
      invariant Emitted(Single, tr, nG, |G|, j, 0, 0)
    {
      var nG_app := j + 1;
      tr := SweepSingles(A, s, G, 0, nG_app, nG_app - 1, orig, tr);
      Skip(Single, tr, nG, |G|, j, nG_app, 0, j + 1, 0, 0);
      j := j + 1;
    }

    // Pipeline stage.
    j := k_minus_1;
    Skip(Single, tr, nG, |G|, if k_minus_1 < 0 then 0 else j, 0, 0, j, 0, 0);
    while j < nG
      invariant k_minus_1 <= j <= nG
      invariant Holds(A, orig, s, G, tr)
      invariant Emitted(Single, tr, nG, |G|, j, 0, 0)
    {
      var nG_app := |G|;
      tr := SweepSingles(A, s, G, 0, nG_app, j, orig, tr);
      Skip(Single, tr, nG, |G|, j, nG_app, 0, j + 1, 0, 0);
      j := j + 1;
    }

    // Shutdown stage.
    j := nG - k_minus_1;
    Skip(Single, tr, nG, |G|, nG, 0, 0, j + k_minus_1, 0, 0);
    while j < nG
      invariant nG - k_minus_1 <= j && (j <= nG || k_minus_1 < 0)
      invariant Holds(A, orig, s, G, tr)
      invariant Emitted(Single, tr, nG, |G|, j + k_minus_1, 0, 0)
    {
      var nG_app := nG - j;
      Skip(Single, tr, nG, |G|, j + k_minus_1, 0, 0, j + k_minus_1, |G| - nG_app, 0);
      tr := SweepSingles(A, s, G, |G| - nG_app, |G|, nG - 1, orig, tr);
      Skip(Single, tr, nG, |G|, j + k_minus_1, |G|, 0, j + 1 + k_minus_1, 0, 0);
      j := j + 1;
    }
    Complete(Single, tr, nG, |G|, j + k_minus_1, 0, 0);
    FollowedIsApplied(A, orig, s, G, Single, tr);
  }

  /** An inner loop of variant 6: down one anti-diagonal, two rotations at a time, then an odd one. */
  method SweepDiagonalPairs(A: array2<real>, s: Stripe, G: RotationSets, k0: int, nG_app: int, g0: int,
                            ghost orig: seq<seq<real>>, ghost tr0: Trace) returns (ghost tr: Trace)
    requires Shaped(A, orig, s, G) && Holds(A, orig, s, G, tr0)
    requires 0 <= k0 && 0 <= nG_app && k0 + nG_app <= |G| && g0 < A.Length1 - 1 && nG_app <= g0 + 1
    requires Emitted(Single, tr0, A.Length1 - 1, |G|, g0 + k0, k0, 0)
    modifies A
    ensures Holds(A, orig, s, G, tr)
    ensures Emitted(Single, tr, A.Length1 - 1, |G|, g0 + k0, k0 + nG_app, 0)
  {
    tr := tr0;
    ghost var nG := A.Length1 - 1;
    var n_iter, n_left := nG_app / 2, nG_app % 2;
    var i, k, g := 0, k0, g0;
    while i < n_iter
      invariant 0 <= i <= n_iter && k == k0 + 2 * i && g == g0 - 2 * i
      invariant Holds(A, orig, s, G, tr)
      invariant Emitted(Single, tr, nG, |G|, g0 + k0, k, 0)
    {
      ApplyDiagonalPair(A, s, G, g, k, orig, tr);
      EmitDiagonal(tr, nG, |G|, g, k);
      EmitDiagonal(Then(tr, Cell(g, k)), nG, |G|, g - 1, k + 1);
      tr := Pair(tr, Cell(g, k), Cell(g - 1, k + 1));
      i, k, g := i + 1, k + 2, g - 2;
    }
    if n_left == 1 {
      ApplyOne(A, s, G, g, k, orig, tr);
      EmitDiagonal(tr, nG, |G|, g, k);
      tr := Then(tr, Cell(g, k));
    }
  }

  method Var6(A: array2<real>, s: Stripe, G: RotationSets) returns (ghost o: Order, ghost tr: Trace)
    requires Within(A, s) && Fits(G, A.Length1 - 1)
    modifies A
    ensures o == if A.Length1 - 1 < |G| - 1 || |G| == 1 then Naive else Single
    ensures Followed(A, old(Rows(A)), s, G, o, tr)
    ensures Applied(A, old(Rows(A)), s, G)
  {
    ghost var orig := Rows(A);
    var k_minus_1 := |G| - 1;
    var nG := A.Length1 - 1;
    if nG < k_minus_1 || |G| == 1 {
      o := Naive;
      tr := Var1(A, s, G);
      return;
    }
    o, tr := Single, Start;

    // Start-up phase.
    var j := 0;
    while j < k_minus_1
      invariant 0 <= j && (j <= k_minus_1 || k_minus_1 < 0)
      invariant Holds(A, orig, s, G, tr)
      invariant Emitted(Single, tr, nG, |G|, j, 0, 0)
    {
      var nG_app := j + 1;
      tr := SweepDiagonalPairs(A, s, G, 0, nG_app, nG_app - 1, orig, tr);
      Skip(Single, tr, nG, |G|, j, nG_app, 0, j + 1, 0, 0);
      j := j + 1;
    }

    // Pipeline stage.
    j := k_minus_1;
    Skip(Single, tr, nG, |G|, if k_minus_1 < 0 then 0 else j, 0, 0, j, 0, 0);
    while j < nG
      invariant k_minus_1 <= j <= nG
      invariant Holds(A, orig, s, G, tr)
      invariant Emitted(Single, tr, nG, |G|, j, 0, 0)
    {
      var nG_app := |G|;
      tr := SweepDiagonalPairs(A, s, G, 0, nG_app, j, orig, tr);
      Skip(Single, tr, nG, |G|, j, nG_app, 0, j + 1, 0, 0);
      j := j + 1;
    }

    // Shutdown stage.
    j := 1;
    while j < |G|
      invariant 1 <= j && (j <= |G| || |G| == 0)
      invariant Holds(A, orig, s, G, tr)
      invariant Emitted(Single, tr, nG, |G|, nG - 1 + j, 0, 0)
    {
      var nG_app := |G| - j;
      Skip(Single, tr, nG, |G|, nG - 1 + j, 0, 0, nG - 1 + j, j, 0);
      tr := SweepDiagonalPairs(A, s, G, j, nG_app, nG - 1, orig, tr);
      Skip(Single, tr, nG, |G|, nG - 1 + j, |G|, 0, nG + j, 0, 0);
      j := j + 1;
    }
    Complete(Single, tr, nG, |G|, nG - 1 + j, 0, 0);
    FollowedIsApplied(A, orig, s, G, Single, tr);
  }

  // ----- Double wavefront -----

  /** The remainder operator of C. */
  function CMod(x: int, y: int): int
    requires y != 0
  {
    if x >= 0 then x % y else -((-x) % y)
  }

  /** Two neighbours of one set, in wave `w`. */
  lemma EmitPair(tr: Trace, nG: int, kG: int, w: int, g: int, k: int)
    requires g + k + 1 == 2 * w && InGrid(Cell(g, k), nG, kG) && InGrid(Cell(g + 1, k), nG, kG)
    requires Emitted(Double, tr, nG, kG, w, k, 0)
    ensures Emitted(Double, Pair(tr, Cell(g, k), Cell(g + 1, k)), nG, kG, w, k + 1, 0)
  {
    Emit(Double, tr, nG, kG, w, k, 0, Cell(g, k));
    Emit(Double, Then(tr, Cell(g, k)), nG, kG, w, k, g + 1, Cell(g + 1, k));
    Skip(Double, Pair(tr, Cell(g, k), Cell(g + 1, k)), nG, kG, w, k, g + 2, w, k + 1, 0);
  }

  /** The last cell of a start-up wave: position 0 of set `k`. */
  lemma EmitFirstColumn(tr: Trace, nG: int, kG: int, w: int, k: int)
    requires k == 2 * w && InGrid(Cell(0, k), nG, kG)
    requires Emitted(Double, tr, nG, kG, w, k, 0)
    ensures Emitted(Double, Then(tr, Cell(0, k)), nG, kG, w + 1, 0, 0)
  {
    Emit(Double, tr, nG, kG, w, k, 0, Cell(0, k));
    Skip(Double, Then(tr, Cell(0, k)), nG, kG, w, k, 1, w + 1, 0, 0);
  }

  /** The first cell of a shutdown wave: the last position of set `k`. */
  lemma EmitLastColumn(tr: Trace, nG: int, kG: int, w: int, k: int)
    requires nG + k == 2 * w && InGrid(Cell(nG - 1, k), nG, kG)
    requires Emitted(Double, tr, nG, kG, w, 0, 0)
    ensures Emitted(Double, Then(tr, Cell(nG - 1, k)), nG, kG, w, k + 1, 0)
  {
    Emit(Double, tr, nG, kG, w, 0, 0, Cell(nG - 1, k));
    Skip(Double, Then(tr, Cell(nG - 1, k)), nG, kG, w, k, nG, w, k + 1, 0);
  }

  /** After the last set of a wave comes the next wave. */
  lemma NextWave(tr: Trace, nG: int, kG: int, w: int)
    requires Emitted(Double, tr, nG, kG, w, kG, 0)
    ensures Emitted(Double, tr, nG, kG, w + 1, 0, 0)
  {
    Skip(Double, tr, nG, kG, w, kG, 0, w + 1, 0, 0);
  }

  /** An inner loop of variant 9: down two anti-diagonals, two rotations of one set at a time. */
  method SweepNeighbours(A: array2<real>, s: Stripe, G: RotationSets, k0: int, n_iter: int, g0: int,
                         ghost w: int, ghost orig: seq<seq<real>>, ghost tr0: Trace)
    returns (k: int, g: int, ghost tr: Trace)
    requires Shaped(A, orig, s, G) && Holds(A, orig, s, G, tr0)
    requires 0 <= k0 && 0 <= n_iter && k0 + n_iter <= |G|
    requires g0 + 1 < A.Length1 - 1 && n_iter <= g0 + 1 && g0 + k0 + 1 == 2 * w
    requires Emitted(Double, tr0, A.Length1 - 1, |G|, w, k0, 0)
    modifies A
    ensures k == k0 + n_iter && g == g0 - n_iter
    ensures Holds(A, orig, s, G, tr)
    ensures Emitted(Double, tr, A.Length1 - 1, |G|, w, k, 0)
  {
    tr := tr0;
    var i := 0;
    k, g := k0, g0;
    while i < n_iter
      invariant 0 <= i <= n_iter && k == k0 + i && g == g0 - i
      invariant Holds(A, orig, s, G, tr)
      invariant Emitted(Double, tr, A.Length1 - 1, |G|, w, k, 0)
    {
      ApplyNeighbours(A, s, G, g, k, orig, tr);
      EmitPair(tr, A.Length1 - 1, |G|, w, g, k);
      tr := Pair(tr, Cell(g, k), Cell(g + 1, k));
      i, k, g := i + 1, k + 1, g - 1;
    }
  }

  method Var9(A: array2<real>, s: Stripe, G: RotationSets) returns (ghost o: Order, ghost tr: Trace)
    requires Within(A, s) && Fits(G, A.Length1 - 1)
    requires 1 <= A.Length1 || 1 <= |G|
    modifies A
    ensures o == if A.Length1 - 1 < 2 * (|G| - 1) || |G| == 1 then Naive else Double
    ensures Followed(A, old(Rows(A)), s, G, o, tr)
    ensures Applied(A, old(Rows(A)), s, G)
  {
    ghost var orig := Rows(A);
    var k_minus_1 := |G| - 1;
    var nG := A.Length1 - 1;
    if nG < 2 * k_minus_1 || |G| == 1 {
      o := Naive;
      tr := Var1(A, s, G);
      return;
    }
    o, tr := Double, Start;
    ghost var w := 0;
    var k, g;

    // Start-up phase.
    var j := -1;
    while j < k_minus_1
      invariant -1 <= j <= |G| && j == 2 * w - 1 && (|G| == 0 ==> j == -1)
      invariant Holds(A, orig, s, G, tr)
      invariant Emitted(Double, tr, nG, |G|, w, 0, 0)
    {
      k, g, tr := SweepNeighbours(A, s, G, 0, j + 1, j, w, orig, tr);
      ApplyOne(A, s, G, g + 1, k, orig, tr);
      EmitFirstColumn(tr, nG, |G|, w, k);
      tr := Then(tr, Cell(g + 1, k));
      j := j + 2;
      w := w + 1;
    }

    // Pipeline stage.
    while j < nG - 1
      invariant k_minus_1 <= j <= nG && j == 2 * w - 1
      invariant Holds(A, orig, s, G, tr)
      invariant Emitted(Double, tr, nG, |G|, w, 0, 0)
    {
      k, g, tr := SweepNeighbours(A, s, G, 0, |G|, j, w, orig, tr);
      NextWave(tr, nG, |G|, w);
      j := j + 2;
      w := w + 1;
    }

    // Shutdown stage.
    j := CMod(nG, 2);
    while j < |G|
      invariant 0 <= j <= |G| + 1 && nG + j == 2 * w
      invariant Holds(A, orig, s, G, tr)
      invariant Emitted(Double, tr, nG, |G|, w, 0, 0)
    {
      g, k := nG - 1, j;
      ApplyOne(A, s, G, g, k, orig, tr);
      EmitLastColumn(tr, nG, |G|, w, k);
      tr := Then(tr, Cell(g, k));
      k, g := k + 1, g - 1;
      k, g, tr := SweepNeighbours(A, s, G, k, k_minus_1 - j, g, w, orig, tr);
      NextWave(tr, nG, |G|, w);
      j := j + 2;
      w := w + 1;
    }
    Complete(Double, tr, nG, |G|, w, 0, 0);
    FollowedIsApplied(A, orig, s, G, Double, tr);
  }

  /** An inner loop of variant 3: down two anti-diagonals, a 2x2 block of rotations at a time. */
  method SweepBlocks(A: array2<real>, s: Stripe, G: RotationSets, k0: int, n_iter: int, g0: int,
                     ghost w: int, ghost orig: seq<seq<real>>, ghost tr0: Trace)
    returns (k: int, g: int, ghost tr: Trace)
    requires Shaped(A, orig, s, G) && Holds(A, orig, s, G, tr0)
    requires 0 <= k0 && 0 <= n_iter && k0 + 2 * n_iter <= |G|
    requires g0 + 1 < A.Length1 - 1 && 2 * n_iter <= g0 + 1 && g0 + k0 + 1 == 2 * w
    requires Emitted(Double, tr0, A.Length1 - 1, |G|, w, k0, 0)
    modifies A
    ensures k == k0 + 2 * n_iter && g == g0 - 2 * n_iter
    ensures Holds(A, orig, s, G, tr)
    ensures Emitted(Double, tr, A.Length1 - 1, |G|, w, k, 0)
  {
    tr := tr0;
    var i := 0;
    k, g := k0, g0;
    while i < n_iter
      invariant 0 <= i <= n_iter && k == k0 + 2 * i && g == g0 - 2 * i
      invariant Holds(A, orig, s, G, tr)
      invariant Emitted(Double, tr, A.Length1 - 1, |G|, w, k, 0)
    {
      ApplyBlock(A, s, G, g, k, orig, tr);
      EmitPair(tr, A.Length1 - 1, |G|, w, g, k);
      EmitPair(Pair(tr, Cell(g, k), Cell(g + 1, k)), A.Length1 - 1, |G|, w, g - 1, k + 1);
      tr := Block(tr, g, k);
      i, k, g := i + 1, k + 2, g - 2;
    }
  }

  /** The pipeline and shutdown loops of variant 3: blocks, then the pair left over when the
      number of sets is odd. */
  method SweepWave(A: array2<real>, s: Stripe, G: RotationSets, k0: int, nG_app: int, g0: int,
                   ghost w: int, ghost orig: seq<seq<real>>, ghost tr0: Trace) returns (ghost tr: Trace)
    requires Shaped(A, orig, s, G) && Holds(A, orig, s, G, tr0)
    requires 0 <= k0 && 0 <= nG_app && k0 + nG_app <= |G|
    requires g0 + 1 < A.Length1 - 1 && nG_app <= g0 + 1 && g0 + k0 + 1 == 2 * w
    requires Emitted(Double, tr0, A.Length1 - 1, |G|, w, k0, 0)
    modifies A
    ensures Holds(A, orig, s, G, tr)
    ensures Emitted(Double, tr, A.Length1 - 1, |G|, w, k0 + nG_app, 0)
  {
    var n_iter, n_left := nG_app / 2, nG_app % 2;
    var k, g;
    k, g, tr := SweepBlocks(A, s, G, k0, n_iter, g0, w, orig, tr0);
    if n_left == 1 {
      ApplyLeftoverPair(A, s, G, g, k, orig, tr);
      EmitPair(tr, A.Length1 - 1, |G|, w, g, k);
      tr := Pair(tr, Cell(g, k), Cell(g + 1, k));
    }
  }

  method Var3(A: array2<real>, s: Stripe, G: RotationSets) returns (ghost o: Order, ghost tr: Trace)
    requires Within(A, s) && Fits(G, A.Length1 - 1)
    requires 1 <= A.Length1 || 1 <= |G|
    modifies A
    ensures o == if A.Length1 - 1 < 2 * (|G| - 1) || |G| == 1 then Naive else Double
    ensures Followed(A, old(Rows(A)), s, G, o, tr)
    ensures Applied(A, old(Rows(A)), s, G)
  {
    ghost var orig := Rows(A);
    var k_minus_1 := |G| - 1;
    var nG := A.Length1 - 1;
    if nG < 2 * k_minus_1 || |G| == 1 {
      o := Naive;
      tr := Var1(A, s, G);
      return;
    }
    o, tr := Double, Start;
    ghost var w := 0;
    var k, g;

    // Start-up phase.
    var j := -1;
    while j < k_minus_1
      invariant -1 <= j <= |G| && j == 2 * w - 1 && (|G| == 0 ==> j == -1)
      invariant Holds(A, orig, s, G, tr)
      invariant Emitted(Double, tr, nG, |G|, w, 0, 0)
    {
      var nG_app := j + 2;
      k, g, tr := SweepBlocks(A, s, G, 0, nG_app / 2, j, w, orig, tr);
      ApplyOne(A, s, G, g + 1, k, orig, tr);
      EmitFirstColumn(tr, nG, |G|, w, k);
      tr := Then(tr, Cell(g + 1, k));
      j := j + 2;
      w := w + 1;
    }

    // Pipeline stage.
    while j < nG - 1
      invariant k_minus_1 <= j <= nG && j == 2 * w - 1
      invariant Holds(A, orig, s, G, tr)
      invariant Emitted(Double, tr, nG, |G|, w, 0, 0)
    {
      tr := SweepWave(A, s, G, 0, |G|, j, w, orig, tr);
      NextWave(tr, nG, |G|, w);
      j := j + 2;
      w := w + 1;
    }

    // Shutdown stage.
    j := CMod(nG, 2);
    while j < |G|
      invariant 0 <= j <= |G| + 1 && nG + j == 2 * w
      invariant Holds(A, orig, s, G, tr)
      invariant Emitted(Double, tr, nG, |G|, w, 0, 0)
    {
      g, k := nG - 1, j;
      ApplyOne(A, s, G, g, k, orig, tr);
      EmitLastColumn(tr, nG, |G|, w, k);
      tr := Then(tr, Cell(g, k));
      k, g := k + 1, g - 1;
      tr := SweepWave(A, s, G, k, k_minus_1 - j, g, w, orig, tr);
      NextWave(tr, nG, |G|, w);
      j := j + 2;
      w := w + 1;
    }
    Complete(Double, tr, nG, |G|, w, 0, 0);
    FollowedIsApplied(A, orig, s, G, Double, tr);
  }

  /** Variants that share an order apply the very same sequence of rotations: 2 and 6, and 3 and 9,
      whose guards are equal. */
  lemma SameOrderSameTrace(o: Order, t: Trace, u: Trace, nG: int, kG: int)
    requires IsSchedule(o, t, nG, kG) && IsSchedule(o, u, nG, kG)
    ensures t == u
  {
    assert Cells(t) == Cells(u);
    SortedIsUnique(o, t, u);
  }

  /** Every schedule holds each cell of the grid once, so it applies `k (n - 1)` rotations. */
  lemma ScheduleLength(o: Order, tr: Trace, nG: nat, kG: nat)
    requires IsSchedule(o, tr, nG, kG)
    ensures Length(tr) == kG * nG && Respects(tr)
  {
    ScheduleRespects(o, tr);
    var row := seq(nG + 1, i => 0.0);
    var G := seq(kG, k => seq(nG, g => Rotation(1.0, 0.0)));
    ScheduleMeaning(o, G, nG, row, tr);
  }

  // ----- The first access of the shutdown stage of variants 3 and 9 -----

  predicate UsesSimpleVariant(nG: int, kG: int) { nG < 2 * (kG - 1) || kG == 1 }

  /** The shutdown loop of variants 3 and 9 is entered, at set `CMod(nG, 2)` and position `nG - 1`. */
  predicate ShutdownRuns(nG: int, kG: int) { !UsesSimpleVariant(nG, kG) && CMod(nG, 2) < kG }

  /** The remainder of C is negative for `nG == -1`: with no columns and no sets the loop runs and
      reads a rotation outside the grid. This is the only such case. */
  lemma ShutdownStartsInGrid(n_A: nat, kG: nat)
    ensures (ShutdownRuns(n_A - 1, kG) ==> InGrid(Cell(n_A - 2, CMod(n_A - 1, 2)), n_A - 1, kG))
       <==> 1 <= n_A || 1 <= kG
  {
  }
}
