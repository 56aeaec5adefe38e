/** The row-blocked drivers: `b_alg` rows at a time, each block handed to the unblocked variant. */
module RowBlocks {
  import opened Matrices
  import opened Rotations
  import opened Kernels
  import opened ApplyG

  /** What the block that starts at row `i` visits. */
  function Piece(i: int, m: int, b: int, inc: int): Stripe
    requires i <= m && 1 <= b
  {
    Stripe(i, Min(b, m - i), inc)
  }

  /** How many of the blocks from row `i` on visit row `p`. */
  ghost function Visits(p: int, i: int, m: int, b: int, inc: int): nat
    requires 1 <= b
    decreases m - i
  {
    if m <= i then 0
    else (if p in Visited(Piece(i, m, b, inc)) then 1 else 0) + Visits(p, i + Min(b, m - i), m, b, inc)
  }

  /** All sets applied `c` times over. */
  ghost function Repeated(G: RotationSets, nG: int, row: seq<real>, c: nat): (row': seq<real>)
    requires Fits(G, nG) && |row| == nG + 1
    ensures |row'| == nG + 1
  {
    if c == 0 then row else ApplySets(G, nG, Repeated(G, nG, row, c - 1), |G|)
  }

  ghost predicate Like(A: array2<real>, orig: seq<seq<real>>, G: RotationSets) {
    |orig| == A.Length0 && (forall p | 0 <= p < |orig| :: |orig[p]| == A.Length1) && Fits(G, A.Length1 - 1)
  }

  /** How many of the blocks before row `i` have visited row `p`. */
  ghost function Due(p: int, i: int, m: int, b: int, inc: int): nat
    requires 1 <= b
  {
    var c := Visits(p, 0, m, b, inc) - Visits(p, i, m, b, inc);
    if 0 <= c then c else 0
  }

  /** The blocks before row `i` have been handled. */
  ghost predicate Tallied(A: array2<real>, orig: seq<seq<real>>, G: RotationSets, m: int, b: int, inc: int, i: int)
    requires 1 <= b && Like(A, orig, G)
    reads A
  {
    forall p | 0 <= p < A.Length0 :: Row(A, p) == Repeated(G, A.Length1 - 1, orig[p], Due(p, i, m, b, inc))
  }

  /** The blocks from row `i` on visit no row more often than all blocks. */
  ghost predicate Fewer(m: int, b: int, inc: int, i: int)
    requires 1 <= b
  {
    forall p :: Visits(p, i, m, b, inc) <= Visits(p, 0, m, b, inc)
  }

  /** Every row has had all sets applied as many times as there are blocks that visit it. */
  ghost predicate Finished(A: array2<real>, orig: seq<seq<real>>, G: RotationSets, m: int, b: int, inc: int)
    requires 1 <= b && Like(A, orig, G)
    reads A
  {
    forall p | 0 <= p < A.Length0 :: Row(A, p) == Repeated(G, A.Length1 - 1, orig[p], Visits(p, 0, m, b, inc))
  }

  /** The rows that the blocks visit are rows of `A`. */
  ghost predicate Available(A: array2<real>, m: int, b: int, inc: int)
    requires 1 <= b
  {
    1 <= inc && forall p | 0 < Visits(p, 0, m, b, inc) :: 0 <= p < A.Length0
  }

  lemma PieceWithin(A: array2<real>, m: int, b: int, inc: int, i: int)
    requires 1 <= b && 0 <= i < m && Available(A, m, b, inc) && Fewer(m, b, inc, i)
    ensures Within(A, Piece(i, m, b, inc))
  {
    forall p | p in Visited(Piece(i, m, b, inc)) ensures 0 <= p < A.Length0 {
      assert 0 < Visits(p, i, m, b, inc) <= Visits(p, 0, m, b, inc);
    }
  }

  lemma NextDue(p: int, m: int, b: int, inc: int, i: int, next: int)
    requires 1 <= b && 0 <= i < m && next == i + Min(b, m - i)
    requires Visits(p, i, m, b, inc) <= Visits(p, 0, m, b, inc)
    ensures Visits(p, next, m, b, inc) <= Visits(p, 0, m, b, inc)
    ensures Due(p, next, m, b, inc) == Due(p, i, m, b, inc) + if p in Visited(Piece(i, m, b, inc)) then 1 else 0
  {
  }

  lemma NextPiece(A: array2<real>, orig: seq<seq<real>>, before: seq<seq<real>>, G: RotationSets,
                  m: int, b: int, inc: int, i: int, next: int)
    requires 1 <= b && 0 <= i < m && next == i + Min(b, m - i) && Like(A, orig, G) && Fewer(m, b, inc, i)
    requires Shaped(A, before, Piece(i, m, b, inc), G) && Applied(A, before, Piece(i, m, b, inc), G)
    requires forall p | 0 <= p < A.Length0 ::
      before[p] == Repeated(G, A.Length1 - 1, orig[p], Due(p, i, m, b, inc))
    ensures Tallied(A, orig, G, m, b, inc, next) && Fewer(m, b, inc, next)
  {
    forall p ensures Visits(p, next, m, b, inc) <= Visits(p, 0, m, b, inc) { NextDue(p, m, b, inc, i, next); }
    forall p | 0 <= p < A.Length0
      ensures Row(A, p) == Repeated(G, A.Length1 - 1, orig[p], Due(p, next, m, b, inc))
    {
      NextDue(p, m, b, inc, i, next);
    }
  }

  lemma AllTallied(A: array2<real>, orig: seq<seq<real>>, G: RotationSets, m: int, b: int, inc: int, i: int)
    requires 1 <= b && m <= i && Like(A, orig, G) && Tallied(A, orig, G, m, b, inc, i)
    ensures Finished(A, orig, G, m, b, inc)
  {
    forall p | 0 <= p < A.Length0 ensures Row(A, p) == Repeated(G, A.Length1 - 1, orig[p], Visits(p, 0, m, b, inc)) {
      assert Due(p, i, m, b, inc) == Visits(p, 0, m, b, inc);
    }
  }

  lemma NoneTallied(A: array2<real>, orig: seq<seq<real>>, G: RotationSets, m: int, b: int, inc: int)
    requires 1 <= b && Like(A, orig, G) && orig == Rows(A)
    ensures Fewer(m, b, inc, 0) && Tallied(A, orig, G, m, b, inc, 0)
  {
    forall p | 0 <= p < A.Length0 ensures Row(A, p) == Repeated(G, A.Length1 - 1, orig[p], Due(p, 0, m, b, inc)) {
      assert Due(p, 0, m, b, inc) == 0;
    }
  }

  // ----- The drivers -----

  /** One pass of the loop over variant 2. */
  method Block2(A: array2<real>, m_A: nat, inc: int, G: RotationSets, b_alg: int, i: int, ghost orig: seq<seq<real>>)
    returns (b: int)
    requires Like(A, orig, G) && 0 <= i < m_A && 1 <= b_alg && Available(A, m_A, b_alg, inc)
    requires Fewer(m_A, b_alg, inc, i) && Tallied(A, orig, G, m_A, b_alg, inc, i)
    modifies A
    ensures b == Min(b_alg, m_A - i)
    ensures Fewer(m_A, b_alg, inc, i + b) && Tallied(A, orig, G, m_A, b_alg, inc, i + b)
  {
    ghost var before := Rows(A);
    PieceWithin(A, m_A, b_alg, inc, i);
    var m_ahead := Max(0, m_A - i);
    b := Min(b_alg, m_ahead);
    ghost var _, _ := Var2(A, Stripe(i, b, inc), G);
    NextPiece(A, orig, before, G, m_A, b_alg, inc, i, i + b);
  }

  method Blocked2(A: array2<real>, m_A: nat, inc: int, G: RotationSets, b_alg: int)
    requires Fits(G, A.Length1 - 1) && 1 <= b_alg && Available(A, m_A, b_alg, inc)
    modifies A
    ensures Finished(A, old(Rows(A)), G, m_A, b_alg, inc)
  {
    ghost var orig := Rows(A);
    NoneTallied(A, orig, G, m_A, b_alg, inc);
    var i := 0;
    while i < m_A
      invariant 0 <= i <= m_A && Fewer(m_A, b_alg, inc, i) && Tallied(A, orig, G, m_A, b_alg, inc, i)
      decreases m_A - i
    {
      var b := Block2(A, m_A, inc, G, b_alg, i, orig);
      i := i + b;
    }
    AllTallied(A, orig, G, m_A, b_alg, inc, i);
  }

  /** One pass of the loop over variant 6. */
  method Block6(A: array2<real>, m_A: nat, inc: int, G: RotationSets, b_alg: int, i: int, ghost orig: seq<seq<real>>)
    returns (b: int)
    requires Like(A, orig, G) && 0 <= i < m_A && 1 <= b_alg && Available(A, m_A, b_alg, inc)
    requires Fewer(m_A, b_alg, inc, i) && Tallied(A, orig, G, m_A, b_alg, inc, i)
    modifies A
    ensures b == Min(b_alg, m_A - i)
    ensures Fewer(m_A, b_alg, inc, i + b) && Tallied(A, orig, G, m_A, b_alg, inc, i + b)
  {
    ghost var before := Rows(A);
    PieceWithin(A, m_A, b_alg, inc, i);
    var m_ahead := Max(0, m_A - i);
    b := Min(b_alg, m_ahead);
    ghost var _, _ := Var6(A, Stripe(i, b, inc), G);
    NextPiece(A, orig, before, G, m_A, b_alg, inc, i, i + b);
  }

  method Blocked6(A: array2<real>, m_A: nat, inc: int, G: RotationSets, b_alg: int)
    requires Fits(G, A.Length1 - 1) && 1 <= b_alg && Available(A, m_A, b_alg, inc)
    modifies A
    ensures Finished(A, old(Rows(A)), G, m_A, b_alg, inc)
  {
    ghost var orig := Rows(A);
    NoneTallied(A, orig, G, m_A, b_alg, inc);
    var i := 0;
    while i < m_A
      invariant 0 <= i <= m_A && Fewer(m_A, b_alg, inc, i) && Tallied(A, orig, G, m_A, b_alg, inc, i)
      decreases m_A - i
    {
      var b := Block6(A, m_A, inc, G, b_alg, i, orig);
      i := i + b;
    }
    AllTallied(A, orig, G, m_A, b_alg, inc, i);
  }

  /** One pass of the loop over variant 9. */
  method Block9(A: array2<real>, m_A: nat, inc: int, G: RotationSets, b_alg: int, i: int, ghost orig: seq<seq<real>>)
    returns (b: int)
    requires Like(A, orig, G) && 0 <= i < m_A && 1 <= b_alg && Available(A, m_A, b_alg, inc)
    requires 1 <= A.Length1 || 1 <= |G|
    requires Fewer(m_A, b_alg, inc, i) && Tallied(A, orig, G, m_A, b_alg, inc, i)
    modifies A
    ensures b == Min(b_alg, m_A - i)
    ensures Fewer(m_A, b_alg, inc, i + b) && Tallied(A, orig, G, m_A, b_alg, inc, i + b)
  {
    ghost var before := Rows(A);
    PieceWithin(A, m_A, b_alg, inc, i);
    var m_ahead := Max(0, m_A - i);
    b := Min(b_alg, m_ahead);
    ghost var _, _ := Var9(A, Stripe(i, b, inc), G);
    NextPiece(A, orig, before, G, m_A, b_alg, inc, i, i + b);
  }

  method Blocked9(A: array2<real>, m_A: nat, inc: int, G: RotationSets, b_alg: int)
    requires Fits(G, A.Length1 - 1) && 1 <= b_alg && Available(A, m_A, b_alg, inc)
    requires m_A == 0 || 1 <= A.Length1 || 1 <= |G|
    modifies A
    ensures Finished(A, old(Rows(A)), G, m_A, b_alg, inc)
  {
    ghost var orig := Rows(A);
    NoneTallied(A, orig, G, m_A, b_alg, inc);
    var i := 0;
    while i < m_A
      invariant 0 <= i <= m_A && Fewer(m_A, b_alg, inc, i) && Tallied(A, orig, G, m_A, b_alg, inc, i)
      decreases m_A - i
    {
      var b := Block9(A, m_A, inc, G, b_alg, i, orig);
      i := i + b;
    }
    AllTallied(A, orig, G, m_A, b_alg, inc, i);
  }

  /** One pass of the loop over variant 3. */
  method Block3(A: array2<real>, m_A: nat, inc: int, G: RotationSets, b_alg: int, i: int, ghost orig: seq<seq<real>>)
    returns (b: int)
    requires Like(A, orig, G) && 0 <= i < m_A && 1 <= b_alg && Available(A, m_A, b_alg, inc)
    requires 1 <= A.Length1 || 1 <= |G|
    requires Fewer(m_A, b_alg, inc, i) && Tallied(A, orig, G, m_A, b_alg, inc, i)
    modifies A
    ensures b == Min(b_alg, m_A - i)
    ensures Fewer(m_A, b_alg, inc, i + b) && Tallied(A, orig, G, m_A, b_alg, inc, i + b)
  {
    ghost var before := Rows(A);
    PieceWithin(A, m_A, b_alg, inc, i);
    var m_ahead := Max(0, m_A - i);
    b := Min(b_alg, m_ahead);
    ghost var _, _ := Var3(A, Stripe(i, b, inc), G);
    NextPiece(A, orig, before, G, m_A, b_alg, inc, i, i + b);
  }

  method Blocked3(A: array2<real>, m_A: nat, inc: int, G: RotationSets, b_alg: int)
    requires Fits(G, A.Length1 - 1) && 1 <= b_alg && Available(A, m_A, b_alg, inc)
    requires m_A == 0 || 1 <= A.Length1 || 1 <= |G|
    modifies A
    ensures Finished(A, old(Rows(A)), G, m_A, b_alg, inc)
  {
    ghost var orig := Rows(A);
    NoneTallied(A, orig, G, m_A, b_alg, inc);
    var i := 0;
    while i < m_A
      invariant 0 <= i <= m_A && Fewer(m_A, b_alg, inc, i) && Tallied(A, orig, G, m_A, b_alg, inc, i)
      decreases m_A - i
    {
      var b := Block3(A, m_A, inc, G, b_alg, i, orig);
      i := i + b;
    }
    AllTallied(A, orig, G, m_A, b_alg, inc, i);
  }

  // ----- Which rows are visited -----

  lemma {:induction false} VisitedBounds(s: Stripe, p: int)
    requires 1 <= s.inc && p in Visited(s)
    ensures s.first <= p <= s.first + (s.count - 1) * s.inc
    decreases s.count
  {
    if p != s.first {
      VisitedBounds(Tail(s), p);
      assert s.inc + (s.count - 2) * s.inc == (s.count - 1) * s.inc;
    } else {
      assert 0 <= (s.count - 1) * s.inc;
    }
  }

  lemma {:induction false} LastVisited(s: Stripe)
    requires 0 < s.count
    ensures s.first + (s.count - 1) * s.inc in Visited(s)
    decreases s.count
  {
    if 1 < s.count {
      LastVisited(Tail(s));
      assert s.inc + (s.count - 2) * s.inc == (s.count - 1) * s.inc;
    }
  }

  lemma {:induction false} UnitVisited(s: Stripe, p: int)
    requires s.inc == 1
    ensures p in Visited(s) <==> s.first <= p < s.first + s.count
    decreases s.count
  {
    if 0 < s.count { UnitVisited(Tail(s), p); }
  }

  lemma ProductGap(m: int, c: int, inc: int)
    requires c < m && 2 <= inc
    ensures m - c < (m - 1) * inc - (c - 1) * inc
  {
    assert (m - 1) * inc - (c - 1) * inc == (m - c) * inc;
    assert 0 <= (m - c) * (inc - 2);
  }

  /** The block after the one at `k * b` starts at the next multiple, or there is none. */
  lemma LastBlock(p: int, k: int, m: int, b: int, inc: int)
    requires 1 <= b && k * b < m
    ensures Visits(p, k * b + Min(b, m - k * b), m, b, inc) == Visits(p, k * b + b, m, b, inc)
  {
  }

  ghost predicate Hits(p: int, t: int, m: int, b: int, inc: int)
    requires 1 <= b
  {
    t * b < m && p in Visited(Piece(t * b, m, b, inc))
  }

  lemma NoBlocksAfter(k: nat, t: int, m: int, b: int)
    requires 1 <= b && m <= k * b && k <= t
    ensures m <= t * b
  {
    assert 0 <= (t - k) * b;
  }

  lemma {:induction false} HittingBlocks(p: int, k: nat, m: int, b: int, inc: int) returns (T: set<int>)
    requires 1 <= b
    ensures forall t :: t in T <==> k <= t && Hits(p, t, m, b, inc)
    ensures |T| == Visits(p, k * b, m, b, inc)
    decreases m - k * b
  {
    if m <= k * b {
      T := {};
      forall t | k <= t ensures !Hits(p, t, m, b, inc) { NoBlocksAfter(k, t, m, b); }
    } else {
      var next := k + 1;
      assert next * b == k * b + b;
      var rest := HittingBlocks(p, next, m, b, inc);
      LastBlock(p, k, m, b, inc);
      T := if Hits(p, k, m, b, inc) then rest + {k} else rest;
    }
  }

  /** The visits of row `p` are the blocks whose first row `t * b` is a multiple of the increment below it,
      for fewer than all rows of the block. */
  lemma VisitingBlocks(p: int, m: int, b: int, inc: int) returns (T: set<int>)
    requires 1 <= b && 1 <= inc
    ensures forall t :: t in T <==>
      && 0 <= t && t * b < m && t * b <= p && (p - t * b) % inc == 0
      && (p - t * b) / inc < if m - t * b < b then m - t * b else b
    ensures |T| == Visits(p, 0, m, b, inc)
  {
    T := HittingBlocks(p, 0, m, b, inc);
    forall t ensures t in T <==>
      && 0 <= t && t * b < m && t * b <= p && (p - t * b) % inc == 0
      && (p - t * b) / inc < if m - t * b < b then m - t * b else b
    {
      if t * b < m { VisitedIff(Piece(t * b, m, b, inc), p); }
    }
  }

  /** The rows visited are the next `count` rows if and only if the increment is one, or there is at
      most one row. */
  lemma VisitsNeighboursIff(s: Stripe)
    requires 1 <= s.inc
    ensures (forall p :: p in Visited(s) <==> s.first <= p < s.first + s.count) <==> s.inc == 1 || s.count <= 1
  {
    if s.inc == 1 {
      forall p ensures p in Visited(s) <==> s.first <= p < s.first + s.count { UnitVisited(s, p); }
    } else if 1 < s.count {
      LastVisited(s);
      ProductGap(s.count, 1, s.inc);
    }
  }

  lemma {:induction false} UnitVisits(p: int, i: int, m: int, b: int)
    requires 1 <= b
    ensures Visits(p, i, m, b, 1) == if i <= p < m then 1 else 0
    decreases m - i
  {
    if i < m {
      UnitVisited(Piece(i, m, b, 1), p);
      UnitVisits(p, i + Min(b, m - i), m, b);
    }
  }

  /** With a larger increment, several blocks do not reach the last row that one call visits. */
  lemma {:induction false} NotReached(p: int, i: int, m: int, b: int, inc: int)
    requires 1 <= b < m && 0 <= i && 2 <= inc && p == (m - 1) * inc
    ensures Visits(p, i, m, b, inc) == 0
    decreases m - i
  {
    if i < m {
      var c := Min(b, m - i);
      ProductGap(m, c, inc);
      assert p !in Visited(Piece(i, m, b, inc)) by {
        if p in Visited(Piece(i, m, b, inc)) { VisitedBounds(Piece(i, m, b, inc), p); }
      }
      NotReached(p, i + c, m, b, inc);
    }
  }

  /** The blocks together visit exactly the rows that one call on the whole matrix visits, each once,
      if and only if the increment is one or there is only one block. */
  lemma BlocksVisitOnceIff(m: nat, b: int, inc: int)
    requires 1 <= b && 1 <= inc
    ensures (forall p :: Visits(p, 0, m, b, inc) == if p in Visited(Stripe(0, m, inc)) then 1 else 0)
       <==> inc == 1 || m <= b
  {
    if inc == 1 {
      forall p ensures Visits(p, 0, m, b, inc) == if p in Visited(Stripe(0, m, inc)) then 1 else 0 {
        UnitVisits(p, 0, m, b);
        UnitVisited(Stripe(0, m, 1), p);
      }
    } else if b < m {
      LastVisited(Stripe(0, m, inc));
      NotReached((m - 1) * inc, 0, m, b, inc);
    } else {
      forall p ensures Visits(p, 0, m, b, inc) == if p in Visited(Stripe(0, m, inc)) then 1 else 0 {
        if 0 < m { assert Visits(p, m, m, b, inc) == 0; }
      }
    }
  }

  /** Then the driver does what one call on the whole matrix does. */
  lemma FinishedIsApplied(A: array2<real>, orig: seq<seq<real>>, G: RotationSets, m: nat, b: int, inc: int)
    requires 1 <= b && Shaped(A, orig, Stripe(0, m, inc), G) && Finished(A, orig, G, m, b, inc)
    requires inc == 1 || m <= b
    ensures Applied(A, orig, Stripe(0, m, inc), G)
  {
    BlocksVisitOnceIff(m, b, inc);
    forall p | 0 <= p < A.Length0
      ensures Row(A, p)
           == if p in Visited(Stripe(0, m, inc)) then ApplySets(G, A.Length1 - 1, orig[p], |G|) else orig[p]
    {
      assert Visits(p, 0, m, b, inc) == if p in Visited(Stripe(0, m, inc)) then 1 else 0;
      assert Repeated(G, A.Length1 - 1, orig[p], 0) == orig[p];
    }
  }

  lemma QuarterMoves(G: RotationSets, row: seq<real>)
    requires G == [[Quarter]] && row == [1.0, 0.0]
    ensures Fits(G, 1) && ApplySets(G, 1, row, 1) != row
  {
    assert ApplySets(G, 1, row, 0) == row;
    assert ApplySet(G, 1, row, 0, 1) == Rotate(Quarter, row, 0);
    assert Rotate(Quarter, row, 0)[0] == 0.0;
  }

  /** The blocks make of row `p` what one call makes of it. */
  ghost predicate RowLikeOneCall(G: RotationSets, nG: nat, row: seq<real>, p: int, m: nat, b: int, inc: int)
    requires 1 <= b && Fits(G, nG) && |row| == nG + 1
  {
    Repeated(G, nG, row, Visits(p, 0, m, b, inc))
      == if p in Visited(Stripe(0, m, inc)) then ApplySets(G, nG, row, |G|) else row
  }

  /** They do so for every row and all true Givens rotations. */
  ghost predicate LikeOneCall(m: nat, b: int, inc: int)
    requires 1 <= b
  {
    forall G: RotationSets, nG: nat, row: seq<real>, p: int | Fits(G, nG) && AllGivens(G, nG) && |row| == nG + 1 ::
      RowLikeOneCall(G, nG, row, p, m, b, inc)
  }

  lemma VisitedOnceIsLike(G: RotationSets, nG: nat, row: seq<real>, p: int, m: nat, b: int, inc: int)
    requires 1 <= b && Fits(G, nG) && |row| == nG + 1
    requires Visits(p, 0, m, b, inc) == if p in Visited(Stripe(0, m, inc)) then 1 else 0
    ensures RowLikeOneCall(G, nG, row, p, m, b, inc)
  {
    assert Repeated(G, nG, row, 0) == row;
    assert Repeated(G, nG, row, 1) == ApplySets(G, nG, row, |G|);
  }

  lemma MissedRow(G: RotationSets, row: seq<real>, p: int, m: nat, b: int, inc: int)
    requires 1 <= b < m && 2 <= inc && p == (m - 1) * inc
    requires G == [[Quarter]] && row == [1.0, 0.0]
    ensures Fits(G, 1) && AllGivens(G, 1) && !RowLikeOneCall(G, 1, row, p, m, b, inc)
  {
    LastVisited(Stripe(0, m, inc));
    NotReached(p, 0, m, b, inc);
    QuarterMoves(G, row);
    assert Repeated(G, 1, row, 0) == row;
  }

  /** A driver leaves what one call on the whole matrix leaves, whatever the matrix and the rotations are, if
      and only if the increment is one or there is only one block. */
  lemma BlockingIsExact(m: nat, b: int, inc: int)
    requires 1 <= b && 1 <= inc
    ensures LikeOneCall(m, b, inc) <==> inc == 1 || m <= b
  {
    if inc == 1 || m <= b {
      BlocksVisitOnceIff(m, b, inc);
      forall G: RotationSets, nG: nat, row: seq<real>, p: int | Fits(G, nG) && AllGivens(G, nG) && |row| == nG + 1
        ensures RowLikeOneCall(G, nG, row, p, m, b, inc)
      {
        VisitedOnceIsLike(G, nG, row, p, m, b, inc);
      }
    } else {
      MissedRow([[Quarter]], [1.0, 0.0], (m - 1) * inc, m, b, inc);
    }
  }
}
