/**
  nw_back_tracking: one trace from the bottom-right corner of the grids
  of a global-mode run, back to the origin.
 */
module GlobalAligner {
  import opened Recurrence
  import opened MatrixBuilder
  import opened Traceback

  /** The trace from the bottom-right corner of direction grid g ends at
      the origin. This is exactly when the loop of nw_back_tracking stops
      (see WalkReachesOrigin and WalkNeverReachesOrigin). */
  predicate EndsAtOrigin(p: Problem, g: seq<seq<Direction>>)
    requires DirectionGrid(p, g)
  {
    var t := Trace(p, g, |p.seq1|, |p.seq2|);
    t.endI == 0 && t.endJ == 0
  }

  /** The trace from the corner of the direction grid built for p ends at the origin. */
  predicate ReachesOrigin(p: Problem)
  {
    Covers(p) && EndsAtOrigin(p, DirGrid(p))
  }

  /** The cell the loop of nw_back_tracking is at after k passes: at the
      origin the loop has stopped, and at any other cell without a
      direction none of its branches fires, so the cell stays the same. */
  function Walk(p: Problem, g: seq<seq<Direction>>, k: nat): (c: (nat, nat))
    requires DirectionGrid(p, g)
    ensures InGrid(p, c.0, c.1)
  {
    if k == 0 then (|p.seq1|, |p.seq2|)
    else
      var c := Walk(p, g, k - 1);
      if (c.0 == 0 && c.1 == 0) || g[c.0][c.1] == None then c
      else
        var s := StepFrom(p, g, c.0, c.1);
        (s.i, s.j)
  }

  /** Every cell the loop visits has a trace that ends where the trace
      from the corner ends. */
  lemma {:induction false} WalkFollowsTrace(p: Problem, g: seq<seq<Direction>>, k: nat)
    requires DirectionGrid(p, g)
    ensures Trace(p, g, Walk(p, g, k).0, Walk(p, g, k).1).endI == Trace(p, g, |p.seq1|, |p.seq2|).endI
    ensures Trace(p, g, Walk(p, g, k).0, Walk(p, g, k).1).endJ == Trace(p, g, |p.seq1|, |p.seq2|).endJ
  {
    if k > 0 {
      WalkFollowsTrace(p, g, k - 1);
    }
  }

  /** When the corner trace ends elsewhere, the loop never reaches the
      origin: its condition holds after every number of passes. */
  lemma WalkNeverReachesOrigin(p: Problem, g: seq<seq<Direction>>)
    requires DirectionGrid(p, g) && !EndsAtOrigin(p, g)
    ensures forall k: nat :: Walk(p, g, k) != (0, 0)
  {
    forall k: nat
      ensures Walk(p, g, k) != (0, 0)
    {
      WalkFollowsTrace(p, g, k);
      OriginTrace(p, g);
    }
  }

  /** When the corner trace ends at the origin, every pass before the
      origin moves one step closer to it. */
  lemma {:induction false} WalkProgress(p: Problem, g: seq<seq<Direction>>, k: nat)
    requires DirectionGrid(p, g) && EndsAtOrigin(p, g)
    ensures Walk(p, g, k) == (0, 0) || Walk(p, g, k).0 + Walk(p, g, k).1 + k <= |p.seq1| + |p.seq2|
  {
    if k > 0 {
      WalkProgress(p, g, k - 1);
      var c := Walk(p, g, k - 1);
      WalkFollowsTrace(p, g, k - 1);
      if g[c.0][c.1] == None {
        assert Trace(p, g, c.0, c.1).endI == c.0 && Trace(p, g, c.0, c.1).endJ == c.1;
      }
    }
  }

  /** When the corner trace ends at the origin, the loop reaches it after
      at most |seq1| + |seq2| passes. */
  lemma WalkReachesOrigin(p: Problem, g: seq<seq<Direction>>)
    requires DirectionGrid(p, g) && EndsAtOrigin(p, g)
    ensures Walk(p, g, |p.seq1| + |p.seq2|) == (0, 0)
  {
    WalkProgress(p, g, |p.seq1| + |p.seq2|);
  }

  /** In global mode with sequences of equal length the corner trace
      always reaches the origin. */
  lemma EqualLengthsReachOrigin(p: Problem)
    requires Covers(p) && p.mode == Global && |p.seq1| == |p.seq2|
    ensures ReachesOrigin(p)
  {
    var t := Trace(p, DirGrid(p), |p.seq1|, |p.seq2|);
    GlobalNoneCells(p, t.endI, t.endJ);
  }

  /** In global mode with an empty seq1 and a non-empty seq2 the corner
      cell lies on row 0 beyond column |seq1| and has no direction, so the
      trace stops there and the loop of nw_back_tracking never returns. */
  lemma EmptyFirstNeverReachesOrigin(p: Problem)
    requires Covers(p) && p.mode == Global && |p.seq1| == 0 && |p.seq2| > 0
    ensures !ReachesOrigin(p)
    ensures forall k: nat :: Walk(p, DirGrid(p), k) != (0, 0)
  {
    RowZero(p, |p.seq2|);
    assert DirGrid(p)[0][|p.seq2|] == None;
    WalkNeverReachesOrigin(p, DirGrid(p));
  }

  /** The alignment from the corner of consistent grids whose corner trace
      ends at an origin scoring 0: the sequences are spelt out in full, no
      column is empty, and the column scores add up to the corner score. */
  lemma CornerAlignment(p: Problem, sc: seq<seq<int>>, g: seq<seq<Direction>>)
    requires Covers(p) && Consistent(p, sc, g) && EndsAtOrigin(p, g) && sc[0][0] == 0
    ensures var al := AlignmentFrom(p, sc, g, |p.seq1|, |p.seq2|);
            && RemoveGaps(al.top) == p.seq1
            && RemoveGaps(al.bottom) == p.seq2
            && NoEmptyColumn(al.top, al.bottom)
            && Scorable(p, al.top, al.bottom)
            && ColumnScore(p, al.top, al.bottom) == al.score
  {
    var a, b := |p.seq1|, |p.seq2|;
    TraceFacts(p, sc, g, a, b);
    assert p.seq1[0..a] == p.seq1 && p.seq2[0..b] == p.seq2;
  }

  /** The alignment of a global run that reaches the origin: gap-free
      sequences are spelt out in full, no column is empty, and the column
      scores add up to the score of the corner cell. */
  lemma GlobalAlignmentProperties(p: Problem)
    requires ReachesOrigin(p) && GapFree(p.seq1) && GapFree(p.seq2)
    ensures var al := AlignmentFrom(p, ScoreGrid(p), DirGrid(p), |p.seq1|, |p.seq2|);
            && RemoveGaps(al.top) == p.seq1
            && RemoveGaps(al.bottom) == p.seq2
            && NoEmptyColumn(al.top, al.bottom)
            && Scorable(p, al.top, al.bottom)
            && ColumnScore(p, al.top, al.bottom) == al.score == ScoreAt(p, |p.seq1|, |p.seq2|)
  {
    BuiltGridsConsistent(p);
    assert ScoreGrid(p)[0][0] == ScoreAt(p, 0, 0) == 0;
    CornerAlignment(p, ScoreGrid(p), DirGrid(p));
  }

  /** Walks from cell (|seq1|, |seq2|) to the origin, prepending one column
      per step, and returns the single triple (A, B, score of the corner)
      for the grids the two arrays hold. */
  method NwBackTracking(seq1: string, seq2: string, score: array2<int>, bt: array2<Direction>,
                        ghost p: Problem, ghost sc: seq<seq<int>>, ghost g: seq<seq<Direction>>)
    returns (alns: seq<Alignment>)
    requires p.seq1 == seq1 && p.seq2 == seq2
    requires DirectionGrid(p, g) && HoldsDirections(p, bt, g) && EndsAtOrigin(p, g)
    requires ScoreGridShape(p, sc) && HoldsScores(p, score, sc)
    ensures alns == [AlignmentFrom(p, sc, g, |seq1|, |seq2|)]
  {
    var A, B := "", "";
    var i: nat, j: nat := |seq1|, |seq2|;
    while i != 0 || j != 0
      invariant i <= |seq1| && j <= |seq2|
      invariant Trace(p, g, i, j).endI == 0 && Trace(p, g, i, j).endJ == 0
      invariant Trace(p, g, |seq1|, |seq2|).top == Trace(p, g, i, j).top + A
      invariant Trace(p, g, |seq1|, |seq2|).bottom == Trace(p, g, i, j).bottom + B
      decreases i + j
    {
      i, j, A, B := StepBack(seq1, seq2, bt, i, j, A, B, p, g);
    }
    OriginTrace(p, g);
    assert Trace(p, g, i, j).top == [];
    assert Trace(p, g, |seq1|, |seq2|).top == A;
    assert Trace(p, g, |seq1|, |seq2|).bottom == B;
    alns := [Alignment(A, B, score[|seq1|, |seq2|])];
  }
}
