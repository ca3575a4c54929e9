/**
  What a score cell means: no alignment of the prefixes it covers scores
  more. This holds in local mode for a non-negative gap penalty, and in
  global mode up to column |seq1| of row 0, or everywhere when the gap
  penalty is non-negative. Beyond that column the border loop leaves 0
  where the recurrence would need -j*gap, which inflates the scores that
  depend on those cells (RowZeroInflatesScore). For "A" against "BC"
  the inflated corner is never reported (InflatedCornerIsNeverReported).
 */
module Optimality {
  import opened Recurrence
  import opened MatrixBuilder
  import opened Traceback
  import opened GlobalAligner
  import opened LocalAligner

  /** top over bottom aligns x with y: deleting the gap markers gives back
      x and y, and no column is a gap on both sides. */
  predicate AlignmentOf(top: string, bottom: string, x: string, y: string)
  {
    |top| == |bottom| && RemoveGaps(top) == x && RemoveGaps(bottom) == y && NoEmptyColumn(top, bottom)
  }

  /** A slice that ends in c ends in s[b - 1], and the rest is the
      slice one shorter. */
  lemma LastOfSlice(s: string, a: nat, b: nat, r: string, c: char)
    requires a <= b <= |s| && s[a..b] == r + [c]
    ensures a < b && c == s[b - 1] && r == s[a..b - 1]
  {
    assert |s[a..b]| == |r| + 1;
    assert (r + [c])[|r|] == c;
    assert (r + [c])[..|r|] == r;
  }

  /** Dropping the last column of a string that spells s[a..b]: a gap marker
      leaves the slice, a symbol is s[b - 1] and shortens the slice by one. */
  lemma DropLast(t: string, s: string, a: nat, b: nat)
    requires a <= b <= |s| && |t| > 0 && RemoveGaps(t) == s[a..b]
    ensures var n := |t| - 1;
            if t[n] == Gap then RemoveGaps(t[..n]) == s[a..b]
            else a < b && t[n] == s[b - 1] && RemoveGaps(t[..n]) == s[a..b - 1]
  {
    var n := |t| - 1;
    var r := RemoveGaps(t[..n]);
    assert RemoveGaps(t) == r + (if t[n] == Gap then [] else [t[n]]);
    if t[n] != Gap {
      LastOfSlice(s, a, b, r, t[n]);
    }
  }

  /** Dropping the last column of an alignment leaves an alignment. */
  lemma DropLastColumn(top: string, bottom: string, s1: string, a: nat, i: nat, s2: string, b: nat, j: nat)
    requires a <= i <= |s1| && b <= j <= |s2| && |top| > 0
    requires AlignmentOf(top, bottom, s1[a..i], s2[b..j])
    ensures var n := |top| - 1;
            && !(top[n] == Gap && bottom[n] == Gap)
            && (top[n] != Gap ==> a < i && top[n] == s1[i - 1])
            && (bottom[n] != Gap ==> b < j && bottom[n] == s2[j - 1])
            && AlignmentOf(top[..n], bottom[..n],
                           s1[a..if top[n] == Gap then i else i - 1],
                           s2[b..if bottom[n] == Gap then j else j - 1])
  {
    DropLast(top, s1, a, i);
    DropLast(bottom, s2, b, j);
  }

  /** In global mode no alignment of seq1[..i] with seq2[..j] scores more
      than cell (i, j), as long as j stays within the part of row 0 the
      border loop sets or the gap penalty is non-negative (the 0 the loop
      leaves beyond column |seq1| is then no lower than -j*gap). */
  lemma {:induction false} GlobalScoreIsOptimal(p: Problem, i: nat, j: nat, top: string, bottom: string)
    requires Covers(p) && p.mode == Global && InGrid(p, i, j) && (j <= |p.seq1| || p.gap >= 0)
    requires AlignmentOf(top, bottom, p.seq1[0..i], p.seq2[0..j])
    ensures ColumnScore(p, top, bottom) <= ScoreAt(p, i, j)
    decreases |top|
  {
    if top == [] {
      assert |p.seq1[0..i]| == 0 && |p.seq2[0..j]| == 0;
    } else {
      var n := |top| - 1;
      DropLastColumn(top, bottom, p.seq1, 0, i, p.seq2, 0, j);
      var i' := if top[n] == Gap then i else i - 1;
      var j' := if bottom[n] == Gap then j else j - 1;
      GlobalScoreIsOptimal(p, i', j', top[..n], bottom[..n]);
      if i >= 1 && j >= 1 {
        InteriorIsBest(p, i, j);
      } else if i == 0 {
        RowZeroStep(p, j);
      }
    }
  }

  /** Along row 0 one more gap never scores above the next cell, as long
      as that cell is set by the border loop or the gap penalty is
      non-negative. */
  lemma RowZeroStep(p: Problem, j: nat)
    requires Covers(p) && p.mode == Global && 1 <= j <= |p.seq2| && (j <= |p.seq1| || p.gap >= 0)
    ensures ScoreAt(p, 0, j - 1) - p.gap <= ScoreAt(p, 0, j)
  {
    RowZero(p, j);
    RowZero(p, j - 1);
    if j > |p.seq1| && j - 1 <= |p.seq1| {
      assert -((j - 1) * p.gap) <= 0;
    }
  }

  /** In local mode with a non-negative gap penalty no alignment of a slice
      of seq1 ending at i with a slice of seq2 ending at j scores more than
      cell (i, j). */
  lemma {:induction false} LocalScoreIsOptimal(p: Problem, a: nat, i: nat, b: nat, j: nat, top: string, bottom: string)
    requires Covers(p) && p.mode == Local && p.gap >= 0
    requires a <= i <= |p.seq1| && b <= j <= |p.seq2|
    requires AlignmentOf(top, bottom, p.seq1[a..i], p.seq2[b..j])
    ensures ColumnScore(p, top, bottom) <= ScoreAt(p, i, j)
    decreases |top|
  {
    if top != [] {
      var n := |top| - 1;
      DropLastColumn(top, bottom, p.seq1, a, i, p.seq2, b, j);
      var i' := if top[n] == Gap then i else i - 1;
      var j' := if bottom[n] == Gap then j else j - 1;
      LocalScoreIsOptimal(p, a, i', b, j', top[..n], bottom[..n]);
      if i >= 1 && j >= 1 {
        InteriorIsBest(p, i, j);
      }
    }
  }

  /** In global mode, whenever nw_back_tracking terminates (the corner
      trace reaches the origin, as it does for sequences of equal length)
      and the row-0 cells beyond column |seq1| cannot undercut the true
      border, the alignment it reports is an alignment of the two sequences
      and no alignment of them scores more. */
  lemma GlobalAlignmentIsOptimal(p: Problem, top: string, bottom: string)
    requires p.mode == Global && ReachesOrigin(p) && GapFree(p.seq1) && GapFree(p.seq2)
    requires |p.seq2| <= |p.seq1| || p.gap >= 0
    requires AlignmentOf(top, bottom, p.seq1, p.seq2)
    ensures var al := AlignmentFrom(p, ScoreGrid(p), DirGrid(p), |p.seq1|, |p.seq2|);
            && AlignmentOf(al.top, al.bottom, p.seq1, p.seq2)
            && ColumnScore(p, top, bottom) <= ColumnScore(p, al.top, al.bottom)
  {
    var a, b := |p.seq1|, |p.seq2|;
    var al := AlignmentFrom(p, ScoreGrid(p), DirGrid(p), a, b);
    GlobalAlignmentProperties(p);
    assert ColumnScore(p, al.top, al.bottom) == ScoreAt(p, a, b);
    assert p.seq1[0..a] == p.seq1 && p.seq2[0..b] == p.seq2;
    assert AlignmentOf(top, bottom, p.seq1[0..a], p.seq2[0..b]);
    GlobalScoreIsOptimal(p, a, b, top, bottom);
  }

  /** In local mode with a non-negative gap penalty, the alignment
      sw_back_tracking reports from cell (i, j) scores at least as much as
      every alignment of slices of seq1 and seq2 ending at i and j. */
  lemma LocalAlignmentIsOptimal(p: Problem, a: nat, i: nat, b: nat, j: nat, top: string, bottom: string)
    requires Covers(p) && p.mode == Local && p.gap >= 0 && GapFree(p.seq1) && GapFree(p.seq2)
    requires a <= i <= |p.seq1| && b <= j <= |p.seq2|
    requires AlignmentOf(top, bottom, p.seq1[a..i], p.seq2[b..j])
    ensures var t := Trace(p, DirGrid(p), i, j);
            ColumnScore(p, top, bottom) <= ColumnScore(p, t.top, t.bottom)
  {
    LocalAlignmentProperties(p, i, j);
    LocalScoreIsOptimal(p, a, i, b, j, top, bottom);
  }

  /** An alignment of the empty string with y is made of gap-over-symbol
      columns only, and scores -|y| * gap. */
  lemma {:induction false} EmptyAgainst(p: Problem, top: string, bottom: string, y: string)
    requires AlignmentOf(top, bottom, [], y)
    ensures ColumnScore(p, top, bottom) == -(|y| * p.gap)
    decreases |top|
  {
    if top != [] {
      var n := |top| - 1;
      assert y[0..|y|] == y;
      DropLastColumn(top, bottom, [], 0, 0, y, 0, |y|);
      EmptyAgainst(p, top[..n], bottom[..n], y[0..|y| - 1]);
      assert -((|y| - 1) * p.gap) - p.gap == -(|y| * p.gap);
    }
  }

  /** A global run of "A" against "BC" with gap penalty 1. */
  function InflationExample(): (p: Problem)
    ensures Covers(p) && p.mode == Global && |p.seq1| < |p.seq2|
  {
    Problem("A", "BC", map[('A', 'B') := -1, ('A', 'C') := -1], 1, Global)
  }

  /** The border loop stops at column |seq1| of row 0: for "A" against
      "BC", cell (0, 2) holds 0 although every alignment of the empty
      prefix of seq1 with "BC" scores -2, and the corner cell holds -1. */
  lemma RowZeroInflatesScore(top: string, bottom: string)
    requires AlignmentOf(top, bottom, [], "BC")
    ensures ScoreAt(InflationExample(), 0, 2) == 0
    ensures ColumnScore(InflationExample(), top, bottom) == -2
    ensures ScoreAt(InflationExample(), 1, 2) == -1
  {
    var p := InflationExample();
    EmptyAgainst(p, top, bottom, "BC");
    RowZero(p, 2);
    RowZero(p, 1);
    ColumnZero(p, 1);
    assert ScoreAt(p, 1, 1) == -1;
  }

  /** The inflated corner of "A" against "BC" is never reported: it points
      Up into cell (0, 2), which has no direction, so the loop of
      nw_back_tracking never reaches the origin. */
  lemma InflatedCornerIsNeverReported()
    ensures DirAt(InflationExample(), 1, 2) == Up
    ensures !ReachesOrigin(InflationExample())
  {
    var p := InflationExample();
    RowZero(p, 2);
    RowZero(p, 1);
    ColumnZero(p, 1);
    assert ScoreAt(p, 1, 1) == -1;
    assert LeftOf(p, 1, 2) == -2 && DiagOf(p, 1, 2) == -2 && UpOf(p, 1, 2) == -1;
    CellFromNeighbours(p, 1, 2, -2, -2, -1);
    var g := DirGrid(p);
    assert g[1][2] == Up && g[0][2] == None;
    assert Trace(p, g, 0, 2) == Path([], [], 0, 2);
    assert StepFrom(p, g, 1, 2).i == 0 && StepFrom(p, g, 1, 2).j == 2;
  }
}
