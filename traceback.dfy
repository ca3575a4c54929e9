/**
  What a trace through the direction grid produces, shared by the global
  and the local traceback: starting from a cell, follow the directions
  (Left consumes a symbol of seq2, Up one of seq1, Diagonal one of each)
  and prepend one column per step, until a cell with no direction.
 */
module Traceback {
  import opened Recurrence
  import opened MatrixBuilder

  /** The gap marker written into an aligned string. */
  const Gap: char := '-'

  /** An alignment triple (A, B, score) as the tracebacks return it. */
  datatype Alignment = Alignment(top: string, bottom: string, score: int)

  /** The two aligned strings of a trace and the cell where it stopped. */
  datatype Path = Path(top: string, bottom: string, endI: nat, endJ: nat)

  /** A direction grid for p: (|seq1| + 1) rows of |seq2| + 1 cells, where
      no cell of column 0 points Left or Diagonal and no cell of row 0
      points Up or Diagonal, so every direction stays inside the grid. */
  predicate DirectionGrid(p: Problem, g: seq<seq<Direction>>)
  {
    && |g| == |p.seq1| + 1
    && (forall x :: 0 <= x < |g| ==> |g[x]| == |p.seq2| + 1)
    && (forall x :: 0 <= x < |g| ==> g[x][0] != Left && g[x][0] != Diagonal)
    && (forall y :: 0 <= y <= |p.seq2| ==> g[0][y] != Up && g[0][y] != Diagonal)
  }

  /** A score grid for p: (|seq1| + 1) rows of |seq2| + 1 cells. */
  predicate ScoreGridShape(p: Problem, sc: seq<seq<int>>)
  {
    |sc| == |p.seq1| + 1 && forall x :: 0 <= x < |sc| ==> |sc[x]| == |p.seq2| + 1
  }

  /** The direction grid compute_matrices builds for p, as a value. */
  function DirGrid(p: Problem): (g: seq<seq<Direction>>)
    requires Covers(p)
    ensures DirectionGrid(p, g)
    ensures forall i, j :: 0 <= i <= |p.seq1| && 0 <= j <= |p.seq2| ==> g[i][j] == DirAt(p, i, j)
  {
    seq(|p.seq1| + 1, i requires 0 <= i <= |p.seq1| =>
      seq(|p.seq2| + 1, j requires 0 <= j <= |p.seq2| => DirAt(p, i, j)))
  }

  /** The score grid compute_matrices builds for p, as a value. */
  function ScoreGrid(p: Problem): (sc: seq<seq<int>>)
    requires Covers(p)
    ensures ScoreGridShape(p, sc)
    ensures forall i, j :: 0 <= i <= |p.seq1| && 0 <= j <= |p.seq2| ==> sc[i][j] == ScoreAt(p, i, j)
  {
    seq(|p.seq1| + 1, i requires 0 <= i <= |p.seq1| =>
      seq(|p.seq2| + 1, j requires 0 <= j <= |p.seq2| => ScoreAt(p, i, j)))
  }

  /** The direction array holds direction grid g cell for cell. */
  ghost predicate HoldsDirections(p: Problem, bt: array2<Direction>, g: seq<seq<Direction>>)
    requires DirectionGrid(p, g)
    reads bt
  {
    && bt.Length0 == |p.seq1| + 1 && bt.Length1 == |p.seq2| + 1
    && forall x, y :: 0 <= x <= |p.seq1| && 0 <= y <= |p.seq2| ==> bt[x, y] == g[x][y]
  }

  /** The score array holds score grid sc cell for cell. */
  ghost predicate HoldsScores(p: Problem, score: array2<int>, sc: seq<seq<int>>)
    requires ScoreGridShape(p, sc)
    reads score
  {
    && score.Length0 == |p.seq1| + 1 && score.Length1 == |p.seq2| + 1
    && forall x, y :: 0 <= x <= |p.seq1| && 0 <= y <= |p.seq2| ==> score[x, y] == sc[x][y]
  }

  /** The two arrays hold grids sc and g of the shapes p asks for. */
  ghost predicate HoldsGrids(p: Problem, score: array2<int>, bt: array2<Direction>,
                             sc: seq<seq<int>>, g: seq<seq<Direction>>)
    reads score, bt
  {
    && DirectionGrid(p, g) && HoldsDirections(p, bt, g)
    && ScoreGridShape(p, sc) && HoldsScores(p, score, sc)
  }

  /** The arrays compute_matrices returns hold the grids of p. */
  lemma BuiltHoldsGrids(p: Problem, score: array2<int>, bt: array2<Direction>)
    requires Built(p, score, bt)
    ensures HoldsScores(p, score, ScoreGrid(p)) && HoldsDirections(p, bt, DirGrid(p))
  {
  }

  /** One step of a trace: the cell the direction of a cell points to, and
      the column (x over y) the step prepends to the alignment. */
  datatype Step = Step(i: nat, j: nat, x: char, y: char)

  /** The step out of cell (i, j), which has a direction: a coordinate that
      goes down by one consumes the symbol of its sequence, a coordinate
      that stays puts a gap marker on that side. */
  function StepFrom(p: Problem, g: seq<seq<Direction>>, i: nat, j: nat): (s: Step)
    requires DirectionGrid(p, g) && InGrid(p, i, j) && g[i][j] != None
    ensures s.i + s.j < i + j
    ensures (s.i == i && s.x == Gap) || (1 <= i && s.i == i - 1 && s.x == p.seq1[i - 1])
    ensures (s.j == j && s.y == Gap) || (1 <= j && s.j == j - 1 && s.y == p.seq2[j - 1])
  {
    match g[i][j]
    case Left => Step(i, j - 1, Gap, p.seq2[j - 1])
    case Diagonal => Step(i - 1, j - 1, p.seq1[i - 1], p.seq2[j - 1])
    case Up => Step(i - 1, j, p.seq1[i - 1], Gap)
  }

  /** The trace from cell (i, j) of direction grid g: each step moves to a
      cell with a smaller i + j and prepends one column, and the trace stops
      at the first cell whose direction is None. */
  function Trace(p: Problem, g: seq<seq<Direction>>, i: nat, j: nat): (t: Path)
    requires DirectionGrid(p, g) && InGrid(p, i, j)
    ensures t.endI <= i && t.endJ <= j
    ensures |t.top| == |t.bottom|
    ensures g[t.endI][t.endJ] == None
    decreases i + j
  {
    if g[i][j] == None then Path([], [], i, j)
    else
      var s := StepFrom(p, g, i, j);
      var t := Trace(p, g, s.i, s.j);
      Path(t.top + [s.x], t.bottom + [s.y], t.endI, t.endJ)
  }

  /** The origin never has a direction, so a trace from it is empty. */
  lemma OriginTrace(p: Problem, g: seq<seq<Direction>>)
    requires DirectionGrid(p, g)
    ensures g[0][0] == None && Trace(p, g, 0, 0) == Path([], [], 0, 0)
  {
    assert g[0][0] != Left && g[0][0] != Diagonal && g[0][0] != Up;
  }

  /** Moving one column from the end of x to the front of rest keeps x + rest. */
  lemma MoveColumn(x: string, c: char, rest: string)
    ensures (x + [c]) + rest == x + ([c] + rest)
  {
  }

  /** The body of both traceback loops: from cell (i, j), which has a
      direction, prepend one column to A and B and move to the cell the
      direction points to. The strings built so far, read after the trace
      from the new cell, still spell the trace from the old one. */
  method StepBack(seq1: string, seq2: string, bt: array2<Direction>, i: nat, j: nat, A: string, B: string,
                  ghost p: Problem, ghost g: seq<seq<Direction>>)
    returns (i': nat, j': nat, A': string, B': string)
    requires p.seq1 == seq1 && p.seq2 == seq2
    requires DirectionGrid(p, g) && HoldsDirections(p, bt, g) && InGrid(p, i, j) && g[i][j] != None
    ensures i' <= i && j' <= j && i' + j' < i + j
    ensures Trace(p, g, i', j').endI == Trace(p, g, i, j).endI
    ensures Trace(p, g, i', j').endJ == Trace(p, g, i, j).endJ
    ensures Trace(p, g, i', j').top + A' == Trace(p, g, i, j).top + A
    ensures Trace(p, g, i', j').bottom + B' == Trace(p, g, i, j).bottom + B
  {
    ghost var s := StepFrom(p, g, i, j);
    if bt[i, j] == Left {
      A' := [Gap] + A;
      B' := [seq2[j - 1]] + B;
      i', j' := i, j - 1;
    } else if bt[i, j] == Diagonal {
      A' := [seq1[i - 1]] + A;
      B' := [seq2[j - 1]] + B;
      i', j' := i - 1, j - 1;
    } else {
      assert bt[i, j] == Up;
      A' := [seq1[i - 1]] + A;
      B' := [Gap] + B;
      i', j' := i - 1, j;
    }
    assert s == Step(i', j', A'[0], B'[0]);
    MoveColumn(Trace(p, g, i', j').top, A'[0], A);
    MoveColumn(Trace(p, g, i', j').bottom, B'[0], B);
  }

  /** The triple a traceback reports from cell (i, j) of grids sc and g:
      the two strings of the trace and the score of its start cell. */
  function AlignmentFrom(p: Problem, sc: seq<seq<int>>, g: seq<seq<Direction>>, i: nat, j: nat): (al: Alignment)
    requires DirectionGrid(p, g) && ScoreGridShape(p, sc) && InGrid(p, i, j)
    ensures |al.top| == |al.bottom|
    ensures al.score == sc[i][j]
  {
    var t := Trace(p, g, i, j);
    Alignment(t.top, t.bottom, sc[i][j])
  }

  /** The gap marker is not one of the symbols of s. */
  predicate GapFree(s: string)
  {
    forall k :: 0 <= k < |s| ==> s[k] != Gap
  }

  /** s with every gap marker deleted. */
  function RemoveGaps(s: string): (r: string)
    ensures |r| <= |s|
  {
    if s == [] then []
    else
      var n := |s| - 1;
      RemoveGaps(s[..n]) + (if s[n] == Gap then [] else [s[n]])
  }

  /** No column of the alignment has a gap marker on both sides. */
  predicate NoEmptyColumn(top: string, bottom: string)
    requires |top| == |bottom|
  {
    forall k :: 0 <= k < |top| ==> !(top[k] == Gap && bottom[k] == Gap)
  }

  /** Every column without a gap aligns a pair the table scores. */
  predicate Scorable(p: Problem, top: string, bottom: string)
  {
    |top| == |bottom| &&
    forall k :: 0 <= k < |top| ==> top[k] == Gap || bottom[k] == Gap || (top[k], bottom[k]) in p.table
  }

  /** The score of one column: -gap for a gap column, the table score of a
      pair the table has. (A trace of the grids compute_matrices builds
      never holds a pair the table lacks: see TraceScorable.) */
  function ColumnValue(p: Problem, x: char, y: char): int
  {
    if x == Gap || y == Gap then -p.gap
    else if (x, y) in p.table then p.table[(x, y)]
    else 0
  }

  /** The sum of the column scores of an alignment. */
  function ColumnScore(p: Problem, top: string, bottom: string): int
    requires |top| == |bottom|
    decreases |top|
  {
    if top == [] then 0
    else
      var n := |top| - 1;
      ColumnScore(p, top[..n], bottom[..n]) + ColumnValue(p, top[n], bottom[n])
  }

  lemma RemoveGapsAppend(s: string, c: char)
    ensures RemoveGaps(s + [c]) == RemoveGaps(s) + (if c == Gap then [] else [c])
  {
    assert (s + [c])[..|s|] == s;
  }

  /** Appending the next symbol of s extends the slice x spells by one. */
  lemma AppendSymbol(x: string, s: string, a: nat, b: nat)
    requires a < b <= |s| && GapFree(s)
    requires RemoveGaps(x) == s[a..b - 1]
    ensures RemoveGaps(x + [s[b - 1]]) == s[a..b]
  {
    RemoveGapsAppend(x, s[b - 1]);
    assert s[a..b] == s[a..b - 1] + [s[b - 1]];
  }

  /** Appending a gap marker leaves the slice x spells unchanged. */
  lemma AppendGap(x: string, s: string, a: nat, b: nat)
    requires a <= b <= |s|
    requires RemoveGaps(x) == s[a..b]
    ensures RemoveGaps(x + [Gap]) == s[a..b]
  {
    RemoveGapsAppend(x, Gap);
  }

  lemma ColumnScoreAppend(p: Problem, top: string, bottom: string, x: char, y: char)
    requires |top| == |bottom|
    ensures ColumnScore(p, top + [x], bottom + [y]) == ColumnScore(p, top, bottom) + ColumnValue(p, x, y)
  {
    assert (top + [x])[..|top|] == top;
    assert (bottom + [y])[..|bottom|] == bottom;
  }

  lemma ScorableAppend(p: Problem, top: string, bottom: string, x: char, y: char)
    requires Scorable(p, top, bottom)
    requires x == Gap || y == Gap || (x, y) in p.table
    ensures Scorable(p, top + [x], bottom + [y])
  {
  }

  /** Deleting the gaps from the top string of a trace gives back the slice
      of seq1 between its end cell and its start cell. */
  lemma {:induction false} TraceSpellsFirst(p: Problem, g: seq<seq<Direction>>, i: nat, j: nat)
    requires DirectionGrid(p, g) && InGrid(p, i, j) && GapFree(p.seq1)
    ensures RemoveGaps(Trace(p, g, i, j).top) == p.seq1[Trace(p, g, i, j).endI..i]
    decreases i + j
  {
    if g[i][j] != None {
      var s := StepFrom(p, g, i, j);
      var t := Trace(p, g, s.i, s.j);
      TraceSpellsFirst(p, g, s.i, s.j);
      if s.i == i {
        AppendGap(t.top, p.seq1, t.endI, i);
      } else {
        AppendSymbol(t.top, p.seq1, t.endI, i);
      }
    }
  }

  /** Deleting the gaps from the bottom string of a trace gives back the
      slice of seq2 between its end cell and its start cell. */
  lemma {:induction false} TraceSpellsSecond(p: Problem, g: seq<seq<Direction>>, i: nat, j: nat)
    requires DirectionGrid(p, g) && InGrid(p, i, j) && GapFree(p.seq2)
    ensures RemoveGaps(Trace(p, g, i, j).bottom) == p.seq2[Trace(p, g, i, j).endJ..j]
    decreases i + j
  {
    if g[i][j] != None {
      var s := StepFrom(p, g, i, j);
      var t := Trace(p, g, s.i, s.j);
      TraceSpellsSecond(p, g, s.i, s.j);
      if s.j == j {
        AppendGap(t.bottom, p.seq2, t.endJ, j);
      } else {
        AppendSymbol(t.bottom, p.seq2, t.endJ, j);
      }
    }
  }

  /** No column of a trace is a gap on both sides. */
  lemma {:induction false} TraceHasNoEmptyColumn(p: Problem, g: seq<seq<Direction>>, i: nat, j: nat)
    requires DirectionGrid(p, g) && InGrid(p, i, j) && GapFree(p.seq1) && GapFree(p.seq2)
    ensures NoEmptyColumn(Trace(p, g, i, j).top, Trace(p, g, i, j).bottom)
    decreases i + j
  {
    if g[i][j] != None {
      var s := StepFrom(p, g, i, j);
      TraceHasNoEmptyColumn(p, g, s.i, s.j);
      assert !(s.x == Gap && s.y == Gap);
    }
  }

  /** Score grid sc agrees with direction grid g: a cell pointing Left or Up
      scores -gap less than the cell it points to, and a cell pointing
      Diagonal scores the substitution score of its pair more. */
  predicate ScoreSteps(p: Problem, sc: seq<seq<int>>, g: seq<seq<Direction>>)
    requires DirectionGrid(p, g) && ScoreGridShape(p, sc)
  {
    forall i, j {:trigger g[i][j]} :: 0 <= i <= |p.seq1| && 0 <= j <= |p.seq2| ==>
      && (g[i][j] == Left ==> sc[i][j] == sc[i][j - 1] - p.gap)
      && (g[i][j] == Up ==> sc[i][j] == sc[i - 1][j] - p.gap)
      && (g[i][j] == Diagonal ==>
            (p.seq1[i - 1], p.seq2[j - 1]) in p.table &&
            sc[i][j] == sc[i - 1][j - 1] + p.table[(p.seq1[i - 1], p.seq2[j - 1])])
  }

  /** The grids a trace is scored against: g is a direction grid for p,
      sc a score grid that agrees with it, and neither sequence holds the
      gap marker. */
  predicate Consistent(p: Problem, sc: seq<seq<int>>, g: seq<seq<Direction>>)
  {
    && DirectionGrid(p, g) && ScoreGridShape(p, sc) && ScoreSteps(p, sc, g)
    && GapFree(p.seq1) && GapFree(p.seq2)
  }

  /** The grids compute_matrices builds agree with each other, and are
      the grids a trace is scored against when neither sequence holds the
      gap marker. */
  lemma BuiltGridsConsistent(p: Problem)
    requires Covers(p) && GapFree(p.seq1) && GapFree(p.seq2)
    ensures Consistent(p, ScoreGrid(p), DirGrid(p))
  {
    var sc, g := ScoreGrid(p), DirGrid(p);
    forall i, j | 0 <= i <= |p.seq1| && 0 <= j <= |p.seq2|
      ensures g[i][j] == Left ==> sc[i][j] == sc[i][j - 1] - p.gap
      ensures g[i][j] == Up ==> sc[i][j] == sc[i - 1][j] - p.gap
      ensures g[i][j] == Diagonal ==>
                (p.seq1[i - 1], p.seq2[j - 1]) in p.table &&
                sc[i][j] == sc[i - 1][j - 1] + p.table[(p.seq1[i - 1], p.seq2[j - 1])]
    {
      StepScore(p, i, j);
    }
  }

  /** The column a step of a trace prepends scores the difference between
      the scores of the two cells of the step. */
  lemma StepColumn(p: Problem, sc: seq<seq<int>>, g: seq<seq<Direction>>, i: nat, j: nat)
    requires Consistent(p, sc, g) && InGrid(p, i, j) && g[i][j] != None
    ensures var s := StepFrom(p, g, i, j);
            ColumnValue(p, s.x, s.y) == sc[i][j] - sc[s.i][s.j]
  {
    if g[i][j] == Diagonal {
      assert p.seq1[i - 1] != Gap && p.seq2[j - 1] != Gap;
    }
  }

  /** The column scores of a trace add up to the score of its start cell
      minus the score of its end cell. */
  lemma {:induction false} TraceScore(p: Problem, sc: seq<seq<int>>, g: seq<seq<Direction>>, i: nat, j: nat)
    requires Consistent(p, sc, g) && InGrid(p, i, j)
    ensures ColumnScore(p, Trace(p, g, i, j).top, Trace(p, g, i, j).bottom)
            == sc[i][j] - sc[Trace(p, g, i, j).endI][Trace(p, g, i, j).endJ]
    decreases i + j
  {
    if g[i][j] != None {
      var s := StepFrom(p, g, i, j);
      var t := Trace(p, g, s.i, s.j);
      StepColumn(p, sc, g, i, j);
      TraceScore(p, sc, g, s.i, s.j);
      ColumnScoreAppend(p, t.top, t.bottom, s.x, s.y);
    }
  }

  /** Every column of a trace without a gap is a pair of seq1 and seq2 that
      a covering table scores. */
  lemma {:induction false} TraceScorable(p: Problem, g: seq<seq<Direction>>, i: nat, j: nat)
    requires Covers(p) && DirectionGrid(p, g) && InGrid(p, i, j)
    ensures Scorable(p, Trace(p, g, i, j).top, Trace(p, g, i, j).bottom)
    decreases i + j
  {
    if g[i][j] != None {
      var s := StepFrom(p, g, i, j);
      var t := Trace(p, g, s.i, s.j);
      TraceScorable(p, g, s.i, s.j);
      ScorableAppend(p, t.top, t.bottom, s.x, s.y);
    }
  }

  /** The facts the trace lemmas establish, together: the gap-free strings
      are the slices between the end cell and the start cell, no column is
      empty, every column is scorable, and the column scores add up to the
      difference of the scores of the start cell and the end cell. */
  lemma TraceFacts(p: Problem, sc: seq<seq<int>>, g: seq<seq<Direction>>, i: nat, j: nat)
    requires Covers(p) && Consistent(p, sc, g) && InGrid(p, i, j)
    ensures var t := Trace(p, g, i, j);
            && RemoveGaps(t.top) == p.seq1[t.endI..i]
            && RemoveGaps(t.bottom) == p.seq2[t.endJ..j]
            && NoEmptyColumn(t.top, t.bottom)
            && Scorable(p, t.top, t.bottom)
            && ColumnScore(p, t.top, t.bottom) == sc[i][j] - sc[t.endI][t.endJ]
  {
    TraceSpellsFirst(p, g, i, j);
    TraceSpellsSecond(p, g, i, j);
    TraceHasNoEmptyColumn(p, g, i, j);
    TraceScorable(p, g, i, j);
    TraceScore(p, sc, g, i, j);
  }
}
