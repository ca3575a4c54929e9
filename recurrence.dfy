/**
  The cell recurrence of pairwise alignment by dynamic programming, for the
  global mode (Needleman-Wunsch) and the local mode (Smith-Waterman).

  ScoreAt and DirAt say what cell (i, j) of the score grid and of the
  direction grid holds once compute_matrices has filled both grids; the
  lemmas below state the border values, the maximum rule and the tie-break
  that the recurrence promises.
 */
module Recurrence {

  /** The modality string: "nw" selects Global, every other string Local. */
  datatype Modality = Global | Local

  /** The direction codes of the backtrack grid: 0 None, 1 Left, 2 Diagonal, 3 Up. */
  datatype Direction = None | Left | Diagonal | Up

  /** One alignment request: the two sequences, the substitution table
      (a pair of symbols to its score), the linear gap penalty and the modality. */
  datatype Problem = Problem(seq1: string, seq2: string, table: map<(char, char), int>, gap: int, mode: Modality)

  predicate InGrid(p: Problem, i: nat, j: nat)
  {
    i <= |p.seq1| && j <= |p.seq2|
  }

  /** Every substitution lookup the recurrence makes finds its pair in the table. */
  predicate Covers(p: Problem)
  {
    forall u, v :: 0 <= u < |p.seq1| && 0 <= v < |p.seq2| ==> (p.seq1[u], p.seq2[v]) in p.table
  }

  /** The substitution score of seq1[i - 1] against seq2[j - 1]. */
  function Sub(p: Problem, i: nat, j: nat): int
    requires Covers(p) && 1 <= i <= |p.seq1| && 1 <= j <= |p.seq2|
  {
    p.table[(p.seq1[i - 1], p.seq2[j - 1])]
  }

  function Max(x: int, y: int): int
  {
    if x >= y then x else y
  }

  /** The value of max(left, diag, up) in global mode and of max(0, left, diag, up) in local mode. */
  function Best(mode: Modality, left: int, diag: int, up: int): (m: int)
    ensures m >= left && m >= diag && m >= up
    ensures mode == Local ==> m >= 0
    ensures m == left || m == diag || m == up || (mode == Local && m == 0)
  {
    var m3 := Max(Max(left, diag), up);
    assert m3 == left || m3 == diag || m3 == up;
    match mode
    case Global => m3
    case Local => Max(0, m3)
  }

  /** The score held by cell (i, j). In global mode the borders are running
      sums of the gap penalty, but row 0 only up to column |seq1|: the border
      loop uses one index for both borders, so the cells of row 0 beyond
      |seq1| keep their initial 0. In local mode every border cell is 0. */
  function ScoreAt(p: Problem, i: nat, j: nat): (r: int)
    requires Covers(p) && InGrid(p, i, j)
    ensures p.mode == Local ==> r >= 0
    decreases i + j
  {
    if i == 0 && j == 0 then 0
    else if j == 0 then
      if p.mode == Global then ScoreAt(p, i - 1, 0) - p.gap else 0
    else if i == 0 then
      if p.mode == Global && j <= |p.seq1| then ScoreAt(p, 0, j - 1) - p.gap else 0
    else
      Best(p.mode, ScoreAt(p, i, j - 1) - p.gap, ScoreAt(p, i - 1, j - 1) + Sub(p, i, j), ScoreAt(p, i - 1, j) - p.gap)
  }

  /** The candidate that puts a gap in seq1 (consumes seq2[j - 1]). */
  function LeftOf(p: Problem, i: nat, j: nat): int
    requires Covers(p) && InGrid(p, i, j) && 1 <= j
  {
    ScoreAt(p, i, j - 1) - p.gap
  }

  /** The candidate that aligns seq1[i - 1] with seq2[j - 1]. */
  function DiagOf(p: Problem, i: nat, j: nat): int
    requires Covers(p) && InGrid(p, i, j) && 1 <= i && 1 <= j
  {
    ScoreAt(p, i - 1, j - 1) + Sub(p, i, j)
  }

  /** The candidate that puts a gap in seq2 (consumes seq1[i - 1]). */
  function UpOf(p: Problem, i: nat, j: nat): int
    requires Covers(p) && InGrid(p, i, j) && 1 <= i
  {
    ScoreAt(p, i - 1, j) - p.gap
  }

  /** The direction an interior cell records: the first of left, diag, up
      that equals the cell's score, or None when none of them does. */
  function TieBreak(m: int, left: int, diag: int, up: int): Direction
  {
    if m == left then Left
    else if m == diag then Diagonal
    else if m == up then Up
    else None
  }

  /** The direction held by cell (i, j); a direction never leads out of the grid. */
  function DirAt(p: Problem, i: nat, j: nat): (d: Direction)
    requires Covers(p) && InGrid(p, i, j)
    ensures d == Left ==> j >= 1
    ensures d == Up ==> i >= 1
    ensures d == Diagonal ==> i >= 1 && j >= 1
  {
    if i == 0 && j == 0 then None
    else if j == 0 then
      if p.mode == Global then Up else None
    else if i == 0 then
      if p.mode == Global && j <= |p.seq1| then Left else None
    else
      TieBreak(ScoreAt(p, i, j), LeftOf(p, i, j), DiagOf(p, i, j), UpOf(p, i, j))
  }

  /** Column 0: in global mode cell (i, 0) scores -i * gap and points Up. */
  lemma {:induction false} ColumnZero(p: Problem, i: nat)
    requires Covers(p) && i <= |p.seq1|
    ensures ScoreAt(p, i, 0) == if p.mode == Global then -(i * p.gap) else 0
    ensures DirAt(p, i, 0) == if p.mode == Global && i >= 1 then Up else None
  {
    if i > 0 && p.mode == Global {
      ColumnZero(p, i - 1);
      assert -((i - 1) * p.gap) - p.gap == -(i * p.gap);
    }
  }

  /** Row 0: in global mode cell (0, j) scores -j * gap and points Left for
      1 <= j <= |seq1|; every other cell of row 0 stays 0 with no direction. */
  lemma {:induction false} RowZero(p: Problem, j: nat)
    requires Covers(p) && j <= |p.seq2|
    ensures ScoreAt(p, 0, j) == if p.mode == Global && j <= |p.seq1| then -(j * p.gap) else 0
    ensures DirAt(p, 0, j) == if p.mode == Global && 1 <= j <= |p.seq1| then Left else None
  {
    if j > 0 && p.mode == Global && j <= |p.seq1| {
      RowZero(p, j - 1);
      assert -((j - 1) * p.gap) - p.gap == -(j * p.gap);
    }
  }

  /** An interior cell holds the largest candidate (and at least 0 in local
      mode), and that value is one of the candidates or, in local mode, 0. */
  lemma InteriorIsBest(p: Problem, i: nat, j: nat)
    requires Covers(p) && InGrid(p, i, j) && 1 <= i && 1 <= j
    ensures ScoreAt(p, i, j) >= LeftOf(p, i, j)
    ensures ScoreAt(p, i, j) >= DiagOf(p, i, j)
    ensures ScoreAt(p, i, j) >= UpOf(p, i, j)
    ensures p.mode == Local ==> ScoreAt(p, i, j) >= 0
    ensures ScoreAt(p, i, j) in {LeftOf(p, i, j), DiagOf(p, i, j), UpOf(p, i, j)}
            || (p.mode == Local && ScoreAt(p, i, j) == 0)
  {
  }

  /** The tie-break of an interior cell: Left beats Diagonal beats Up. */
  lemma TieBreakPriority(p: Problem, i: nat, j: nat)
    requires Covers(p) && InGrid(p, i, j) && 1 <= i && 1 <= j
    ensures DirAt(p, i, j) == Left <==> ScoreAt(p, i, j) == LeftOf(p, i, j)
    ensures DirAt(p, i, j) == Diagonal <==>
            ScoreAt(p, i, j) != LeftOf(p, i, j) && ScoreAt(p, i, j) == DiagOf(p, i, j)
    ensures DirAt(p, i, j) == Up <==>
            ScoreAt(p, i, j) != LeftOf(p, i, j) && ScoreAt(p, i, j) != DiagOf(p, i, j) && ScoreAt(p, i, j) == UpOf(p, i, j)
  {
  }

  /** In global mode a cell has no direction exactly when it is the origin
      or a row-0 cell beyond column |seq1|; no interior cell is ever None. */
  lemma GlobalNoneCells(p: Problem, i: nat, j: nat)
    requires Covers(p) && InGrid(p, i, j) && p.mode == Global
    ensures DirAt(p, i, j) == None <==> i == 0 && (j == 0 || j > |p.seq1|)
  {
    if i >= 1 && j >= 1 {
      InteriorIsBest(p, i, j);
    }
  }

  /** In local mode the borders have no direction, an interior cell has none
      exactly when all three candidates are negative, and a cell with no
      direction scores 0. When left is 0 and 0 is the maximum the cell
      points Left. */
  lemma LocalNoneCells(p: Problem, i: nat, j: nat)
    requires Covers(p) && InGrid(p, i, j) && p.mode == Local
    ensures DirAt(p, i, j) == None <==>
            i == 0 || j == 0 || (LeftOf(p, i, j) < 0 && DiagOf(p, i, j) < 0 && UpOf(p, i, j) < 0)
    ensures DirAt(p, i, j) == None ==> ScoreAt(p, i, j) == 0
  {
    if i >= 1 && j >= 1 {
      InteriorIsBest(p, i, j);
    }
  }

  /** A recorded direction names the step whose candidate produced the score:
      the score differs from the score of the cell it points to by -gap for
      Left and Up, and by the substitution score for Diagonal. */
  lemma StepScore(p: Problem, i: nat, j: nat)
    requires Covers(p) && InGrid(p, i, j)
    ensures DirAt(p, i, j) == Left ==> ScoreAt(p, i, j) == ScoreAt(p, i, j - 1) - p.gap
    ensures DirAt(p, i, j) == Diagonal ==> ScoreAt(p, i, j) == ScoreAt(p, i - 1, j - 1) + Sub(p, i, j)
    ensures DirAt(p, i, j) == Up ==> ScoreAt(p, i, j) == ScoreAt(p, i - 1, j) - p.gap
  {
  }
}
