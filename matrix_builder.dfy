/**
  compute_matrices: allocates the score grid and the direction grid, sets
  the global-mode borders, then fills every interior cell in row-major
  order with the linear-gap recurrence of module Recurrence.
 */
module MatrixBuilder {
  import opened Recurrence

  /** How a call ends: with both grids, or with the exception the code
      raises (an IndexError on row 0 in the border loop, a KeyError on a
      substitution lookup). */
  datatype Status = Ok | IndexOutOfRange | MissingSubstitutionScore

  /** The score grid has (|seq1| + 1) x (|seq2| + 1) cells holding ScoreAt. */
  ghost predicate ScoresHeld(p: Problem, score: array2<int>)
    reads score
  {
    && Covers(p)
    && score.Length0 == |p.seq1| + 1 && score.Length1 == |p.seq2| + 1
    && forall i, j :: 0 <= i <= |p.seq1| && 0 <= j <= |p.seq2| ==> score[i, j] == ScoreAt(p, i, j)
  }

  /** The direction grid has (|seq1| + 1) x (|seq2| + 1) cells holding DirAt. */
  ghost predicate DirectionsHeld(p: Problem, bt: array2<Direction>)
    reads bt
  {
    && Covers(p)
    && bt.Length0 == |p.seq1| + 1 && bt.Length1 == |p.seq2| + 1
    && forall i, j :: 0 <= i <= |p.seq1| && 0 <= j <= |p.seq2| ==> bt[i, j] == DirAt(p, i, j)
  }

  /** Both grids are what compute_matrices returns for p. */
  ghost predicate Built(p: Problem, score: array2<int>, bt: array2<Direction>)
    reads score, bt
  {
    ScoresHeld(p, score) && DirectionsHeld(p, bt)
  }

  /** Both grids start as zeros (direction None); in global mode the borders
      are set, then every interior cell is filled, row by row. A Python
      exception ends the call and no grid is returned. */
  method ComputeMatrices(p: Problem) returns (status: Status, score: array2<int>, bt: array2<Direction>)
    ensures fresh(score) && fresh(bt)
    ensures status == IndexOutOfRange <==> p.mode == Global && |p.seq1| > |p.seq2|
    ensures status == MissingSubstitutionScore <==> !(p.mode == Global && |p.seq1| > |p.seq2|) && !Covers(p)
    ensures status == Ok ==> Built(p, score, bt)
  {
    var a, b := |p.seq1|, |p.seq2|;
    score := new int[a + 1, b + 1]((_, _) => 0);
    bt := new Direction[a + 1, b + 1]((_, _) => None);
    var inRange := SetBorders(p, score, bt);
    if !inRange {
      status := IndexOutOfRange;
      return;
    }
    var i := 1;
    while i <= a
      invariant 1 <= i <= a + 1
      invariant forall u, v :: 0 <= u < i - 1 && 0 <= v < b ==> (p.seq1[u], p.seq2[v]) in p.table
      invariant FilledBefore(p, score, bt, i, 0)
      invariant forall x, y :: i <= x <= a && 1 <= y <= b ==> bt[x, y] == None
    {
      var complete := FillRow(p, score, bt, i);
      if !complete {
        status := MissingSubstitutionScore;
        return;
      }
      i := i + 1;
    }
    status := Ok;
  }

  /** When the table covers p, every border cell, every cell of a row above
      i and the first j cells of row i hold their final values. */
  ghost predicate FilledBefore(p: Problem, score: array2<int>, bt: array2<Direction>, i: nat, j: nat)
    reads score, bt
  {
    && score.Length0 == |p.seq1| + 1 && score.Length1 == |p.seq2| + 1
    && bt.Length0 == |p.seq1| + 1 && bt.Length1 == |p.seq2| + 1
    && (Covers(p) ==>
          && (forall x, y {:trigger score[x, y]} :: 0 <= x <= |p.seq1| && 0 <= y <= |p.seq2| && Before(x, y, i, j) ==>
                score[x, y] == ScoreAt(p, x, y))
          && (forall x, y {:trigger bt[x, y]} :: 0 <= x <= |p.seq1| && 0 <= y <= |p.seq2| && Before(x, y, i, j) ==>
                bt[x, y] == DirAt(p, x, y)))
  }

  /** Cell (x, y) is a border cell or comes before cell (i, j) in row-major order. */
  predicate Before(x: nat, y: nat, i: nat, j: nat)
  {
    x == 0 || y == 0 || x < i || (x == i && y < j)
  }

  /** The score the border loop leaves in cell (x, y): in global mode
      -x*gap down column 0 and -y*gap along row 0 up to column |seq1|;
      0 everywhere else. */
  function BorderScore(p: Problem, x: nat, y: nat): int
  {
    if p.mode == Global && y == 0 then -(x * p.gap)
    else if p.mode == Global && x == 0 && y <= |p.seq1| then -(y * p.gap)
    else 0
  }

  /** The direction the border loop leaves in cell (x, y): in global mode
      Up down column 0 and Left along row 0 up to column |seq1|; None
      everywhere else. */
  function BorderDir(p: Problem, x: nat, y: nat): Direction
  {
    if p.mode == Global && y == 0 && x >= 1 then Up
    else if p.mode == Global && x == 0 && 1 <= y <= |p.seq1| then Left
    else None
  }

  /** The border loop leaves every border cell with its final score and
      direction. */
  lemma BordersAreFinal(p: Problem, x: nat, y: nat)
    requires Covers(p) && InGrid(p, x, y) && (x == 0 || y == 0)
    ensures BorderScore(p, x, y) == ScoreAt(p, x, y)
    ensures BorderDir(p, x, y) == DirAt(p, x, y)
  {
    if y == 0 {
      ColumnZero(p, x);
    } else {
      RowZero(p, y);
    }
  }

  /** The border loop: in global mode one index i in 1..|seq1| sets both
      cell (i, 0) and cell (0, i), so it raises IndexError once i passes
      |seq2|, and it never touches the cells of row 0 beyond column |seq1|. */
  method SetBorders(p: Problem, score: array2<int>, bt: array2<Direction>) returns (inRange: bool)
    requires score.Length0 == |p.seq1| + 1 && score.Length1 == |p.seq2| + 1
    requires bt.Length0 == |p.seq1| + 1 && bt.Length1 == |p.seq2| + 1
    requires forall x, y :: 0 <= x <= |p.seq1| && 0 <= y <= |p.seq2| ==> score[x, y] == 0 && bt[x, y] == None
    modifies score, bt
    ensures inRange <==> !(p.mode == Global && |p.seq1| > |p.seq2|)
    ensures inRange ==> forall x, y :: 0 <= x <= |p.seq1| && 0 <= y <= |p.seq2| ==>
              score[x, y] == BorderScore(p, x, y) && bt[x, y] == BorderDir(p, x, y)
    ensures inRange ==> FilledBefore(p, score, bt, 1, 0)
  {
    var a, b := |p.seq1|, |p.seq2|;
    inRange := true;
    if p.mode == Global {
      var i := 1;
      while i <= a
        invariant 1 <= i <= a + 1 && i - 1 <= b
        invariant forall x, y :: 0 <= x <= a && 0 <= y <= b ==>
          if (y == 0 && x < i) || (x == 0 && y < i) then score[x, y] == BorderScore(p, x, y) && bt[x, y] == BorderDir(p, x, y)
          else score[x, y] == 0 && bt[x, y] == None
      {
        assert -((i - 1) * p.gap) - p.gap == -(i * p.gap);
        score[i, 0] := score[i - 1, 0] - p.gap;
        bt[i, 0] := Up;
        if i > b {
          inRange := false;
          return;
        }
        score[0, i] := score[0, i - 1] - p.gap;
        bt[0, i] := Left;
        i := i + 1;
      }
    }
    if Covers(p) {
      forall x, y | 0 <= x <= a && 0 <= y <= b && Before(x, y, 1, 0)
        ensures score[x, y] == ScoreAt(p, x, y) && bt[x, y] == DirAt(p, x, y)
      {
        BordersAreFinal(p, x, y);
      }
    }
  }

  /** Cell (i, j) holds the best of the three candidates read from its
      neighbours, and as its direction the first candidate equal to it. */
  ghost predicate CellFollows(p: Problem, score: array2<int>, bt: array2<Direction>, i: nat, j: nat)
    requires score.Length0 == |p.seq1| + 1 && score.Length1 == |p.seq2| + 1
    requires bt.Length0 == |p.seq1| + 1 && bt.Length1 == |p.seq2| + 1
    requires 1 <= i <= |p.seq1| && 1 <= j <= |p.seq2|
    reads score, bt
  {
    var pair := (p.seq1[i - 1], p.seq2[j - 1]);
    && pair in p.table
    && var one := score[i, j - 1] - p.gap;
       var two := score[i - 1, j - 1] + p.table[pair];
       var three := score[i - 1, j] - p.gap;
       score[i, j] == Best(p.mode, one, two, three) && bt[i, j] == TieBreak(score[i, j], one, two, three)
  }

  /** One pass of the inner loop: fills row i left to right; complete is
      false when a lookup of row i misses the table (a KeyError). */
  method FillRow(p: Problem, score: array2<int>, bt: array2<Direction>, i: nat) returns (complete: bool)
    requires 1 <= i <= |p.seq1|
    requires FilledBefore(p, score, bt, i, 0)
    requires forall x, y :: i <= x <= |p.seq1| && 1 <= y <= |p.seq2| ==> bt[x, y] == None
    modifies score, bt
    ensures complete <==> forall v :: 0 <= v < |p.seq2| ==> (p.seq1[i - 1], p.seq2[v]) in p.table
    ensures forall x, y :: 0 <= x <= |p.seq1| && 0 <= y <= |p.seq2| && (x != i || y == 0) ==>
              score[x, y] == old(score[x, y]) && bt[x, y] == old(bt[x, y])
    ensures complete ==> forall y :: 1 <= y <= |p.seq2| ==> CellFollows(p, score, bt, i, y)
    ensures complete ==> FilledBefore(p, score, bt, i + 1, 0)
    ensures complete ==> forall x, y :: i < x <= |p.seq1| && 1 <= y <= |p.seq2| ==> bt[x, y] == None
  {
    var b := |p.seq2|;
    var j := 1;
    while j <= b
      invariant 1 <= j <= b + 1
      invariant forall v :: 0 <= v < j - 1 ==> (p.seq1[i - 1], p.seq2[v]) in p.table
      invariant forall x, y :: 0 <= x <= |p.seq1| && 0 <= y <= b && (x != i || y == 0 || y >= j) ==>
                  score[x, y] == old(score[x, y]) && bt[x, y] == old(bt[x, y])
      invariant forall y :: 1 <= y < j ==> CellFollows(p, score, bt, i, y)
      invariant FilledBefore(p, score, bt, i, j)
      invariant forall x, y :: i <= x <= |p.seq1| && 1 <= y <= b && (x > i || y >= j) ==> bt[x, y] == None
    {
      label BeforeCell:
      var found := FillCell(p, score, bt, i, j);
      if !found {
        complete := false;
        return;
      }
      forall y | 1 <= y < j
        ensures CellFollows(p, score, bt, i, y)
      {
        assert old@BeforeCell(CellFollows(p, score, bt, i, y));
        assert score[i, y] == old@BeforeCell(score[i, y]) && bt[i, y] == old@BeforeCell(bt[i, y]);
        assert score[i, y - 1] == old@BeforeCell(score[i, y - 1]);
        assert score[i - 1, y - 1] == old@BeforeCell(score[i - 1, y - 1]);
        assert score[i - 1, y] == old@BeforeCell(score[i - 1, y]);
      }
      j := j + 1;
    }
    complete := true;
  }

  /** The body of the inner loop: looks up the pair of cell (i, j) (found is
      false on a KeyError), takes the best candidate and records the first
      candidate equal to it, leaving the direction None when none is. No
      other cell changes. */
  method FillCell(p: Problem, score: array2<int>, bt: array2<Direction>, i: nat, j: nat) returns (found: bool)
    requires 1 <= i <= |p.seq1| && 1 <= j <= |p.seq2|
    requires FilledBefore(p, score, bt, i, j)
    requires forall x, y :: i <= x <= |p.seq1| && 1 <= y <= |p.seq2| && (x > i || y >= j) ==> bt[x, y] == None
    modifies score, bt
    ensures found <==> (p.seq1[i - 1], p.seq2[j - 1]) in p.table
    ensures forall x, y :: 0 <= x <= |p.seq1| && 0 <= y <= |p.seq2| && (x != i || y != j) ==>
              score[x, y] == old(score[x, y]) && bt[x, y] == old(bt[x, y])
    ensures !found ==> score[i, j] == old(score[i, j]) && bt[i, j] == old(bt[i, j])
    ensures found ==> CellFollows(p, score, bt, i, j)
    ensures found ==> FilledBefore(p, score, bt, i, j + 1)
    ensures found ==> forall x, y :: i <= x <= |p.seq1| && 1 <= y <= |p.seq2| && (x > i || y > j) ==> bt[x, y] == None
  {
    var pair := (p.seq1[i - 1], p.seq2[j - 1]);
    if pair !in p.table {
      return false;
    }
    var one := score[i, j - 1] - p.gap;
    var two := score[i - 1, j - 1] + p.table[pair];
    var three := score[i - 1, j] - p.gap;
    var m := Best(p.mode, one, two, three);
    label Unwritten:
    score[i, j] := m;
    if m == one {
      bt[i, j] := Left;
    } else if m == two {
      bt[i, j] := Diagonal;
    } else if m == three {
      bt[i, j] := Up;
    }
    assert bt[i, j] == TieBreak(m, one, two, three);
    if Covers(p) {
      CellFromNeighbours(p, i, j, one, two, three);
      forall x, y | 0 <= x <= |p.seq1| && 0 <= y <= |p.seq2| && Before(x, y, i, j + 1)
        ensures score[x, y] == ScoreAt(p, x, y) && bt[x, y] == DirAt(p, x, y)
      {
        if x != i || y != j {
          assert score[x, y] == old@Unwritten(score[x, y]) && bt[x, y] == old@Unwritten(bt[x, y]);
        }
      }
    }
    found := true;
  }

  /** The values compute_matrices reads from the three neighbours of an
      interior cell give that cell's score and direction. */
  lemma CellFromNeighbours(p: Problem, i: nat, j: nat, one: int, two: int, three: int)
    requires Covers(p) && InGrid(p, i, j) && 1 <= i && 1 <= j
    requires one == LeftOf(p, i, j) && two == DiagOf(p, i, j) && three == UpOf(p, i, j)
    ensures Best(p.mode, one, two, three) == ScoreAt(p, i, j)
    ensures TieBreak(Best(p.mode, one, two, three), one, two, three) == DirAt(p, i, j)
  {
  }
}
