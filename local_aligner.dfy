/**
  sw_back_tracking: resolves the threshold, then starts one trace from
  every cell whose score reaches it, in row-major order, each trace
  stopping at the first cell without a direction.
 */
module LocalAligner {
  import opened Recurrence
  import opened MatrixBuilder
  import opened Traceback

  /** The running maximum of the threshold scan over one row, started at acc:
      the threshold is replaced by every score that exceeds it. */
  function RowScan(row: seq<int>, acc: int): (r: int)
    ensures r >= acc
    ensures forall k :: 0 <= k < |row| ==> r >= row[k]
    ensures r == acc || exists k :: 0 <= k < |row| && r == row[k]
    decreases |row|
  {
    if row == [] then acc
    else
      var n := |row| - 1;
      var before := RowScan(row[..n], acc);
      assert forall k :: 0 <= k < n ==> row[..n][k] == row[k];
      if row[n] > before then row[n] else before
  }

  /** The running maximum of the threshold scan over every row, started at acc. */
  function GridScan(rows: seq<seq<int>>, acc: int): (r: int)
    ensures r >= acc
    ensures forall x, y :: 0 <= x < |rows| && 0 <= y < |rows[x]| ==> r >= rows[x][y]
    ensures r == acc || exists x, y :: 0 <= x < |rows| && 0 <= y < |rows[x]| && r == rows[x][y]
    decreases |rows|
  {
    if rows == [] then acc
    else
      var n := |rows| - 1;
      var before := GridScan(rows[..n], acc);
      assert forall x :: 0 <= x < n ==> rows[..n][x] == rows[x];
      RowScan(rows[n], before)
  }

  /** The threshold sw_back_tracking uses: a negative threshold becomes the
      largest score of the grid (if some score exceeds it), a non-negative
      one is kept. */
  function ResolvedThreshold(sc: seq<seq<int>>, t: int): (r: int)
    ensures t >= 0 ==> r == t
    ensures t < 0 ==> r >= t && forall x, y :: 0 <= x < |sc| && 0 <= y < |sc[x]| ==> r >= sc[x][y]
    ensures t < 0 ==> r == t || exists x, y :: 0 <= x < |sc| && 0 <= y < |sc[x]| && r == sc[x][y]
  {
    if t < 0 then GridScan(sc, t) else t
  }

  /** The cells (a, 0), ..., (a, n - 1) whose score reaches t, left to right. */
  function RowCells(p: Problem, sc: seq<seq<int>>, t: int, a: nat, n: nat): (cells: seq<(nat, nat)>)
    requires ScoreGridShape(p, sc) && a <= |p.seq1| && n <= |p.seq2| + 1
    ensures |cells| <= n
    ensures forall k :: 0 <= k < |cells| ==> cells[k].0 == a && cells[k].1 < n && sc[a][cells[k].1] >= t
    ensures forall k, l :: 0 <= k < l < |cells| ==> cells[k].1 < cells[l].1
  {
    if n == 0 then []
    else RowCells(p, sc, t, a, n - 1) + (if sc[a][n - 1] >= t then [(a, n - 1)] else [])
  }

  /** The cells of rows 0, ..., m - 1 whose score reaches t, in row-major order. */
  function GridCells(p: Problem, sc: seq<seq<int>>, t: int, m: nat): (cells: seq<(nat, nat)>)
    requires ScoreGridShape(p, sc) && m <= |p.seq1| + 1
    ensures forall k :: 0 <= k < |cells| ==>
              cells[k].0 < m && cells[k].1 <= |p.seq2| && sc[cells[k].0][cells[k].1] >= t
    ensures forall k, l :: 0 <= k < l < |cells| ==>
              cells[k].0 < cells[l].0 || (cells[k].0 == cells[l].0 && cells[k].1 < cells[l].1)
  {
    if m == 0 then []
    else GridCells(p, sc, t, m - 1) + RowCells(p, sc, t, m - 1, |p.seq2| + 1)
  }

  /** Every cell of the list lies in the grid. */
  predicate InGridCells(p: Problem, cells: seq<(nat, nat)>)
  {
    forall k :: 0 <= k < |cells| ==> InGrid(p, cells[k].0, cells[k].1)
  }

  /** The triples the traces from the listed cells report, in list order. */
  function Alignments(p: Problem, sc: seq<seq<int>>, g: seq<seq<Direction>>, cells: seq<(nat, nat)>): (alns: seq<Alignment>)
    requires DirectionGrid(p, g) && ScoreGridShape(p, sc) && InGridCells(p, cells)
    ensures |alns| == |cells|
    ensures forall k :: 0 <= k < |cells| ==> alns[k] == AlignmentFrom(p, sc, g, cells[k].0, cells[k].1)
  {
    seq(|cells|, k requires 0 <= k < |cells| => AlignmentFrom(p, sc, g, cells[k].0, cells[k].1))
  }

  /** The cells sw_back_tracking starts a trace from, in the order it visits
      them: those whose score reaches the resolved threshold. */
  function LocalCells(p: Problem, sc: seq<seq<int>>, t: int): (cells: seq<(nat, nat)>)
    requires ScoreGridShape(p, sc)
    ensures InGridCells(p, cells)
  {
    GridCells(p, sc, ResolvedThreshold(sc, t), |p.seq1| + 1)
  }

  /** What sw_back_tracking returns for grids sc and g and threshold t:
      every triple carries a score that reaches the resolved threshold. */
  function LocalAlignments(p: Problem, sc: seq<seq<int>>, g: seq<seq<Direction>>, t: int): (alns: seq<Alignment>)
    requires DirectionGrid(p, g) && ScoreGridShape(p, sc)
    ensures forall k :: 0 <= k < |alns| ==> alns[k].score >= ResolvedThreshold(sc, t)
  {
    Alignments(p, sc, g, LocalCells(p, sc, t))
  }

  lemma AlignmentsConcat(p: Problem, sc: seq<seq<int>>, g: seq<seq<Direction>>, c1: seq<(nat, nat)>, c2: seq<(nat, nat)>)
    requires DirectionGrid(p, g) && ScoreGridShape(p, sc) && InGridCells(p, c1) && InGridCells(p, c2)
    ensures InGridCells(p, c1 + c2)
    ensures Alignments(p, sc, g, c1 + c2) == Alignments(p, sc, g, c1) + Alignments(p, sc, g, c2)
  {
  }

  /** Every cell of row a before column n whose score reaches t is listed. */
  lemma {:induction false} RowCellsComplete(p: Problem, sc: seq<seq<int>>, t: int, a: nat, n: nat, y: nat)
    requires ScoreGridShape(p, sc) && a <= |p.seq1| && n <= |p.seq2| + 1
    requires y < n && sc[a][y] >= t
    ensures (a, y) in RowCells(p, sc, t, a, n)
  {
    if y < n - 1 {
      RowCellsComplete(p, sc, t, a, n - 1, y);
    }
  }

  /** Every cell of the rows before m whose score reaches t is listed. */
  lemma {:induction false} GridCellsComplete(p: Problem, sc: seq<seq<int>>, t: int, m: nat, x: nat, y: nat)
    requires ScoreGridShape(p, sc) && m <= |p.seq1| + 1
    requires x < m && y <= |p.seq2| && sc[x][y] >= t
    ensures (x, y) in GridCells(p, sc, t, m)
  {
    if x < m - 1 {
      GridCellsComplete(p, sc, t, m - 1, x, y);
    } else {
      RowCellsComplete(p, sc, t, x, |p.seq2| + 1, y);
    }
  }

  /** A higher threshold lists no more cells of a row. */
  lemma {:induction false} RowCellsMonotone(p: Problem, sc: seq<seq<int>>, t1: int, t2: int, a: nat, n: nat)
    requires ScoreGridShape(p, sc) && a <= |p.seq1| && n <= |p.seq2| + 1 && t1 <= t2
    ensures |RowCells(p, sc, t2, a, n)| <= |RowCells(p, sc, t1, a, n)|
  {
    if n > 0 {
      RowCellsMonotone(p, sc, t1, t2, a, n - 1);
    }
  }

  /** A higher threshold lists no more cells of the grid. */
  lemma {:induction false} GridCellsMonotone(p: Problem, sc: seq<seq<int>>, t1: int, t2: int, m: nat)
    requires ScoreGridShape(p, sc) && m <= |p.seq1| + 1 && t1 <= t2
    ensures |GridCells(p, sc, t2, m)| <= |GridCells(p, sc, t1, m)|
  {
    if m > 0 {
      GridCellsMonotone(p, sc, t1, t2, m - 1);
      RowCellsMonotone(p, sc, t1, t2, m - 1, |p.seq2| + 1);
    }
  }

  /** Every cell whose score reaches the resolved threshold gives a triple. */
  lemma LocalAlignmentsComplete(p: Problem, sc: seq<seq<int>>, g: seq<seq<Direction>>, t: int)
    requires DirectionGrid(p, g) && ScoreGridShape(p, sc)
    ensures forall x: nat, y: nat :: InGrid(p, x, y) && sc[x][y] >= ResolvedThreshold(sc, t) ==>
              AlignmentFrom(p, sc, g, x, y) in LocalAlignments(p, sc, g, t)
  {
    var r := ResolvedThreshold(sc, t);
    var cells := LocalCells(p, sc, t);
    var alns := LocalAlignments(p, sc, g, t);
    forall x: nat, y: nat | InGrid(p, x, y) && sc[x][y] >= r
      ensures AlignmentFrom(p, sc, g, x, y) in alns
    {
      GridCellsComplete(p, sc, r, |p.seq1| + 1, x, y);
      var k :| 0 <= k < |cells| && cells[k] == (x, y);
      assert alns[k] == AlignmentFrom(p, sc, g, x, y);
    }
  }

  /** Raising a non-negative threshold never adds a cell: the list gets no
      longer and every cell still listed was listed before. */
  lemma RaisingThresholdNeverAddsCells(p: Problem, sc: seq<seq<int>>, t1: int, t2: int)
    requires ScoreGridShape(p, sc) && 0 <= t1 <= t2
    ensures |LocalCells(p, sc, t2)| <= |LocalCells(p, sc, t1)|
    ensures forall k :: 0 <= k < |LocalCells(p, sc, t2)| ==> LocalCells(p, sc, t2)[k] in LocalCells(p, sc, t1)
  {
    GridCellsMonotone(p, sc, t1, t2, |p.seq1| + 1);
    var c2 := LocalCells(p, sc, t2);
    forall k | 0 <= k < |c2|
      ensures c2[k] in LocalCells(p, sc, t1)
    {
      GridCellsComplete(p, sc, t1, |p.seq1| + 1, c2[k].0, c2[k].1);
    }
  }

  /** The triples of a sub-list of cells are among the triples of the list. */
  lemma AlignmentsOfSublist(p: Problem, sc: seq<seq<int>>, g: seq<seq<Direction>>, c1: seq<(nat, nat)>, c2: seq<(nat, nat)>)
    requires DirectionGrid(p, g) && ScoreGridShape(p, sc) && InGridCells(p, c1) && InGridCells(p, c2)
    requires forall k :: 0 <= k < |c2| ==> c2[k] in c1
    ensures forall k :: 0 <= k < |c2| ==> Alignments(p, sc, g, c2)[k] in Alignments(p, sc, g, c1)
  {
    var l1, l2 := Alignments(p, sc, g, c1), Alignments(p, sc, g, c2);
    forall k | 0 <= k < |c2|
      ensures l2[k] in l1
    {
      var n :| 0 <= n < |c1| && c1[n] == c2[k];
      assert l1[n] == l2[k];
    }
  }

  /** Raising a non-negative threshold never adds a triple: the list gets no
      longer and every triple still reported was reported before. */
  lemma RaisingThresholdNeverAddsAlignments(p: Problem, sc: seq<seq<int>>, g: seq<seq<Direction>>, t1: int, t2: int)
    requires DirectionGrid(p, g) && ScoreGridShape(p, sc) && 0 <= t1 <= t2
    ensures |LocalAlignments(p, sc, g, t2)| <= |LocalAlignments(p, sc, g, t1)|
    ensures forall k :: 0 <= k < |LocalAlignments(p, sc, g, t2)| ==> LocalAlignments(p, sc, g, t2)[k] in LocalAlignments(p, sc, g, t1)
  {
    RaisingThresholdNeverAddsCells(p, sc, t1, t2);
    AlignmentsOfSublist(p, sc, g, LocalCells(p, sc, t1), LocalCells(p, sc, t2));
  }

  /** On the grid [[0, 0], [0, 1]] only cell (1, 1) reaches 1. */
  lemma CellsReachingOne(p: Problem)
    requires |p.seq1| == 1 && |p.seq2| == 1
    ensures GridCells(p, [[0, 0], [0, 1]], 1, 2) == [(1, 1)]
  {
    var sc := [[0, 0], [0, 1]];
    assert RowCells(p, sc, 1, 0, 2) == [];
    assert RowCells(p, sc, 1, 1, 2) == [(1, 1)];
    assert GridCells(p, sc, 1, 1) == [];
  }

  /** On the grid [[0, 0], [0, 1]] every cell reaches 0. */
  lemma CellsReachingZero(p: Problem)
    requires |p.seq1| == 1 && |p.seq2| == 1
    ensures GridCells(p, [[0, 0], [0, 1]], 0, 2) == [(0, 0), (0, 1), (1, 0), (1, 1)]
  {
    var sc := [[0, 0], [0, 1]];
    assert RowCells(p, sc, 0, 0, 2) == [(0, 0), (0, 1)];
    assert RowCells(p, sc, 0, 1, 2) == [(1, 0), (1, 1)];
    assert GridCells(p, sc, 0, 1) == [(0, 0), (0, 1)];
  }

  /** Raising a negative threshold to 0 can add cells: on the grid
      [[0, 0], [0, 1]] threshold -1 resolves to 1 and lists one cell,
      while threshold 0 lists all four. */
  lemma NegativeThresholdCanListFewer(p: Problem)
    requires |p.seq1| == 1 && |p.seq2| == 1
    ensures ResolvedThreshold([[0, 0], [0, 1]], -1) == 1
    ensures |LocalCells(p, [[0, 0], [0, 1]], -1)| == 1
    ensures |LocalCells(p, [[0, 0], [0, 1]], 0)| == 4
  {
    var sc := [[0, 0], [0, 1]];
    assert sc[1][1] == 1;
    assert ResolvedThreshold(sc, -1) == 1;
    CellsReachingOne(p);
    CellsReachingZero(p);
  }

  /** A negative threshold on a grid whose origin scores 0 (as every grid
      compute_matrices returns does) reports at least one triple, and
      every triple carries the largest score of the grid. */
  lemma NegativeThresholdKeepsBest(p: Problem, sc: seq<seq<int>>, g: seq<seq<Direction>>, t: int)
    requires DirectionGrid(p, g) && ScoreGridShape(p, sc) && t < 0 && sc[0][0] == 0
    ensures |LocalAlignments(p, sc, g, t)| > 0
    ensures forall x, y :: 0 <= x <= |p.seq1| && 0 <= y <= |p.seq2| ==> sc[x][y] <= ResolvedThreshold(sc, t)
    ensures forall k :: 0 <= k < |LocalAlignments(p, sc, g, t)| ==>
              LocalAlignments(p, sc, g, t)[k].score == ResolvedThreshold(sc, t)
  {
    var r := ResolvedThreshold(sc, t);
    var cells := LocalCells(p, sc, t);
    var alns := LocalAlignments(p, sc, g, t);
    assert alns == Alignments(p, sc, g, cells);
    assert r >= sc[0][0];
    var x, y :| 0 <= x < |sc| && 0 <= y < |sc[x]| && r == sc[x][y];
    GridCellsComplete(p, sc, r, |p.seq1| + 1, x, y);
    assert |alns| == |cells| > 0;
    forall k | 0 <= k < |alns|
      ensures alns[k].score == r
    {
      var c := cells[k];
      assert alns[k] == AlignmentFrom(p, sc, g, c.0, c.1);
      assert sc[c.0][c.1] <= r;
    }
  }

  /** A trace of a local-mode run stops at a cell with no direction and
      score 0. */
  lemma LocalTraceStopsAtZero(p: Problem, a: nat, b: nat)
    requires Covers(p) && p.mode == Local && InGrid(p, a, b)
    ensures var t := Trace(p, DirGrid(p), a, b);
            DirAt(p, t.endI, t.endJ) == None && ScoreAt(p, t.endI, t.endJ) == 0
  {
    var t := Trace(p, DirGrid(p), a, b);
    LocalNoneCells(p, t.endI, t.endJ);
  }

  /** A trace of a local-mode run: its gap-free strings are the slices of
      seq1 and seq2 between its end cell and its start cell, no column is
      empty, and its column scores add up to the score of the start cell. */
  lemma LocalAlignmentProperties(p: Problem, a: nat, b: nat)
    requires Covers(p) && p.mode == Local && InGrid(p, a, b) && GapFree(p.seq1) && GapFree(p.seq2)
    ensures var t := Trace(p, DirGrid(p), a, b);
            && RemoveGaps(t.top) == p.seq1[t.endI..a]
            && RemoveGaps(t.bottom) == p.seq2[t.endJ..b]
            && NoEmptyColumn(t.top, t.bottom)
            && Scorable(p, t.top, t.bottom)
            && ColumnScore(p, t.top, t.bottom) == ScoreAt(p, a, b)
  {
    var g, sc := DirGrid(p), ScoreGrid(p);
    var t := Trace(p, g, a, b);
    BuiltGridsConsistent(p);
    TraceFacts(p, sc, g, a, b);
    LocalTraceStopsAtZero(p, a, b);
    assert sc[t.endI][t.endJ] == 0;
  }

  /** The threshold scan: only a negative threshold is replaced, by a
      row-major pass that keeps the largest score seen. */
  method ResolveThreshold(score: array2<int>, threshold: int, ghost p: Problem, ghost sc: seq<seq<int>>)
    returns (t: int)
    requires ScoreGridShape(p, sc) && HoldsScores(p, score, sc)
    ensures t == ResolvedThreshold(sc, threshold)
  {
    t := threshold;
    if threshold < 0 {
      for a := 0 to score.Length0
        invariant t == GridScan(sc[..a], threshold)
      {
        assert sc[..a + 1][..a] == sc[..a];
        ghost var before := t;
        for b := 0 to score.Length1
          invariant t == RowScan(sc[a][..b], before)
        {
          assert sc[a][..b + 1][..b] == sc[a][..b];
          if score[a, b] > t {
            t := score[a, b];
          }
        }
        assert sc[a][..score.Length1] == sc[a];
      }
      assert sc[..score.Length0] == sc;
    }
  }

  /** One local trace: from cell (a, b), step back while the current cell
      has a direction. */
  method LocalTrace(seq1: string, seq2: string, bt: array2<Direction>, a: nat, b: nat,
                    ghost p: Problem, ghost g: seq<seq<Direction>>)
    returns (A: string, B: string)
    requires p.seq1 == seq1 && p.seq2 == seq2
    requires DirectionGrid(p, g) && HoldsDirections(p, bt, g) && InGrid(p, a, b)
    ensures A == Trace(p, g, a, b).top && B == Trace(p, g, a, b).bottom
  {
    A, B := "", "";
    var i, j := a, b;
    while bt[i, j] != None
      invariant InGrid(p, i, j)
      invariant Trace(p, g, a, b).top == Trace(p, g, i, j).top + A
      invariant Trace(p, g, a, b).bottom == Trace(p, g, i, j).bottom + B
      decreases i + j
    {
      i, j, A, B := StepBack(seq1, seq2, bt, i, j, A, B, p, g);
    }
    assert Trace(p, g, i, j).top == [] && Trace(p, g, i, j).bottom == [];
  }

  /** The inner loop over row a: one triple per cell of the row whose
      score reaches t, left to right. */
  method TraceRow(seq1: string, seq2: string, score: array2<int>, bt: array2<Direction>, t: int, a: nat,
                  ghost p: Problem, ghost sc: seq<seq<int>>, ghost g: seq<seq<Direction>>)
    returns (alns: seq<Alignment>)
    requires p.seq1 == seq1 && p.seq2 == seq2 && a <= |p.seq1|
    requires HoldsGrids(p, score, bt, sc, g)
    ensures InGridCells(p, RowCells(p, sc, t, a, |p.seq2| + 1))
    ensures alns == Alignments(p, sc, g, RowCells(p, sc, t, a, |p.seq2| + 1))
  {
    alns := [];
    for b := 0 to score.Length1
      invariant InGridCells(p, RowCells(p, sc, t, a, b))
      invariant alns == Alignments(p, sc, g, RowCells(p, sc, t, a, b))
    {
      ghost var cells := RowCells(p, sc, t, a, b);
      if score[a, b] >= t {
        var A, B := LocalTrace(seq1, seq2, bt, a, b, p, g);
        assert RowCells(p, sc, t, a, b + 1) == cells + [(a, b)];
        AlignmentsConcat(p, sc, g, cells, [(a, b)]);
        assert Alignments(p, sc, g, [(a, b)]) == [Alignment(A, B, score[a, b])];
        alns := alns + [Alignment(A, B, score[a, b])];
      } else {
        assert RowCells(p, sc, t, a, b + 1) == cells;
      }
    }
  }

  /** Resolves the threshold, then reports one triple per cell whose score
      reaches it, in row-major order. */
  method SwBackTracking(seq1: string, seq2: string, score: array2<int>, bt: array2<Direction>, threshold: int,
                        ghost p: Problem, ghost sc: seq<seq<int>>, ghost g: seq<seq<Direction>>)
    returns (alns: seq<Alignment>)
    requires p.seq1 == seq1 && p.seq2 == seq2
    requires HoldsGrids(p, score, bt, sc, g)
    ensures alns == LocalAlignments(p, sc, g, threshold)
  {
    var t := ResolveThreshold(score, threshold, p, sc);
    alns := [];
    for a := 0 to score.Length0
      invariant InGridCells(p, GridCells(p, sc, t, a))
      invariant alns == Alignments(p, sc, g, GridCells(p, sc, t, a))
    {
      var row := TraceRow(seq1, seq2, score, bt, t, a, p, sc, g);
      ghost var before, added := GridCells(p, sc, t, a), RowCells(p, sc, t, a, |p.seq2| + 1);
      assert GridCells(p, sc, t, a + 1) == before + added;
      AlignmentsConcat(p, sc, g, before, added);
      alns := alns + row;
    }
  }
}
