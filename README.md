# Pairwise sequence alignment by dynamic programming

This project models the core of a small Python program that aligns two
sequences. Global alignment follows Needleman-Wunsch and local alignment
follows Smith-Waterman, both with a linear gap penalty. The program has
three core functions:

- `compute_matrices` fills a score grid and a direction grid. The direction
  codes are 0 none, 1 left, 2 diagonal and 3 up.
- `sw_back_tracking` reports every local alignment whose start cell reaches
  a threshold. A negative threshold is first replaced by the best score.
- `nw_back_tracking` reports the one global alignment, traced from the
  bottom-right corner back to the origin.

The model has six modules:

- `Recurrence` (recurrence.dfy) states what each cell of both grids holds
  once they are filled (`ScoreAt`, `DirAt`). It also proves the border
  values, the maximum rule and the left-diagonal-up tie-break.
- `MatrixBuilder` (matrix_builder.dfy) is `compute_matrices` written over
  two `array2`s. It has the border loop, the row loop and the cell body.
  It returns a status for the two exceptions the code can raise: an
  IndexError in the border loop and a KeyError on a substitution lookup.
- `Traceback` (traceback.dfy) defines a trace through a direction grid
  (`StepFrom`, `Trace`) and the loop body both tracebacks share
  (`StepBack`). It proves that a trace spells the traversed slices of the
  two sequences, never holds an all-gap column, only holds pairs the table
  scores, and that its column scores add up to the score difference
  between its start and end cells.
- `GlobalAligner` (global_aligner.dfy) is `nw_back_tracking`. It also says
  exactly when that loop terminates: `Walk` follows the loop pass by pass,
  and it reaches the origin iff the corner trace ends there.
- `LocalAligner` (local_aligner.dfy) is `sw_back_tracking`: the threshold
  scan, one trace per qualifying cell in row-major order, and lemmas
  about which alignments are reported.
- `Optimality` (optimality.dfy) says what a score cell means: no
  alignment of the prefixes it covers scores more. It also exhibits the
  score that the short row-0 border inflates.

The tracebacks read the two arrays. Their contracts are stated against
ghost grid values `sc` and `g` that the arrays hold cell for cell
(`HoldsGrids`). `BuiltHoldsGrids` and `BuiltGridsConsistent` connect those
values to what `compute_matrices` builds.

## Model

| member | source | states |
|---|---|---|
| Recurrence.Best | solutionpy.py:24-27 | The cell value is at least each of the three candidates. In local mode it is at least 0. It equals one of the candidates, or 0 in local mode. |
| Recurrence.ScoreAt | solutionpy.py:11-29 | The score of cell (i, j) after filling. In local mode it is never negative. |
| Recurrence.DirAt | solutionpy.py:11-38 | The direction of cell (i, j) after filling. Left needs j >= 1, Up needs i >= 1 and Diagonal needs both, so no direction leaves the grid. |
| Recurrence.ColumnZero | solutionpy.py:11-14 | In global mode cell (i, 0) scores -i*gap and points Up for i >= 1. In local mode it scores 0 with no direction. |
| Recurrence.RowZero | solutionpy.py:11-16 | In global mode cell (0, j) scores -j*gap and points Left only for 1 <= j <= len(seq1). Every other row-0 cell stays 0 with no direction. |
| Recurrence.InteriorIsBest | solutionpy.py:20-29 | An interior cell holds the maximum of left, diag and up (and 0 in local mode), and that maximum is one of them. |
| Recurrence.TieBreakPriority | solutionpy.py:31-36 | An interior cell points Left iff its score equals left. It points Diagonal iff the score is not left but equals diag. It points Up iff the score is neither left nor diag but equals up. |
| Recurrence.GlobalNoneCells | solutionpy.py:11-38 | In global mode a cell has no direction exactly at the origin and at row-0 cells beyond column len(seq1). |
| Recurrence.LocalNoneCells | solutionpy.py:27-38 | In local mode a cell has no direction iff it is a border cell or all three candidates are negative. Such a cell scores 0. |
| Recurrence.Sub | solutionpy.py:21 | Definition: the table's score for the pair seq1[i-1], seq2[j-1]. |
| Recurrence.LeftOf | solutionpy.py:20 | Definition: the left candidate, the cell to the left minus the gap penalty. |
| Recurrence.DiagOf | solutionpy.py:21 | Definition: the diagonal candidate, the cell up-left plus the pair's score. |
| Recurrence.UpOf | solutionpy.py:22 | Definition: the up candidate, the cell above minus the gap penalty. |
| Recurrence.TieBreak | solutionpy.py:31-36 | Definition: Left if the value is left, else Diagonal if it is diag, else Up if it is up, else None. Its priority is proved in TieBreakPriority. |
| Recurrence.StepScore | solutionpy.py:29-36 | A recorded direction names the candidate the score came from: -gap for Left and Up, the substitution score for Diagonal. |
| MatrixBuilder.ComputeMatrices | solutionpy.py:1-40 | Returns fresh grids. IndexError exactly when the mode is global and len(seq1) > len(seq2). KeyError exactly when otherwise some pair is missing from the table. On success every cell holds ScoreAt and DirAt. |
| MatrixBuilder.BorderScore | solutionpy.py:11-16 | Definition: the score the border loop leaves, -x*gap down column 0 and -y*gap along row 0 up to column len(seq1) in global mode, 0 elsewhere. |
| MatrixBuilder.BorderDir | solutionpy.py:11-16 | Definition: the direction the border loop leaves, Up down column 0 and Left along row 0 up to column len(seq1) in global mode, None elsewhere. |
| MatrixBuilder.BordersAreFinal | solutionpy.py:11-16 | For a table covering every pair, what the border loop leaves in a border cell is that cell's final score and direction. |
| MatrixBuilder.SetBorders | solutionpy.py:11-16 | The border loop fails exactly when the mode is global and len(seq1) > len(seq2). Otherwise every cell of both grids holds BorderScore and BorderDir, whatever the table holds. For a table covering every pair, all border cells are final and every interior direction is None. |
| MatrixBuilder.CellFollows | solutionpy.py:20-36 | Definition: the cell's pair is in the table, and the cell holds the maximum of the three candidates read from its neighbours and the direction the tie-break picks for it. |
| MatrixBuilder.FillRow | solutionpy.py:19-36 | Row i is completed exactly when every pair of seq1[i-1] with a symbol of seq2 is in the table. No cell outside columns 1.. of row i changes. On completion every cell of the row follows from its neighbours (CellFollows), whatever the table holds elsewhere, and every cell up to row i is final. |
| MatrixBuilder.FillCell | solutionpy.py:20-36 | The lookup succeeds exactly when the pair is in the table. No other cell changes, and a failed lookup leaves cell (i, j) unchanged too. On success the cell follows from its neighbours (CellFollows) and, for a table covering every pair, is final. |
| MatrixBuilder.CellFromNeighbours | solutionpy.py:20-36 | The three candidates read from the neighbours give the cell's ScoreAt and DirAt. |
| Traceback.DirGrid | solutionpy.py:8-38 | The direction grid as a value: a valid direction grid whose every cell equals DirAt. |
| Traceback.ScoreGrid | solutionpy.py:8-29 | Definition: the score grid as a value, cell (i, j) being ScoreAt. |
| Traceback.BuiltHoldsGrids | solutionpy.py:1-40 | Arrays built by compute_matrices hold ScoreGrid and DirGrid cell for cell. |
| Traceback.StepFrom | solutionpy.py:62-75 | A step out of a cell with a direction lowers i + j. A coordinate that goes down by one consumes that sequence's symbol; a coordinate that stays writes the gap marker. |
| Traceback.Trace | solutionpy.py:62-75 | A trace ends at a cell with no direction, never after its start cell, and has equally long strings. |
| Traceback.OriginTrace | solutionpy.py:89 | The origin has no direction, so the trace from it is empty. |
| Traceback.StepBack | solutionpy.py:63-75 | One loop iteration moves to a cell with a smaller i + j. The prepended column keeps the strings built so far consistent with the trace from the start cell. |
| Traceback.AlignmentFrom | solutionpy.py:76 | The reported triple has equally long strings and the score of its start cell. |
| Traceback.RemoveGaps | solutionpy.py:64-74 | Deleting gap markers never lengthens a string. |
| Traceback.TraceSpellsFirst | solutionpy.py:63-75 | Without its gaps, the top string of a trace is the slice of seq1 between the end row and the start row. |
| Traceback.TraceSpellsSecond | solutionpy.py:63-75 | Without its gaps, the bottom string of a trace is the slice of seq2 between the end column and the start column. |
| Traceback.TraceHasNoEmptyColumn | solutionpy.py:63-75 | No column of a trace has a gap marker on both sides. |
| Traceback.TraceScorable | solutionpy.py:67-71 | Every gap-free column of a trace is a pair the table scores. |
| Traceback.BuiltGridsConsistent | solutionpy.py:20-36 | The built grids agree with each other: each direction's step changes the score by exactly its candidate's increment. |
| Traceback.StepColumn | solutionpy.py:20-36 | The column a step prepends scores the difference between the scores of the step's two cells. |
| Traceback.TraceScore | solutionpy.py:62-76 | The column scores of a trace add up to the start cell's score minus the end cell's score. |
| Traceback.TraceFacts | solutionpy.py:62-76 | Everything above for one trace: the slices spelt out, no empty column, scorable columns, and the score difference. |
| GlobalAligner.EndsAtOrigin | solutionpy.py:89 | Definition: the trace from the bottom-right corner ends at the origin, the loop's exit condition. |
| GlobalAligner.Walk | solutionpy.py:89-102 | The cell the loop is at after k passes stays in the grid. A pass from a cell with no direction other than the origin leaves it where it is, as none of the branches fires. |
| GlobalAligner.WalkFollowsTrace | solutionpy.py:89-102 | Every cell the loop visits has the same trace end as the corner. |
| GlobalAligner.WalkNeverReachesOrigin | solutionpy.py:89-102 | If the corner trace does not end at the origin, the loop never reaches it, after any number of passes, so it never stops. |
| GlobalAligner.WalkProgress | solutionpy.py:89-102 | If the corner trace ends at the origin, every pass either finds the loop at the origin or lowers i + j. |
| GlobalAligner.WalkReachesOrigin | solutionpy.py:89-102 | If the corner trace ends at the origin, the loop is there after len(seq1) + len(seq2) passes. |
| GlobalAligner.EqualLengthsReachOrigin | solutionpy.py:89-102 | In global mode with equally long sequences the corner trace reaches the origin, so the loop terminates. |
| GlobalAligner.EmptyFirstNeverReachesOrigin | solutionpy.py:11-16 | In global mode with an empty seq1 and a non-empty seq2 the corner cell has no direction, and the loop never reaches the origin after any number of passes. |
| GlobalAligner.CornerAlignment | solutionpy.py:89-103 | On consistent grids whose corner trace reaches an origin scoring 0, the alignment spells out both sequences in full, has no empty column, and its column scores add up to the reported score. |
| GlobalAligner.GlobalAlignmentProperties | solutionpy.py:80-105 | For the built grids the reported alignment spells out both gap-free sequences and has no empty column. Its column scores add up to the reported score, which is ScoreAt of the corner. |
| GlobalAligner.NwBackTracking | solutionpy.py:80-105 | Returns exactly one triple: the trace from the corner with the corner's score. |
| LocalAligner.RowScan | solutionpy.py:49-51 | The scan of one row ends with a value at least the start value and at least every score of the row, and equal to one of them. |
| LocalAligner.GridScan | solutionpy.py:48-51 | The same for the whole grid. |
| LocalAligner.ResolvedThreshold | solutionpy.py:47-51 | A non-negative threshold is kept. A negative one becomes at least every score and at least itself, and equals itself or some score. |
| LocalAligner.ResolveThreshold | solutionpy.py:47-51 | The threshold loop computes ResolvedThreshold. |
| LocalAligner.RowCells | solutionpy.py:56-57 | The cells of one row visited so far that reach the threshold, in strictly increasing column order. |
| LocalAligner.GridCells | solutionpy.py:55-57 | The cells of the rows visited so far that reach the threshold, in strict row-major order. |
| LocalAligner.Alignments | solutionpy.py:57-76 | Definition: one triple per listed cell, in list order, the trace from that cell with its score. |
| LocalAligner.LocalCells | solutionpy.py:47-57 | Every cell sw_back_tracking starts a trace from lies in the grid. |
| LocalAligner.LocalAlignments | solutionpy.py:53-77 | What sw_back_tracking returns for given grids: every triple's score reaches the resolved threshold. |
| LocalAligner.AlignmentsConcat | solutionpy.py:76 | Appending cells appends their triples. |
| LocalAligner.RowCellsComplete | solutionpy.py:56-57 | Every cell of the row before column n that reaches the threshold is listed. |
| LocalAligner.GridCellsComplete | solutionpy.py:55-57 | Every cell of the rows visited so far that reaches the threshold is listed. |
| LocalAligner.RowCellsMonotone | solutionpy.py:57 | A higher threshold lists no more cells of a row. |
| LocalAligner.GridCellsMonotone | solutionpy.py:55-57 | A higher threshold lists no more cells of the grid. |
| LocalAligner.LocalAlignmentsComplete | solutionpy.py:53-77 | Every cell whose score reaches the resolved threshold contributes its triple to the result. |
| LocalAligner.RaisingThresholdNeverAddsCells | solutionpy.py:55-57 | Raising a non-negative threshold gives a list of cells no longer than before, each of them listed before. |
| LocalAligner.AlignmentsOfSublist | solutionpy.py:76 | The triples of a sub-list of cells are among the triples of the list. |
| LocalAligner.RaisingThresholdNeverAddsAlignments | solutionpy.py:47-77 | Raising a non-negative threshold never adds a triple, and the list gets no longer. |
| LocalAligner.NegativeThresholdCanListFewer | solutionpy.py:47-57 | On the grid [[0, 0], [0, 1]] threshold -1 resolves to 1 and lists one cell, while threshold 0 lists all four. Raising a negative threshold can therefore add cells. |
| LocalAligner.NegativeThresholdKeepsBest | solutionpy.py:45-57 | With a negative threshold at least one triple is reported. Every triple carries the best score of the grid. |
| LocalAligner.LocalTraceStopsAtZero | solutionpy.py:62 | In local mode a trace stops at a cell with no direction and score 0. |
| LocalAligner.LocalAlignmentProperties | solutionpy.py:58-76 | In local mode a trace spells the traversed slices of both gap-free sequences and has no empty column. Its column scores add up to its start cell's score. |
| LocalAligner.LocalTrace | solutionpy.py:58-75 | The inner while loop produces exactly the trace from the start cell. |
| LocalAligner.TraceRow | solutionpy.py:56-76 | The loop over one row appends the triples of exactly the cells of that row reaching the threshold, left to right. |
| LocalAligner.SwBackTracking | solutionpy.py:43-77 | Returns exactly the triples of the cells reaching the resolved threshold, in row-major order. |
| Optimality.AlignmentOf | solutionpy.py:58-76 | Definition: two equally long strings align x with y when deleting the gap markers gives back x and y and no column is a gap on both sides. |
| Optimality.GlobalScoreIsOptimal | solutionpy.py:11-29 | In global mode no alignment of seq1[..i] with seq2[..j] scores more than cell (i, j), for j <= len(seq1) or a non-negative gap penalty. |
| Optimality.RowZeroStep | solutionpy.py:11-16 | Along row 0 one more gap column never scores above the next cell, under the same condition. |
| Optimality.LocalScoreIsOptimal | solutionpy.py:11-29 | In local mode with a non-negative gap penalty no alignment of a slice of seq1 ending at i with a slice of seq2 ending at j scores more than cell (i, j). |
| Optimality.GlobalAlignmentIsOptimal | solutionpy.py:80-105 | In global mode, whenever the loop terminates and len(seq2) <= len(seq1) or the gap penalty is non-negative, the reported alignment aligns the two sequences and no alignment of them scores more. |
| Optimality.LocalAlignmentIsOptimal | solutionpy.py:58-76 | In local mode with a non-negative gap penalty the trace from cell (i, j) scores at least as much as every alignment of slices ending at i and j. |
| Optimality.EmptyAgainst | solutionpy.py:11-16 | An alignment of the empty string with y is all gap columns and scores -len(y)*gap. |
| Optimality.InflationExample | solutionpy.py:11-16 | A global run of "A" against "BC" with gap penalty 1 and mismatch score -1, whose table covers every pair. |
| Optimality.RowZeroInflatesScore | solutionpy.py:11-16 | For that run cell (0, 2) holds 0 although every alignment of the empty prefix with "BC" scores -2, and the corner holds -1. |
| Optimality.InflatedCornerIsNeverReported | solutionpy.py:89-102 | For that run the corner points Up into cell (0, 2), which has no direction, so the corner trace does not reach the origin and the inflated score is never reported. |

## Left out

- The printing helpers `printer1` and `printer2`, the input file loading and the driver code are not part of this model.
- Scores are integers. Floating-point substitution scores and gap penalties are not modelled.
- The modality is a two-valued type. The code selects Needleman-Wunsch for the string "nw" and Smith-Waterman for every other string, without reporting an invalid value.
- The substitution table, a dictionary of dictionaries, is modelled as one map from symbol pairs to scores. A missing outer or inner key is the same KeyError.
- Traceback.ColumnValue: gives 0 for a pair the table lacks. Such a column never occurs in a trace of built grids (Traceback.TraceScorable).
- GlobalAligner.NwBackTracking: requires that the corner trace reach the origin (`EndsAtOrigin`). Otherwise the Python loop never terminates. The two lemmas `EqualLengthsReachOrigin` and `EmptyFirstNeverReachesOrigin` show when each case occurs.
- The tracebacks take the sequences and the arrays as the code does. Their contracts use ghost grid values that the arrays hold, so arrays of any other origin are covered only through `HoldsGrids`.
- Python's negative indexing never occurs, because the model only reads inside the grid. The code uses `seq1[i - 1]` only for i >= 1.
- Traceback.TraceSpellsFirst, Traceback.TraceSpellsSecond, Traceback.TraceHasNoEmptyColumn, Traceback.TraceScore: require that the gap marker '-' occurs in neither sequence. A '-' inside a sequence cannot be told apart from a gap.
- Optimality.GlobalScoreIsOptimal: requires j <= len(seq1) or a non-negative gap penalty. Beyond column len(seq1) row 0 holds 0 instead of -j*gap, which a negative penalty puts above 0, so no bound holds there.
- Optimality.GlobalAlignmentIsOptimal: requires that the loop terminate (`ReachesOrigin`) and len(seq2) <= len(seq1) or a non-negative gap penalty, for the same reason.
- Optimality.LocalScoreIsOptimal, Optimality.LocalAlignmentIsOptimal: require a non-negative gap penalty. With a negative penalty an alignment made of gap columns only scores above the 0 of a border cell.
- LocalAligner.RaisingThresholdNeverAddsCells, LocalAligner.RaisingThresholdNeverAddsAlignments: the lower threshold must be non-negative. A negative one is first replaced by the best score, which can lie above a higher non-negative threshold (LocalAligner.NegativeThresholdCanListFewer).
- Where the code departs from its docstrings (solutionpy.py:2-3, 44-45, 81-82) or from the textbook Needleman-Wunsch and Smith-Waterman recurrences, the model follows the code:
  - A global alignment with the first sequence longer than the second (for example "ACGT" against "AGT") raises IndexError in the border loop rather than returning matrices.
  - A global alignment of an empty first sequence against a non-empty second one never terminates, rather than returning the global alignment.
  - The row-0 border in global mode holds -j*gap only up to column len(seq1), where the textbook border runs to len(seq2). The cells beyond hold 0, which inflates the scores that depend on them. For "A" against "BC" with gap penalty 1 and mismatch score -1, cell (0, 2) holds 0 against -2 for every alignment of the empty prefix, and the corner holds -1 (Optimality.RowZeroInflatesScore). That corner is never reported, since the loop of nw_back_tracking hangs (Optimality.InflatedCornerIsNeverReported). With a non-negative gap penalty every alignment nw_back_tracking does report is optimal (Optimality.GlobalAlignmentIsOptimal).
  - With a negative threshold the docstring promises only the best scoring alignment. Every cell holding the best score yields a triple, so several triples can be returned (LocalAligner.NegativeThresholdKeepsBest).
