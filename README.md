# Sudoku board model and search strategies

This project models the core of a small Sudoku game (`solver.py` and the
solver half of `sudoku.py`): the 9×9 board of cells with its legality
queries, and the family of solvers built on it. The solvers are:

- recursive backtracking (`solve`, `visual_solve`);
- breadth-first search, without a visited set (`solve_bfs`) and with one (`bfs_solve`);
- depth-limited search and its iterative-deepening driver (`dls_solve`, `ids_solve`);
- the A* and greedy best-first searches over a heap (`astar_solve`, `greedy_solve` in `sudoku.py`);
- the one-shot most-constrained-cell fill (`greedy_solve` in `solver.py`);
- the authoritative completion check `check_sudoku` and the raw-grid move check `is_valid`.

Representation:

- A board is stored as 81 integers in row-major order, with index `9 * row + col` and 0 standing for an empty cell (`None`).
- The `Sudoku` object is a class. Its cell values are an `array<int>` that the solvers update in place. Its editable flags are a constant sequence fixed at construction.
- Search states (the deep copies put on the queues and the heap) are values of the subset type `Board.Grid`.
- The visited set holds board signatures, the tuple of the nine rows (`Board.Rows`).

Every solver is proved against one reference function:

- `Backtracking.Search` is the first solution in the solvers' own order: first empty cell, digits 1..9 ascending. `Backtracking.Solvable` is its success.
- The recursive solvers (`Solve`, `VisualSolve`, `DlsSolve`) return exactly `Search`'s solution. On failure they leave the board as it was.
- The queue and heap solvers are proved sound: what they report solved is a full extension of the start, and whatever they stop with, the live board only ever gains values.
- The two breadth-first solvers (`SolveBfs`, `BfsSolve`) are also proved to fail only when the start cannot be completed. The heap solvers fail either then, or when the board they restored last was already full: they test the live board before restoring the popped one, so success shows one pop late. The proof is a "closed exploration" invariant over the boards expanded (`Backtracking.Closed`).
- The counter of the heap solvers keeps the heap's keys pairwise distinct (`Frontier.TicksBelow`, a loop invariant of `Strategies.BestFirst`), so every pop takes the unique least entry.
- `Backtracking.SolvableIffCompletion` shows that, on a consistent board, `Solvable` means "some full, consistent board extends it".

Modules, one per source concern:

| file | module | models |
|---|---|---|
| outcome.dfy | `Outcome` | `Option`, the raised errors, `Result`, and the verdict of a fuel-bounded loop |
| cell.dfy | `Cells` | the `Cell` record and its three validating setters |
| board.dfy | `Board` | snapshots, `check_move`, `get_possible_moves`, `get_empty_cell`, `get_board`, `reset` |
| search.dfy | `Backtracking` | the reference search and the exploration invariant |
| frontier.dfy | `Frontier` | heap entries, Python's tuple order, `heappop` |
| solver.dfy | `Solver` | the `Sudoku` class, `solve_bfs`, the MRV `greedy_solve` |
| strategies.dfy | `Strategies` | the solvers of `sudoku.py`, `check_sudoku`, `is_valid` |

## Model

| member | source | states |
|---|---|---|
| Cells.SetRow | solver.py:17-22 | succeeds iff the row is in 0..8, changing only the row; otherwise the row error |
| Cells.SetCol | solver.py:28-33 | succeeds iff the column is in 0..8, changing only the column; otherwise the column error |
| Cells.SetValue | solver.py:46-51 | accepts None or 1..9 (so 0 is rejected), changing only the value; otherwise the value error |
| Cells.NewCell | solver.py:6-11 | a cell is created iff row, column and value are all acceptable; the error is that of the first setter that fails |
| Board.CheckMove | solver.py:69-88 | check_move's three scans as written, the box scan skipping cells that share the row or the column; its meaning is CheckMoveIff's |
| Board.CheckMoveIff | solver.py:69-88 | check_move holds iff no other cell of the row, column or box holds num: the box scan's "differs in row and column" exclusion loses nothing |
| Board.CheckMovePeer | solver.py:71-86 | when check_move holds, no peer holds num |
| Board.CheckMoveFails | solver.py:71-86 | when check_move fails, some peer holds num |
| Board.CheckMoveIgnoresOwnCell | solver.py:69-88 | the cell's own current value does not affect check_move |
| Board.Possible | solver.py:90-106 | the list get_possible_moves returns: [1..9] without the values of the row, column and box; its meaning is PossibleSpec's |
| Board.PossibleSpec | solver.py:90-106 | get_possible_moves is strictly ascending, and v is in it iff v is a digit absent from every cell of the row, column and box (the cell included) |
| Board.WithoutKeepsOrder | solver.py:91-106 | removing values from the ascending list [1..9] keeps it ascending |
| Board.RemoveFromWithout | solver.py:94-95 | list.remove on the filtered list is the same as filtering out one more value |
| Board.PossibleIffCheckMove | solver.py:90-106 | for an empty cell, v is a possible move iff v is a digit and check_move(cell, v) holds |
| Board.PossibleHeadIsLeast | solver.py:209-213 | options[0] is the smallest digit check_move accepts at the empty cell |
| Board.FirstEmpty | solver.py:108-115 | the first empty cell in row-major order; AllFilled (the source's False) iff no cell is empty |
| Board.FirstEmptyUnique | solver.py:108-115 | the first zero, or AllFilled on a full board, is the answer get_empty_cell gives |
| Board.EmptyCountFill | solver.py:129 | filling one empty cell lowers the number of empty cells by exactly one |
| Board.Rows | solver.py:138-139 | get_board and the signature: nine rows of nine values, row r column c holding cell (r, c) |
| Board.RowsInjective | sudoku.py:211-212 | two boards share a signature only if they hold the same 81 values |
| Board.FullConsistentNoRepeats | sudoku.py:442-463 | on a full board, "no filled cell repeats a peer" and "no two peers are equal" agree |
| Board.PlaceKeepsConsistent | solver.py:126-129 | writing a digit check_move accepts into an empty cell keeps a consistent board consistent and keeps all other values |
| Board.ResetGrid | solver.py:151-155 | the board reset leaves: the current board extends it, and a cell is empty iff it is editable or was empty |
| Board.ResetIdempotent | solver.py:151-155 | reset clears exactly the editable cells; applying it twice equals applying it once |
| Backtracking.Search | solver.py:117-136 | the search's solution is a full board extending the start, and consistent when the start is |
| Backtracking.TryFrom | solver.py:124-136 | the candidate loop from digit v upwards: a success is a full board extending the board, consistent when the board is |
| Backtracking.TryFromFinds | solver.py:124-134 | the candidate loop succeeds when some later legal digit leads to a solvable board |
| Backtracking.TryFromWitness | solver.py:124-134 | a successful candidate loop succeeded with the digit the solution holds at that cell, a digit check_move accepts |
| Backtracking.ChildOfSolvable | solver.py:117-136 | a solvable board that is not full has a solvable child at its first empty cell, with one fewer empty cell |
| Backtracking.ParentOfSolvable | solver.py:117-136 | a board with a solvable legal child at its first empty cell is solvable |
| Backtracking.CompletionSolvable | solver.py:117-136 | completeness: a consistent board that a full, consistent board extends is solvable |
| Backtracking.SolvableIffCompletion | solver.py:117-136 | a consistent board is solvable iff some full, consistent board extends it |
| Backtracking.ClosedSetUnsolvable | sudoku.py:217-269 | a set of boards in which each solvable board has its solvable child again holds no solvable board |
| Backtracking.ChildrenBelow | solver.py:175-179 | the enqueued children differ from the parent only at the given cell, each holding a digit check_move accepts, and every such digit is present |
| Backtracking.ChildrenBelowStep | solver.py:175-179 | the loop-step unfolding of the candidate loop: one more digit appends its child exactly when check_move accepts it (used by TryDigit to keep TryDigits' loop invariant) |
| Backtracking.ClosedRevisit | sudoku.py:220-221 | skipping an already explored board keeps the exploration invariant |
| Backtracking.ClosedExpand | sudoku.py:241-258 | expanding a board and opening all its legal children keeps the exploration invariant |
| Backtracking.ClosedExhausted | sudoku.py:269 | an exhausted frontier with no full board explored means the start is unsolvable |
| Frontier.KeyLessTransitive | sudoku.py:335 | Python's tuple order is transitive |
| Frontier.KeyLessTotal | sudoku.py:335 | distinct tuples are always ordered one way or the other |
| Frontier.MinIndex | sudoku.py:335 | heappop's entry: no entry of the heap has a smaller key |
| Frontier.PopIsStrictMin | sudoku.py:331-335 | while the counter values in the heap are distinct and below the counter, heappop's entry is strictly below every other entry, so it is the unique least entry |
| Frontier.TicksRemove | sudoku.py:335 | a pop keeps the counter values distinct and below the counter |
| Frontier.TicksPush | sudoku.py:372 | pushing entries numbered with the counter, and advancing it past them, keeps the counter values distinct and below it |
| Frontier.Remove | sudoku.py:335 | the heap after a pop holds every other entry, in order, and loses only the popped board |
| Frontier.StatesAppend | sudoku.py:372 | pushing entries adds exactly their boards to the heap |
| Solver.CellAt | solver.py:61-67 | the cell built for one position: an index error past the grid's end, an empty editable cell for 0, a fixed cell otherwise; its meaning is BuildCellsSpec's |
| Solver.BuildCells | solver.py:56-67 | construction yields the 81 cells iff every position's cell can be built, else the first failing position's error |
| Solver.BuildCellsSpec | solver.py:56-67 | construction succeeds iff the grid has 9 rows of 9 entries in 0..9, with duplicates not cross-checked; 0 becomes an empty editable cell, a digit a fixed cell holding it; on a grid of the right shape the only error is the value error |
| Solver.BuildCellsStops | solver.py:56-67 | once a position fails, construction reports that position's error |
| Solver.Sudoku.FromCells | solver.py:56-67 | the board holds each built cell's value (None as 0) and its editable flag |
| Solver.NewSudoku | solver.py:56-67 | a board is produced iff construction succeeds, holding the built cells; otherwise the error |
| Solver.Sudoku.GetBoard | solver.py:138-139 | the live board's rows, as Board.Rows lays them out |
| Solver.Sudoku.Restore | solver.py:167-169 | after the restore loops the live board holds the state's 81 values |
| Solver.Sudoku.GetPossibleMoves | solver.py:90-106 | the three in-place removal loops return exactly the possible moves |
| Solver.Sudoku.StrikeRow | solver.py:93-95 | the row loop removes the row's values |
| Solver.Sudoku.StrikeCol | solver.py:97-99 | the column loop removes the column's values |
| Solver.Sudoku.StrikeBox | solver.py:101-104 | the box loops remove the box's values |
| Solver.Sudoku.ScanCoversUnit | solver.py:93-104 | the 27 visited cells hold exactly the values of the row, column and box |
| Solver.Sudoku.RemainingIsPossible | solver.py:90-106 | the list left after the 27 removals is the possible-move list |
| Solver.Sudoku.GetEmptyCell | solver.py:108-115 | the double loop returns the first empty cell, or False |
| Solver.Sudoku.Solve | solver.py:117-136 | returns Solvable(start); on True the board holds Search's solution; on False every value is as before; fixed cells are never changed |
| Solver.Sudoku.SolveWith | solver.py:129-134 | an accepted digit is kept iff the board with it is solvable, else the cell is cleared again |
| Solver.Sudoku.TestSolve | solver.py:141-149 | returns solve's answer and restores all 81 values |
| Solver.Sudoku.SetValues | solver.py:145-147 | the copy-back loop writes the saved rows back |
| Solver.Sudoku.Reset | solver.py:151-155 | every editable cell becomes empty and every fixed cell keeps its value |
| Solver.LegalChildren | solver.py:175-179 | the enqueued copies are the parent with one digit check_move accepts written at the empty cell, one per such digit |
| Solver.ChildReached | solver.py:175-179 | a legal child of a reached state extends the start and is consistent when the start is; its solvability implies the start's |
| Solver.FullSolvable | solver.py:171-173 | a full board is solvable and is its own solution |
| Solver.BfsStep | solver.py:164-179 | expanding the head of the queue keeps every queued state reached, and keeps a solvable state queued while the start is solvable |
| Solver.SolveBfs | solver.py:160-181 | the live board only gains values; on Solved the live board is a full extension of the start (consistent if the start is) and the start is solvable; Failed only when the start cannot be completed; fixed cells keep their values |
| Solver.MrvScan | solver.py:187-201 | the scan returns None only on a full board, and otherwise a cell satisfying the pick rule (fewest options, first on ties, stopping at one option) |
| Solver.ScanAdvance | solver.py:191-200 | one cell of the scan updates the best cell and least count as the loop does |
| Solver.MostConstrained | solver.py:187-201 | find_most_constrained_cell returns None iff the board is full, and otherwise the pick rule's cell |
| Solver.FindMostConstrainedCell | solver.py:187-201 | the row-major double loop returns MostConstrained's cell |
| Solver.ScanRowCells | solver.py:192-200 | the inner loop scans one row, or returns the cell it stopped at |
| Solver.VisitCell | solver.py:193-200 | an empty cell with fewer options becomes the best, and the scan stops at one option |
| Solver.GreedyMove | solver.py:209-213 | one greedy move keeps every value, lowers the empty count and keeps a consistent board consistent |
| Solver.GreedyRun | solver.py:203-213 | the fill never undoes a value; it answers True iff the final board is full; on False the picked cell has no possible move; consistency is kept |
| Solver.GreedySuccessSolvable | solver.py:203-207 | a greedy success on a consistent board means backtracking also succeeds |
| Solver.GreedySolve | solver.py:184-213 | the while-loop ends with GreedyRun's answer and board |
| Strategies.VisualSolve | sudoku.py:163-203 | same answer and solution as solve; on False the board is as before |
| Strategies.VisualTry | sudoku.py:175-196 | writing val before check_move and clearing on rejection or failure: kept iff legal and solvable |
| Strategies.SignatureVisited | sudoku.py:211-221 | a visited signature belongs to an already explored board |
| Strategies.TryDigits | sudoku.py:241-258 | the enqueued copies are exactly the legal children; afterwards the live cell holds 9 if 9 was legal, else None |
| Strategies.TryDigit | sudoku.py:243-258 | a digit stays on the live cell iff check_move accepts it, and exactly then the copy of the popped board with it is enqueued |
| Strategies.LogNew | sudoku.py:220-222 | marking a new signature visited keeps the log of expanded boards free of repeats |
| Strategies.DequeueRevisit | sudoku.py:218-221 | skipping a visited board keeps the queue bookkeeping |
| Strategies.DequeueExpand | sudoku.py:222-258 | expanding a new board keeps the queue bookkeeping |
| Strategies.BfsSolve | sudoku.py:206-269 | no board is expanded twice; the live board only gains values; on Solved the live board is a full extension of the start; Failed only when the start cannot be completed |
| Strategies.WithinLimit | sudoku.py:274-279 | the cut-off of dls_solve: a full board is accepted before the depth test, and a board that is not full needs depth + empty cells <= limit + 1 |
| Strategies.DlsSolve | sudoku.py:272-307 | True iff the board is full, or solvable within limit - depth + 1 moves (full is checked before the cut-off), with solve's solution; on False every move is undone |
| Strategies.IdsSolve | sudoku.py:310-316 | never answers False; succeeds exactly when the start is solvable and its empty count fits the number of limits tried, with solve's solution |
| Strategies.Heuristic | sudoku.py:322-324 | heuristic(board): the sum, over board's empty cells, of the possible-move counts read on the live board; its properties are HeuristicBounds', HeuristicFromFill's and ChildHeuristic's |
| Strategies.HeuristicFrom | sudoku.py:324 | the same sum over the cells from k on |
| Strategies.HeuristicBounds | sudoku.py:324 | the sum is 0 when the cells from k on are all filled, and at most nine per remaining cell |
| Strategies.HeuristicFromFill | sudoku.py:324 | filling an empty cell removes exactly that cell's move count from the heuristic sum |
| Strategies.ChildHeuristic | sudoku.py:367-372 | a child's h, read on the parent's live board, is the parent's h minus the filled cell's move count |
| Strategies.Key | sudoku.py:372 | the pushed tuple ends with the insertion counter |
| Strategies.AStarOrder | sudoku.py:372 | A* pops by f = g + h, then by g, then by insertion order |
| Strategies.GreedyOrder | sudoku.py:434 | greedy pops by h, then by insertion order |
| Strategies.ChildEntries | sudoku.py:368-372 | one entry per possible move, holding the parent with that move, one move deeper, with consecutive counters |
| Strategies.PushChildren | sudoku.py:368-372 | the push loop appends exactly those entries and advances the counter by their number |
| Strategies.ChildEntriesSnoc | sudoku.py:368-372 | the loop-step unfolding of the push loop: one more move appends its entry with the next counter value (used as the step of PushChildren's invariant) |
| Strategies.ChildEntriesOpen | sudoku.py:361-376 | the pushed boards are exactly the legal children at the first empty cell |
| Strategies.Pushed | sudoku.py:361-373 | what one expansion pushes: nothing for a full board, else entries one move deeper with the consecutive counter values tick, tick + 1, ... |
| Strategies.Expand | sudoku.py:350-376 | restoring and expanding leaves the popped board live, pushes its single-cell expansion, and advances the counter by the number pushed |
| Strategies.ExpandKeeps | sudoku.py:361-376 | an expansion keeps every heap board reached and the exploration closed |
| Strategies.PopRevisit | sudoku.py:345-347 | popping a visited board keeps the heap bookkeeping |
| Strategies.PopExpand | sudoku.py:345-376 | popping a new board and pushing its expansion keeps the heap bookkeeping |
| Strategies.LiveRestore | sudoku.py:341-352 | after the live board was found not full, restoring the popped board keeps what the loop knows of the live board |
| Strategies.BestFirst | sudoku.py:334-377 | no board is expanded twice; the live board only gains values and fixed cells keep theirs; Solved means the live board is full and the start solvable; Failed means the start is unsolvable or the live board is already full (success seen one pop late) |
| Strategies.AStarSolve | sudoku.py:320-377 | astar_solve, run with (g + h, g, counter) keys: the live board only gains values; Solved means it is full and the start solvable, and from a start without conflicts the full board has none either; Failed means the start is unsolvable or the live board was already full |
| Strategies.GreedyBestFirst | sudoku.py:380-439 | greedy_solve, run with (h, counter) keys: the live board only gains values; Solved means it is full and the start solvable, and from a start without conflicts the full board has none either; Failed means the start is unsolvable or the live board was already full |
| Strategies.SeenRepeat | sudoku.py:456-457 | a value already in a row, column or box set is a repeat between peers |
| Strategies.UnseenExtends | sudoku.py:456-461 | a value in none of its three sets extends the repeat-free prefix |
| Strategies.SetsAdvance | sudoku.py:459-461 | adding the value to its three sets accounts for the cell |
| Strategies.CheckRow | sudoku.py:452-461 | one row of the scan: False only on a real repeat, else the sets and the repeat-free prefix advance by nine cells |
| Strategies.CheckSudoku | sudoku.py:442-463 | the incomplete error iff some cell is empty; otherwise True iff no row, column or box repeats a value |
| Strategies.IsValid | sudoku.py:468-478 | is_valid's scans as written on a 9×9 list of rows, the cell itself included; its meaning is IsValidMatchesCheckMove's |
| Strategies.IsValidMatchesCheckMove | sudoku.py:468-478 | is_valid is check_move plus "the cell itself does not hold num" |
| Strategies.IsValidExcludes | sudoku.py:469-477 | is_valid rules out num in every cell of the row, column and box |
| Strategies.IsValidWitness | sudoku.py:469-477 | a failing is_valid points at a cell of the unit holding num |
| Strategies.IsValidMatchesPossible | sudoku.py:468-478 | for a digit, is_valid holds iff the digit is among get_possible_moves |

## Left out

- All pygame rendering and event handling inside the solvers (`screen.fill`, `draw_board`, `pygame.display.update`, `pygame.event.get` with `sys.exit`) and `time.sleep`. None of it affects a search result.
- The interactive `play` loop: button layout, mouse and keyboard edits, the timing display. This includes the editor's assignment of 0 to a cell, which the value setter would reject.
- Puzzle generation (`solve_board`, `remove_by_percentage`, `generate_board`). It depends on `random.shuffle` and `random.randint`, and the removal count is a float computation.
- Termination of the unbounded loops. `solve_bfs`, `bfs_solve`, `astar_solve`, `greedy_solve` (best-first) and `ids_solve` take a `fuel` bound on rounds. `OutOfFuel` is a verdict the source does not have.
- `heapq` and `deque` internals. The heap is a sequence with least-key extraction; the deque is a sequence. That tuple comparison never reaches the board follows from `Frontier.PopIsStrictMin`.
- Cell object identity and aliasing. Frontier states are value snapshots, not deep-copied `Cell` graphs; a copy's editable flags always equal the live board's.
- Solving a concrete puzzle is not stated as a lemma. It would need the search evaluated on a concrete board.
- Solver.SolveBfs: on Solved it does not say WHICH full board breadth-first order reaches first, only that it is a full, legal extension of the start.
- Strategies.BfsSolve: like SolveBfs, it does not identify which solution the queue order reaches.
- Strategies.BestFirst: it states soundness and no double expansion. It does not identify which full board is found. A start that can be solved may still come back Failed: this happens when the heap empties right after a full board was restored.
- Strategies.AStarSolve: keeps every guarantee of BestFirst except the log of expanded boards (no board expanded twice), which is ghost and not returned. It does not identify which full board is found. A start that can be solved may come back Failed when the heap empties right after a full board was restored.
- Strategies.GreedyBestFirst: keeps every guarantee of BestFirst except the log of expanded boards (no board expanded twice), which is ghost and not returned. It does not identify which full board is found. A start that can be solved may come back Failed when the heap empties right after a full board was restored.

Behaviours of the source worth noting:

- Construction accepts grids with extra rows or columns (only the first 9×9 entries are read). A short grid raises an index error.
- `check_move` is only ever called with a digit. With 0 the model's encoding (0 for None) would differ from the source, which never finds None equal to 0.
- The best-first heuristic reads the live board, which holds the parent, not the child.
- The best-first loops test the live board for completion before restoring the popped state.
- The box scan of `check_move` skips cells sharing the row or the column, not just the cell itself. `Board.CheckMoveIff` proves this is equivalent.
