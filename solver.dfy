/**
 * solver.py: the Sudoku board object (construction, the recursive solver, the
 * snapshot/restore of test_solve, reset and get_possible_moves), and the two
 * module-level solvers solve_bfs and the most-constrained-cell greedy fill.
 */
module Solver {
  import opened Outcome
  import opened Board
  import opened Cells
  import opened Backtracking

  /** How a cell value is stored on the board: None as 0. */
  function Encode(v: Option<int>): int {
    if v.None? then 0 else v.value
  }

  // ---------------------------------------------------------------------------
  // Sudoku.__init__

  /**
   * The Cell that Sudoku(board) creates for position k: board[row][col] raises
   * IndexError when the grid has no such entry; 0 gives an empty editable cell,
   * anything else a fixed cell holding that number (the value setter rejects
   * numbers outside 1..9).
   */
  function CellAt(grid: seq<seq<int>>, k: Pos): Result<Cell> {
    var r, c := Row(k), Col(k);
    if r >= |grid| || c >= |grid[r]| then Err(IndexOutOfRange)
    else if grid[r][c] == 0 then NewCell(r, c, None, true)
    else NewCell(r, c, Some(grid[r][c]), false)
  }

  /**
   * The cells created for positions 0..k-1 in row-major order, or the error
   * raised at the first position that fails.
   */
  function BuildCells(grid: seq<seq<int>>, k: nat): (r: Result<seq<Cell>>)
    requires k <= 81
    ensures r.Ok? <==> forall j: Pos | j < k :: CellAt(grid, j).Ok?
    ensures r.Ok? ==> |r.value| == k && forall j: Pos | j < k :: r.value[j] == CellAt(grid, j).value
    ensures r.Err? ==> exists j: Pos | j < k ::
      CellAt(grid, j).Err? && r.error == CellAt(grid, j).error && forall i: Pos | i < j :: CellAt(grid, i).Ok?
  {
    if k == 0 then Ok([])
    else match BuildCells(grid, k - 1)
      case Err(e) => Err(e)
      case Ok(cs) =>
        match CellAt(grid, k - 1)
        case Err(e) => Err(e)
        case Ok(c) => Ok(cs + [c])
  }

  /** The grid has the 9 rows of 9 entries the constructor reads (extra ones are ignored). */
  predicate Shaped(grid: seq<seq<int>>) {
    |grid| >= 9 && forall r | 0 <= r < 9 :: |grid[r]| >= 9
  }

  /** Every entry the constructor reads is 0 (empty) or a digit. */
  predicate EntriesInRange(grid: seq<seq<int>>)
    requires Shaped(grid)
  {
    forall r, c | 0 <= r < 9 && 0 <= c < 9 :: 0 <= grid[r][c] <= 9
  }

  /**
   * Construction succeeds exactly on a grid with 9 rows of 9 entries in 0..9,
   * whatever the fixed values are (duplicates are not cross-checked); 0 becomes
   * an empty editable cell and a digit a fixed cell holding it. On a grid of the
   * right shape the only failure is a value outside 1..9.
   */
  lemma BuildCellsSpec(grid: seq<seq<int>>)
    ensures BuildCells(grid, 81).Ok? <==> Shaped(grid) && EntriesInRange(grid)
    ensures Shaped(grid) && BuildCells(grid, 81).Err? ==> BuildCells(grid, 81).error == ValueOutOfRange
    ensures BuildCells(grid, 81).Ok? ==> forall k: Pos ::
      var cell := BuildCells(grid, 81).value[k];
      var x := grid[Row(k)][Col(k)];
      cell.row == Row(k) && cell.col == Col(k) && WellFormed(cell) &&
      (x == 0 ==> cell.value == None && cell.editable) &&
      (x != 0 ==> cell.value == Some(x) && !cell.editable)
  {
    if Shaped(grid) && EntriesInRange(grid) {
      forall k: Pos ensures CellAt(grid, k).Ok? {
        PosCoords(k);
      }
    }
    if BuildCells(grid, 81).Ok? {
      forall r | 0 <= r < 9 ensures r < |grid| && |grid[r]| >= 9 {
        CoordsPos(r, 8);
        assert CellAt(grid, 9 * r + 8).Ok?;
      }
      forall r, c | 0 <= r < 9 && 0 <= c < 9 ensures 0 <= grid[r][c] <= 9 {
        CoordsPos(r, c);
        assert CellAt(grid, 9 * r + c).Ok?;
      }
      forall k: Pos ensures CellAt(grid, k).Ok? {
        PosCoords(k);
      }
    } else if Shaped(grid) && !EntriesInRange(grid) {
      var j: Pos :| CellAt(grid, j).Err? && BuildCells(grid, 81).error == CellAt(grid, j).error;
      PosCoords(j);
    }
  }

  /** Once a position fails, construction reports that position's error. */
  lemma {:induction false} BuildCellsStops(grid: seq<seq<int>>, k: nat, m: nat)
    requires k < m <= 81 && BuildCells(grid, k).Ok? && CellAt(grid, k).Err?
    ensures BuildCells(grid, m) == Err(CellAt(grid, k).error)
  {
    if m > k + 1 {
      BuildCellsStops(grid, k, m - 1);
    }
  }

  // ---------------------------------------------------------------------------
  // The board object

  class Sudoku {
    /** The 81 cell values in row-major order, 0 for None. */
    const cells: array<int>
    /** Each cell's editable flag, fixed at construction. */
    const editable: seq<bool>

    ghost predicate Valid()
      reads cells
    {
      cells.Length == 81 && |editable| == 81 &&
      (forall i | 0 <= i < 81 :: 0 <= cells[i] <= 9) &&
      (forall i | 0 <= i < 81 :: !editable[i] ==> cells[i] != 0)
    }

    /** The board object built from the constructor's 81 cells. */
    constructor FromCells(cs: seq<Cell>)
      requires |cs| == 81
      requires forall k | 0 <= k < 81 :: WellFormed(cs[k]) && (!cs[k].editable ==> cs[k].value.Some?)
      ensures Valid() && fresh(cells)
      ensures forall k | 0 <= k < 81 :: cells[k] == Encode(cs[k].value) && editable[k] == cs[k].editable
    {
      editable := seq(81, k requires 0 <= k < 81 => cs[k].editable);
      cells := new int[81](k requires 0 <= k < 81 => Encode(cs[k].value));
    }

    /** get_board: the 9 rows of values. */
    function GetBoard(): seq<seq<int>>
      reads cells
      requires Valid()
    {
      Rows(cells[..])
    }

    /** Overwrite all 81 values from a snapshot, row by row (the restore loops of the solvers). */
    method Restore(state: Grid)
      requires Valid()
      requires forall i | 0 <= i < 81 :: !editable[i] ==> state[i] != 0
      modifies cells
      ensures Valid() && cells[..] == state
    {
      for row := 0 to 9
        invariant forall i | 0 <= i < 81 :: cells[i] == (if i < 9 * row then state[i] else old(cells[i]))
      {
        for col := 0 to 9
          invariant forall i | 0 <= i < 81 :: cells[i] == (if i < 9 * row + col then state[i] else old(cells[i]))
        {
          cells[9 * row + col] := state[9 * row + col];
        }
      }
    }

    /** The cells get_possible_moves visits: its row, then its column, then its box. */
    static function ScanPos(p: Pos, k: int): (q: Pos)
      requires 0 <= k < 27
      ensures SameUnit(p, q)
    {
      var r, c := Row(p), Col(p);
      PosCoords(p);
      if k < 9 then
        CoordsPos(r, k); 9 * r + k
      else if k < 18 then
        CoordsPos(k - 9, c); 9 * (k - 9) + c
      else
        var r', c' := r / 3 * 3 + (k - 18) / 3, c / 3 * 3 + (k - 18) % 3;
        CoordsPos(r', c');
        BoxOfSame(r, c, r', c');
        9 * r' + c'
    }

    /** The values of the first k cells visited. */
    static function Scanned(g: Grid, p: Pos, k: int): set<int>
      requires 0 <= k <= 27
    {
      if k == 0 then {} else Scanned(g, p, k - 1) + {g[ScanPos(p, k - 1)]}
    }

    /** The value of a visited cell is among the values scanned. */
    static lemma {:induction false} ScannedHas(g: Grid, p: Pos, k: int, j: int)
      requires 0 <= j < k <= 27
      ensures g[ScanPos(p, j)] in Scanned(g, p, k)
    {
      if j < k - 1 {
        ScannedHas(g, p, k - 1, j);
      }
    }

    /** Every scanned value comes from a visited cell. */
    static lemma {:induction false} ScannedFrom(g: Grid, p: Pos, k: int, v: int) returns (j: int)
      requires 0 <= k <= 27 && v in Scanned(g, p, k)
      ensures 0 <= j < k && g[ScanPos(p, j)] == v
    {
      if v == g[ScanPos(p, k - 1)] {
        j := k - 1;
      } else {
        j := ScannedFrom(g, p, k - 1, v);
      }
    }

    /** The move list after the first k removals of get_possible_moves. */
    static function Remaining(g: Grid, p: Pos, k: int): seq<int>
      requires 0 <= k <= 27
    {
      if k == 0 then [1, 2, 3, 4, 5, 6, 7, 8, 9]
      else
        var m, x := Remaining(g, p, k - 1), g[ScanPos(p, k - 1)];
        if x in m then RemoveFirst(m, x) else m
    }

    static lemma {:induction false} RemainingIsWithout(g: Grid, p: Pos, k: int)
      requires 0 <= k <= 27
      ensures Remaining(g, p, k) == Without(Digits(), Scanned(g, p, k))
    {
      if k == 0 {
        WithoutNothing(Digits());
      } else {
        RemainingIsWithout(g, p, k - 1);
        DigitsAscending();
        RemoveFromWithout(Digits(), Scanned(g, p, k - 1), g[ScanPos(p, k - 1)]);
      }
    }

    /** The in-place removals leave exactly the possible moves, in ascending order. */
    static lemma RemainingIsPossible(g: Grid, p: Pos)
      ensures Remaining(g, p, 27) == Possible(g, p)
    {
      RemainingIsWithout(g, p, 27);
      ScanCoversUnit(g, p);
    }

    /** Every cell of the row, column or box is visited. */
    static lemma ScanReaches(p: Pos, q: Pos) returns (j: int)
      requires SameUnit(p, q)
      ensures 0 <= j < 27 && ScanPos(p, j) == q
    {
      PosCoords(p);
      PosCoords(q);
      var r, c, r', c' := Row(p), Col(p), Row(q), Col(q);
      if r' == r {
        j := c';
      } else if c' == c {
        j := 9 + r';
      } else {
        BoxOfSame(r, c, r', c');
        var dr, dc := r' - r / 3 * 3, c' - c / 3 * 3;
        assert 0 <= dr < 3 && 0 <= dc < 3;
        j := 18 + 3 * dr + dc;
        assert (j - 18) / 3 == dr && (j - 18) % 3 == dc;
      }
    }

    /** The 27 visited cells are exactly the cells of the row, column and box. */
    static lemma ScanCoversUnit(g: Grid, p: Pos)
      ensures Scanned(g, p, 27) == UnitValues(g, p)
    {
      forall v | v in UnitValues(g, p) ensures v in Scanned(g, p, 27) {
        var q :| 0 <= q < 81 && SameUnit(p, q) && g[q] == v;
        var j := ScanReaches(p, q);
        ScannedHas(g, p, 27, j);
      }
      forall v | v in Scanned(g, p, 27) ensures v in UnitValues(g, p) {
        var j := ScannedFrom(g, p, 27, v);
        var q := ScanPos(p, j);
        assert 0 <= q < 81 && SameUnit(p, q);
      }
    }

    /**
     * get_possible_moves: start from [1..9] and remove, in place, every value met
     * in the cell's row, column and box.
     */
    method GetPossibleMoves(p: Pos) returns (moves: seq<int>)
      requires Valid()
      ensures moves == Possible(cells[..], p)
    {
      ghost var g: Grid := cells[..];
      moves := [1, 2, 3, 4, 5, 6, 7, 8, 9];
      moves := StrikeRow(g, p, moves);
      moves := StrikeCol(g, p, moves);
      moves := StrikeBox(g, p, moves);
      RemainingIsPossible(g, p);
    }

    /** The row loop of get_possible_moves. */
    method StrikeRow(ghost g: Grid, p: Pos, moves: seq<int>) returns (moves': seq<int>)
      requires Valid() && cells[..] == g && moves == Remaining(g, p, 0)
      ensures moves' == Remaining(g, p, 9)
    {
      var r := p / 9;
      moves' := moves;
      for col := 0 to 9
        invariant moves' == Remaining(g, p, col)
      {
        ScanRow(p, col);
        var x := cells[9 * r + col];
        if x in moves' {
          moves' := RemoveFirst(moves', x);
        }
      }
    }

    /** The column loop of get_possible_moves. */
    method StrikeCol(ghost g: Grid, p: Pos, moves: seq<int>) returns (moves': seq<int>)
      requires Valid() && cells[..] == g && moves == Remaining(g, p, 9)
      ensures moves' == Remaining(g, p, 18)
    {
      var c := p % 9;
      moves' := moves;
      for row := 0 to 9
        invariant moves' == Remaining(g, p, 9 + row)
      {
        ScanCol(p, row);
        var x := cells[9 * row + c];
        if x in moves' {
          moves' := RemoveFirst(moves', x);
        }
      }
    }

    /** The box loops of get_possible_moves. */
    method StrikeBox(ghost g: Grid, p: Pos, moves: seq<int>) returns (moves': seq<int>)
      requires Valid() && cells[..] == g && moves == Remaining(g, p, 18)
      ensures moves' == Remaining(g, p, 27)
    {
      var br, bc := p / 9 / 3 * 3, p % 9 / 3 * 3;
      BoxCorner(p, br, bc);
      moves' := moves;
      for row := br to br + 3
        invariant moves' == Remaining(g, p, 18 + 3 * (row - br))
      {
        for col := bc to bc + 3
          invariant moves' == Remaining(g, p, 18 + 3 * (row - br) + (col - bc))
        {
          ghost var k := 18 + 3 * (row - br) + (col - bc);
          ScanBox(p, br, bc, row, col);
          var x := cells[9 * row + col];
          assert x == g[ScanPos(p, k)];
          if x in moves' {
            moves' := RemoveFirst(moves', x);
          }
        }
      }
    }

    static lemma ScanRow(p: Pos, col: int)
      requires 0 <= col < 9
      ensures 0 <= 9 * (p / 9) + col < 81 && ScanPos(p, col) == 9 * (p / 9) + col
    {
      PosCoords(p);
    }

    static lemma ScanCol(p: Pos, row: int)
      requires 0 <= row < 9
      ensures 0 <= 9 * row + p % 9 < 81 && ScanPos(p, 9 + row) == 9 * row + p % 9
    {
      PosCoords(p);
    }

    /** The corner of p's box lies within the board. */
    static lemma BoxCorner(p: Pos, br: int, bc: int)
      requires br == p / 9 / 3 * 3 && bc == p % 9 / 3 * 3
      ensures 0 <= br <= 6 && 0 <= bc <= 6 && br == Row(p) / 3 * 3 && bc == Col(p) / 3 * 3
    {
      PosCoords(p);
    }

    /** Cell (row, col) of p's box is the cell the scan visits at step 18 + 3 * (row - br) + (col - bc). */
    static lemma ScanBox(p: Pos, br: int, bc: int, row: int, col: int)
      requires br == Row(p) / 3 * 3 && bc == Col(p) / 3 * 3
      requires br <= row < br + 3 && bc <= col < bc + 3
      ensures 0 <= 9 * row + col < 81 && ScanPos(p, 18 + 3 * (row - br) + (col - bc)) == 9 * row + col
    {
      PosCoords(p);
      var k := 18 + 3 * (row - br) + (col - bc);
      assert (k - 18) / 3 == row - br && (k - 18) % 3 == col - bc;
    }

    /** get_empty_cell: the first cell holding None in row-major order, or False (AllFilled). */
    method GetEmptyCell() returns (cell: Lookup)
      requires Valid()
      ensures cell == FirstEmpty(cells[..])
    {
      for row := 0 to 9
        invariant forall j | 0 <= j < 9 * row :: cells[j] != 0
      {
        for col := 0 to 9
          invariant forall j | 0 <= j < 9 * row + col :: cells[j] != 0
        {
          if cells[9 * row + col] == 0 {
            FirstEmptyUnique(cells[..], 9 * row + col);
            return Found(9 * row + col);
          }
        }
      }
      FirstEmptyUnique(cells[..], 81);
      return AllFilled;
    }

    /**
     * solve: recursive backtracking at the first empty cell, digits 1..9 in
     * ascending order. On True the board holds the search's solution; on False
     * every assignment has been undone. Fixed cells are never written.
     */
    method Solve() returns (solved: bool)
      requires Valid()
      modifies cells
      ensures Valid()
      ensures solved == Solvable(old(cells[..]))
      ensures solved ==> cells[..] == Search(old(cells[..])).value
      ensures !solved ==> cells[..] == old(cells[..])
      ensures forall i | 0 <= i < 81 && !editable[i] :: cells[i] == old(cells[i])
      decreases EmptyCount(cells[..]), 1
    {
      ghost var g: Grid := cells[..];
      var cell := GetEmptyCell();
      if cell.AllFilled? {
        return true;
      }
      var p := cell.pos;
      for val := 1 to 10
        invariant Valid() && cells[..] == g
        invariant TryFrom(g, p, val) == TryFrom(g, p, 1)
      {
        if !CheckMove(cells[..], p, val) {
          continue;
        }
        var ok := SolveWith(g, p, val);
        if ok {
          return true;
        }
      }
      return false;
    }

    /** One accepted candidate of solve: write val, recurse, and clear the cell if that fails. */
    method SolveWith(ghost g: Grid, p: Pos, val: int) returns (ok: bool)
      requires Valid() && cells[..] == g && g[p] == 0 && 1 <= val <= 9 && CheckMove(g, p, val)
      modifies cells
      ensures Valid()
      ensures ok == Solvable(g[p := val])
      ensures ok ==> cells[..] == Search(g[p := val]).value
      ensures !ok ==> cells[..] == g
      decreases EmptyCount(g), 0
    {
      cells[p] := val;
      assert cells[..] == g[p := val];
      EmptyCountFill(g, p, val);
      ok := Solve();
      if !ok {
        cells[p] := 0;
        assert cells[..] == g;
      }
    }

    /** test_solve: run solve on the board, then put every value back; report solve's answer. */
    method TestSolve() returns (solvable: bool)
      requires Valid()
      modifies cells
      ensures Valid()
      ensures solvable == Solvable(old(cells[..]))
      ensures cells[..] == old(cells[..])
    {
      ghost var g: Grid := cells[..];
      var current := GetBoard();
      solvable := Solve();
      SetValues(g, current);
    }

    /** The copy-back loop of test_solve: every cell gets the value saved in board, row by row. */
    method SetValues(ghost state: Grid, board: seq<seq<int>>)
      requires Valid() && board == Rows(state)
      requires forall i | 0 <= i < 81 :: !editable[i] ==> state[i] != 0
      modifies cells
      ensures Valid() && cells[..] == state
    {
      for row := 0 to 9
        invariant forall i | 0 <= i < 81 :: cells[i] == (if i < 9 * row then state[i] else old(cells[i]))
      {
        for col := 0 to 9
          invariant forall i | 0 <= i < 81 :: cells[i] == (if i < 9 * row + col then state[i] else old(cells[i]))
        {
          cells[9 * row + col] := board[row][col];
        }
      }
    }

    /** reset: clear every editable cell, leave the fixed cells alone. */
    method Reset()
      requires Valid()
      modifies cells
      ensures Valid()
      ensures cells[..] == ResetGrid(old(cells[..]), editable)
    {
      ghost var g: Grid := cells[..];
      for row := 0 to 9
        invariant forall i | 0 <= i < 81 :: cells[i] == (if i < 9 * row then ResetGrid(g, editable)[i] else g[i])
      {
        for col := 0 to 9
          invariant forall i | 0 <= i < 81 ::
            cells[i] == (if i < 9 * row + col then ResetGrid(g, editable)[i] else g[i])
        {
          if editable[9 * row + col] {
            cells[9 * row + col] := 0;
          }
        }
      }
    }
  }

  /**
   * Sudoku(board): validate and create the 81 cells row by row; the first
   * failing entry raises and no board is produced.
   */
  method NewSudoku(grid: seq<seq<int>>) returns (r: Result<Sudoku>)
    ensures r.Err? <==> BuildCells(grid, 81).Err?
    ensures r.Err? ==> r.error == BuildCells(grid, 81).error
    ensures r.Ok? ==> fresh(r.value.cells) && r.value.Valid()
    ensures r.Ok? ==> forall k | 0 <= k < 81 ::
      r.value.cells[k] == Encode(BuildCells(grid, 81).value[k].value) &&
      r.value.editable[k] == BuildCells(grid, 81).value[k].editable
  {
    var cs: seq<Cell> := [];
    for row := 0 to 9
      invariant BuildCells(grid, 9 * row) == Ok(cs)
    {
      for col := 0 to 9
        invariant BuildCells(grid, 9 * row + col) == Ok(cs)
      {
        CoordsPos(row, col);
        var k := 9 * row + col;
        var cell := CellAt(grid, k);
        if cell.Err? {
          BuildCellsStops(grid, k, 81);
          return Err(cell.error);
        }
        cs := cs + [cell.value];
      }
    }
    forall k | 0 <= k < 81 ensures WellFormed(cs[k]) && (!cs[k].editable ==> cs[k].value.Some?) {
      PosCoords(k);
    }
    var s := new Sudoku.FromCells(cs);
    return Ok(s);
  }

  // ---------------------------------------------------------------------------
  // solve_bfs

  /** A state the breadth-first and best-first searches may hold: derived from init by legal moves. */
  ghost predicate Reached(init: Grid, s: Grid) {
    Extends(init, s) && (Consistent(init) ==> Consistent(s)) && (Solvable(s) ==> Solvable(init))
  }

  /** One legal child of a reached state, at its first empty cell, is reached again. */
  lemma ChildReached(init: Grid, s: Grid, v: int)
    requires Reached(init, s) && FirstEmpty(s).Found? && 1 <= v <= 9 && CheckMove(s, FirstEmpty(s).pos, v)
    ensures Reached(init, s[FirstEmpty(s).pos := v])
  {
    var p := FirstEmpty(s).pos;
    PlaceKeepsConsistent(s, p, v);
    if Solvable(s[p := v]) {
      ParentOfSolvable(s, v);
    }
  }

  /**
   * solve_bfs: a FIFO queue of board copies, no visited set. Each popped state is
   * restored onto the live board; a full one ends the search with True;
   * otherwise one copy per digit check_move accepts at the first empty cell is
   * enqueued. False comes only from an empty queue, and then the board could not
   * be completed. At most fuel states are popped.
   */
  method SolveBfs(game: Sudoku, fuel: nat) returns (v: Verdict)
    requires game.Valid()
    modifies game.cells
    ensures game.Valid()
    ensures Extends(old(game.cells[..]), game.cells[..])
    ensures forall i | 0 <= i < 81 && !game.editable[i] :: game.cells[i] == old(game.cells[i])
    ensures v == Solved ==> Full(game.cells[..]) && Extends(old(game.cells[..]), game.cells[..])
    ensures v == Solved ==> Solvable(old(game.cells[..]))
    ensures v == Solved && Consistent(old(game.cells[..])) ==> Consistent(game.cells[..])
    ensures v == Failed ==> !Solvable(old(game.cells[..]))
  {
    ghost var init: Grid := game.cells[..];
    var queue: seq<Grid> := [game.cells[..]];
    var steps := 0;
    while queue != [] && steps < fuel
      invariant game.Valid() && Extends(init, game.cells[..])
      invariant forall i | 0 <= i < 81 :: !game.editable[i] ==> init[i] != 0
      invariant forall s | s in queue :: Reached(init, s)
      invariant Solvable(init) ==> exists s | s in queue :: Solvable(s)
      decreases fuel - steps
    {
      steps := steps + 1;
      var current := queue[0];
      ghost var before := queue;
      assert current in before && Reached(init, current);
      queue := queue[1..];
      game.Restore(current);
      var cell := game.GetEmptyCell();
      if cell.AllFilled? {
        FullSolvable(current);
        return Solved;
      }
      var children := LegalChildren(game, cell.pos);
      queue := queue + children;
      BfsStep(init, before);
    }
    if queue == [] {
      return Failed;
    }
    return OutOfFuel;
  }

  /** The candidate loop of solve_bfs: one copy per digit check_move accepts at p, in digit order. */
  method LegalChildren(game: Sudoku, p: Pos) returns (children: seq<Grid>)
    requires game.Valid()
    ensures children == Children(game.cells[..], p)
  {
    ghost var g: Grid := game.cells[..];
    children := [];
    for val := 1 to 10
      invariant children == ChildrenBelow(g, p, val)
    {
      if CheckMove(game.cells[..], p, val) {
        children := children + [game.cells[..][p := val]];
      }
    }
  }

  /** A full board is solved by the search as it stands. */
  lemma FullSolvable(g: Grid)
    requires Full(g)
    ensures Solvable(g) && Search(g) == Some(g)
  {
  }

  /**
   * Expanding the head of the queue keeps every state reached and keeps a
   * solvable state in the queue while the initial board is solvable.
   */
  lemma BfsStep(init: Grid, queue: seq<Grid>)
    requires queue != [] && FirstEmpty(queue[0]).Found?
    requires forall s | s in queue :: Reached(init, s)
    requires Solvable(init) ==> exists s | s in queue :: Solvable(s)
    ensures var next := queue[1..] + Children(queue[0], FirstEmpty(queue[0]).pos);
      (forall s | s in next :: Reached(init, s)) && (Solvable(init) ==> exists s | s in next :: Solvable(s))
  {
    var current, p := queue[0], FirstEmpty(queue[0]).pos;
    var kids := Children(current, p);
    var next := queue[1..] + kids;
    assert queue == [current] + queue[1..];
    forall s | s in next ensures Reached(init, s) {
      if s !in queue[1..] {
        var i :| 0 <= i < |kids| && kids[i] == s;
        ChildReached(init, current, s[p]);
      }
    }
    if Solvable(init) {
      var s :| s in queue && Solvable(s);
      if s == current {
        ChildOfSolvable(current);
        assert SolvableChild(current) in next;
      } else {
        assert s in next;
      }
    }
  }

  // ---------------------------------------------------------------------------
  // greedy_solve (most constrained cell first, no backtracking)

  /** The number of possible moves of a cell. */
  function Options(g: Grid, p: Pos): nat {
    |Possible(g, p)|
  }

  /**
   * The cell find_most_constrained_cell picks: the first empty cell with at most
   * one option if there is one, otherwise the first empty cell with the fewest
   * options.
   */
  predicate MrvPick(g: Grid, p: Pos) {
    g[p] == 0 &&
    (forall q: Pos | q < p && g[q] == 0 :: Options(g, q) >= 2 && Options(g, q) > Options(g, p)) &&
    (Options(g, p) <= 1 || forall q: Pos | p < q && g[q] == 0 :: Options(g, q) >= Options(g, p))
  }

  /** What the scan knows after visiting cells 0..k-1 without returning. */
  predicate ScanState(g: Grid, k: nat, best: Lookup, least: int) {
    k <= 81 &&
    (best.AllFilled? ==> least == 10 && forall q: Pos | q < k :: g[q] != 0) &&
    (best.Found? ==>
       best.pos < k && g[best.pos] == 0 && least == Options(g, best.pos) && least != 1 &&
       (forall q: Pos | q < k && g[q] == 0 :: Options(g, q) >= least) &&
       (forall q: Pos | q < best.pos && g[q] == 0 :: Options(g, q) >= 2 && Options(g, q) > least))
  }

  /** The scan of find_most_constrained_cell from cell k on, with the best cell so far. */
  function MrvScan(g: Grid, k: nat, best: Lookup, least: int): (r: Lookup)
    requires ScanState(g, k, best, least)
    ensures r.AllFilled? <==> best.AllFilled? && forall q: Pos | k <= q :: g[q] != 0
    ensures r.Found? ==> MrvPick(g, r.pos)
    decreases 81 - k
  {
    if k == 81 then best
    else if g[k] == 0 && Options(g, k) < least then
      if Options(g, k) == 1 then Found(k)
      else MrvScan(g, k + 1, Found(k), Options(g, k))
    else MrvScan(g, k + 1, best, least)
  }

  /** One step of the scan, as the loop of find_most_constrained_cell takes it. */
  lemma ScanAdvance(g: Grid, k: nat, best: Lookup, least: int)
    requires ScanState(g, k, best, least) && k < 81
    ensures g[k] == 0 && Options(g, k) < least && Options(g, k) != 1 ==>
      ScanState(g, k + 1, Found(k), Options(g, k)) &&
      MrvScan(g, k, best, least) == MrvScan(g, k + 1, Found(k), Options(g, k))
    ensures g[k] == 0 && Options(g, k) < least && Options(g, k) == 1 ==> MrvScan(g, k, best, least) == Found(k)
    ensures !(g[k] == 0 && Options(g, k) < least) ==>
      ScanState(g, k + 1, best, least) && MrvScan(g, k, best, least) == MrvScan(g, k + 1, best, least)
  {
  }

  /** find_most_constrained_cell: None (AllFilled) exactly when the board is full. */
  function MostConstrained(g: Grid): (r: Lookup)
    ensures r.AllFilled? <==> Full(g)
    ensures r.Found? ==> MrvPick(g, r.pos)
  {
    MrvScan(g, 0, AllFilled, 10)
  }

  /** The scan of find_most_constrained_cell has visited the cells before k and agrees with MostConstrained. */
  predicate ScanOn(g: Grid, k: nat, best: Lookup, least: int) {
    ScanState(g, k, best, least) && MrvScan(g, k, best, least) == MostConstrained(g)
  }

  /** find_most_constrained_cell: the row-major scan, returning early at a cell with one option. */
  method FindMostConstrainedCell(sudoku: Sudoku) returns (best: Lookup)
    requires sudoku.Valid()
    ensures best == MostConstrained(sudoku.cells[..])
  {
    ghost var g: Grid := sudoku.cells[..];
    best := AllFilled;
    var least := 10;
    for row := 0 to 9
      invariant ScanOn(g, 9 * row, best, least)
    {
      var stop;
      best, least, stop := ScanRowCells(sudoku, g, row, best, least);
      if stop {
        return best;
      }
    }
  }

  /** The inner loop of the scan: the nine cells of one row. */
  method ScanRowCells(sudoku: Sudoku, ghost g: Grid, row: int, best: Lookup, least: int)
    returns (best': Lookup, least': int, stop: bool)
    requires sudoku.Valid() && sudoku.cells[..] == g && 0 <= row < 9 && ScanOn(g, 9 * row, best, least)
    ensures stop ==> best' == MostConstrained(g)
    ensures !stop ==> ScanOn(g, 9 * row + 9, best', least')
  {
    best', least' := best, least;
    for col := 0 to 9
      invariant ScanOn(g, 9 * row + col, best', least')
    {
      CoordsPos(row, col);
      best', least', stop := VisitCell(sudoku, g, 9 * row + col, best', least');
      if stop {
        return;
      }
    }
    stop := false;
  }

  /**
   * One cell of the scan: an empty cell with fewer options than the best so far
   * becomes the best, and the scan stops if it has exactly one option.
   */
  method VisitCell(sudoku: Sudoku, ghost g: Grid, k: Pos, best: Lookup, least: int)
    returns (best': Lookup, least': int, stop: bool)
    requires sudoku.Valid() && sudoku.cells[..] == g && ScanState(g, k, best, least)
    ensures stop ==> best' == MrvScan(g, k, best, least)
    ensures !stop ==> ScanState(g, k + 1, best', least') && MrvScan(g, k + 1, best', least') == MrvScan(g, k, best, least)
  {
    ScanAdvance(g, k, best, least);
    best', least', stop := best, least, false;
    if sudoku.cells[k] == 0 {
      var options := sudoku.GetPossibleMoves(k);
      if |options| < least {
        least' := |options|;
        best' := Found(k);
        stop := least' == 1;
      }
    }
  }

  datatype Fill = Fill(ok: bool, board: Grid)

  /** The board after one greedy move: the picked cell gets its smallest possible move. */
  function GreedyMove(g: Grid, p: Pos): (next: Grid)
    requires g[p] == 0 && Possible(g, p) != []
    ensures Extends(g, next) && EmptyCount(next) < EmptyCount(g)
    ensures Consistent(g) ==> Consistent(next)
  {
    var v := Possible(g, p)[0];
    PossibleDigits(g, p);
    assert v in Possible(g, p);
    PossibleIffCheckMove(g, p, v);
    EmptyCountFill(g, p, v);
    PlaceKeepsConsistent(g, p, v);
    g[p := v]
  }

  lemma ExtendsTransitive(a: Grid, b: Grid, c: Grid)
    requires Extends(a, b) && Extends(b, c)
    ensures Extends(a, c)
  {
  }

  /**
   * The greedy fill as a function: repeatedly give the most constrained cell its
   * smallest possible move. It stops with True on a full board and with False
   * when the picked cell has no possible move. It never undoes a move, keeps
   * every value it started from and keeps a consistent board consistent.
   */
  function GreedyRun(g: Grid): (r: Fill)
    ensures Extends(g, r.board)
    ensures r.ok <==> Full(r.board)
    ensures !r.ok ==> MostConstrained(r.board).Found? && Possible(r.board, MostConstrained(r.board).pos) == []
    ensures Consistent(g) ==> Consistent(r.board)
    decreases EmptyCount(g)
  {
    match MostConstrained(g)
    case AllFilled => Fill(true, g)
    case Found(p) =>
      if Possible(g, p) == [] then Fill(false, g)
      else
        var next := GreedyMove(g, p);
        var r := GreedyRun(next);
        ExtendsTransitive(g, next, r.board);
        r
  }

  /** A greedy success on a consistent board is a solution, so backtracking also succeeds there. */
  lemma GreedySuccessSolvable(g: Grid)
    requires Consistent(g) && GreedyRun(g).ok
    ensures Solvable(g)
  {
    CompletionSolvable(g, GreedyRun(g).board);
  }

  /** greedy_solve: fill the most constrained cell with its first option until none is empty or it has none. */
  method GreedySolve(sudoku: Sudoku) returns (solved: bool)
    requires sudoku.Valid()
    modifies sudoku.cells
    ensures sudoku.Valid()
    ensures solved == GreedyRun(old(sudoku.cells[..])).ok
    ensures sudoku.cells[..] == GreedyRun(old(sudoku.cells[..])).board
  {
    while true
      invariant sudoku.Valid()
      invariant GreedyRun(sudoku.cells[..]) == GreedyRun(old(sudoku.cells[..]))
      decreases EmptyCount(sudoku.cells[..])
    {
      ghost var g: Grid := sudoku.cells[..];
      var cell := FindMostConstrainedCell(sudoku);
      if cell.AllFilled? {
        return true;
      }
      var options := sudoku.GetPossibleMoves(cell.pos);
      if options == [] {
        return false;
      }
      sudoku.cells[cell.pos] := options[0];
      assert sudoku.cells[..] == GreedyMove(g, cell.pos);
    }
  }
}
