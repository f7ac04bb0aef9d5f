/**
 * sudoku.py: the solving strategies the game offers (visual backtracking,
 * breadth-first with a visited set, depth-limited and iterative deepening,
 * A* and greedy best-first over a heap), the completion check and the move
 * check of the board generator. Drawing, events and delays are not modelled.
 */
module Strategies {
  import opened Outcome
  import opened Board
  import opened Backtracking
  import opened Solver
  import opened Frontier

  // ---------------------------------------------------------------------------
  // visual_solve

  /**
   * visual_solve: backtracking that writes each digit before asking check_move
   * (which ignores the cell's own value) and clears it when rejected. It finds
   * exactly what solve finds.
   */
  method VisualSolve(game: Sudoku) returns (solved: bool)
    requires game.Valid()
    modifies game.cells
    ensures game.Valid()
    ensures solved == Solvable(old(game.cells[..]))
    ensures solved ==> game.cells[..] == Search(old(game.cells[..])).value
    ensures !solved ==> game.cells[..] == old(game.cells[..])
    decreases EmptyCount(game.cells[..]), 1
  {
    ghost var g: Grid := game.cells[..];
    var cell := game.GetEmptyCell();
    if cell.AllFilled? {
      return true;
    }
    var p := cell.pos;
    for val := 1 to 10
      invariant game.Valid() && game.cells[..] == g
      invariant TryFrom(g, p, val) == TryFrom(g, p, 1)
    {
      var ok := VisualTry(game, g, p, val);
      if ok {
        return true;
      }
    }
    return false;
  }

  /**
   * One round of visual_solve's candidate loop: write val, clear it again if
   * check_move rejects it, otherwise recurse and clear it if that fails.
   */
  method VisualTry(game: Sudoku, ghost g: Grid, p: Pos, val: int) returns (ok: bool)
    requires game.Valid() && game.cells[..] == g && g[p] == 0 && 1 <= val <= 9
    modifies game.cells
    ensures game.Valid()
    ensures ok == (CheckMove(g, p, val) && Solvable(g[p := val]))
    ensures ok ==> game.cells[..] == Search(g[p := val]).value
    ensures !ok ==> game.cells[..] == g
    decreases EmptyCount(g), 0
  {
    game.cells[p] := val;
    assert game.cells[..] == g[p := val];
    CheckMoveIgnoresOwnCell(g, p, val, val);
    if !CheckMove(game.cells[..], p, val) {
      game.cells[p] := 0;
      assert game.cells[..] == g;
      return false;
    }
    EmptyCountFill(g, p, val);
    ok := VisualSolve(game);
    if !ok {
      game.cells[p] := 0;
      assert game.cells[..] == g;
    }
  }

  // ---------------------------------------------------------------------------
  // bfs_solve

  /** The signatures (row tuples) of a set of boards: the visited set. */
  ghost function Signatures(boards: set<Grid>): set<seq<seq<int>>> {
    set t | t in boards :: Rows(t)
  }

  /** A board whose signature was visited is one of the boards visited. */
  lemma SignatureVisited(boards: set<Grid>, x: Grid)
    requires Rows(x) in Signatures(boards)
    ensures x in boards
  {
    var t :| t in boards && Rows(t) == Rows(x);
    RowsInjective(t, x);
  }

  /**
   * The candidate loop of bfs_solve: each digit is written on the live cell and
   * checked; a rejected one is cleared, an accepted one is enqueued as a copy of
   * the popped board and left on the live cell. Afterwards the live cell holds 9
   * if 9 was accepted and None otherwise.
   */
  method TryDigits(game: Sudoku, current: Grid, p: Pos) returns (children: seq<Grid>)
    requires game.Valid() && game.cells[..] == current && current[p] == 0
    modifies game.cells
    ensures game.Valid()
    ensures children == Children(current, p)
    ensures game.cells[..] == current[p := if CheckMove(current, p, 9) then 9 else 0]
  {
    children := [];
    assert game.editable[p];
    assert current[p := 0] == current;
    for val := 1 to 10
      invariant game.Valid()
      invariant game.cells[..] == current[p := if val == 1 || !CheckMove(current, p, val - 1) then 0 else val - 1]
      invariant children == ChildrenBelow(current, p, val)
    {
      children := TryDigit(game, current, p, val, children);
    }
  }

  /**
   * One round of the candidate loop of bfs_solve: write val, clear it again if
   * check_move rejects it, and enqueue a copy of the popped board with val if
   * it accepts it.
   */
  method TryDigit(game: Sudoku, current: Grid, p: Pos, val: int, children: seq<Grid>) returns (children': seq<Grid>)
    requires game.Valid() && game.cells[..] == current[p := game.cells[p]] && current[p] == 0 && 1 <= val <= 9
    requires game.editable[p]
    requires children == ChildrenBelow(current, p, val)
    modifies game.cells
    ensures game.Valid()
    ensures game.cells[..] == current[p := if CheckMove(current, p, val) then val else 0]
    ensures children' == ChildrenBelow(current, p, val + 1)
  {
    game.cells[p] := val;
    assert game.cells[..] == current[p := val];
    CheckMoveIgnoresOwnCell(current, p, val, val);
    ChildrenBelowStep(current, p, val);
    if !CheckMove(game.cells[..], p, val) {
      game.cells[p] := 0;
      assert game.cells[..] == current[p := 0];
      return children;
    }
    children' := children + [current[p := val]];
  }

  /** The boards held in a queue. */
  function Elements(q: seq<Grid>): set<Grid> {
    set s | s in q
  }

  /** No board occurs twice. */
  predicate Distinct(q: seq<Grid>) {
    forall i, j | 0 <= i < j < |q| :: q[i] != q[j]
  }

  /** A board whose signature is not among the visited ones was not explored. */
  lemma NotVisitedNew(explored: set<Grid>, x: Grid)
    requires Rows(x) !in Signatures(explored)
    ensures x !in explored
  {
  }

  /** log lists the explored boards in the order they were expanded, each once. */
  predicate Logged(log: seq<Grid>, explored: set<Grid>) {
    Distinct(log) && Elements(log) == explored
  }

  /** Logging a board that was not explored before keeps the log free of repeats. */
  lemma LogNew(log: seq<Grid>, explored: set<Grid>, x: Grid)
    requires Logged(log, explored) && Rows(x) !in Signatures(explored)
    ensures Logged(log + [x], explored + {x})
  {
    NotVisitedNew(explored, x);
    assert x !in log;
  }

  /** Every legal child of a reached board is reached. */
  lemma ChildrenReached(init: Grid, s: Grid)
    requires Reached(init, s) && FirstEmpty(s).Found?
    ensures forall c | c in Children(s, FirstEmpty(s).pos) :: Reached(init, c)
  {
    var p := FirstEmpty(s).pos;
    forall c | c in Children(s, p) ensures Reached(init, c) {
      var i :| 0 <= i < |Children(s, p)| && Children(s, p)[i] == c;
      ChildReached(init, s, c[p]);
    }
  }

  /** All legal children of x at its first empty cell are among xs. */
  lemma ChildrenOpen(x: Grid, p: Pos, xs: seq<Grid>)
    requires FirstEmpty(x) == Found(p) && xs == Children(x, p)
    ensures forall w | 1 <= w <= 9 && CheckMove(x, FirstEmpty(x).pos, w) :: x[FirstEmpty(x).pos := w] in Elements(xs)
  {
  }

  /**
   * The bookkeeping of bfs_solve: every queued board is reached, the visited
   * signatures are those of the explored boards, which the log lists once each,
   * the initial board is explored or queued, and the exploration is closed.
   */
  ghost predicate QueueHolds(init: Grid, queue: seq<Grid>, visited: set<seq<seq<int>>>, explored: set<Grid>, log: seq<Grid>) {
    && (forall s | s in queue :: Reached(init, s))
    && visited == Signatures(explored)
    && Logged(log, explored)
    && (init in explored || init in queue)
    && (forall u | u in explored :: FirstEmpty(u).Found?)
    && Closed(explored, Elements(queue))
  }

  /** Dequeuing a board whose signature was visited keeps the bookkeeping. */
  lemma DequeueRevisit(init: Grid, queue: seq<Grid>, visited: set<seq<seq<int>>>, explored: set<Grid>, log: seq<Grid>)
    requires QueueHolds(init, queue, visited, explored, log)
    requires queue != [] && Rows(queue[0]) in visited
    ensures QueueHolds(init, queue[1..], visited, explored, log)
  {
    var current := queue[0];
    assert Elements(queue) == Elements(queue[1..]) + {current} by {
      assert queue == [current] + queue[1..];
    }
    SignatureVisited(explored, current);
    ClosedRevisit(explored, Elements(queue[1..]), current);
  }

  /** Dequeuing a new board that is not full and enqueuing its legal children keeps the bookkeeping. */
  lemma DequeueExpand(init: Grid, queue: seq<Grid>, visited: set<seq<seq<int>>>, explored: set<Grid>, log: seq<Grid>)
    requires QueueHolds(init, queue, visited, explored, log)
    requires queue != [] && Rows(queue[0]) !in visited && FirstEmpty(queue[0]).Found?
    ensures var x := queue[0];
      QueueHolds(init, queue[1..] + Children(x, FirstEmpty(x).pos), visited + {Rows(x)}, explored + {x}, log + [x])
  {
    var current := queue[0];
    var rest := queue[1..];
    var p := FirstEmpty(current).pos;
    var children := Children(current, p);
    assert current in queue;
    assert Elements(queue) == Elements(rest) + {current} by {
      assert queue == [current] + rest;
    }
    ChildrenReached(init, current);
    ChildrenOpen(current, p, children);
    ClosedExpand(explored, Elements(rest), current, Elements(children));
    LogNew(log, explored, current);
    assert Elements(rest + children) == Elements(rest) + Elements(children);
  }

  /**
   * bfs_solve: a FIFO queue of board copies and a set of visited signatures. A
   * popped board already visited is skipped; otherwise it is restored on the
   * live board, True is returned when it is full, and its legal children at the
   * first empty cell are enqueued. False comes only from an empty queue, and
   * then the board could not be completed. The ghost log lists the expanded
   * boards: none is expanded twice. At most fuel boards are popped.
   */
  method BfsSolve(game: Sudoku, fuel: nat) returns (v: Verdict, ghost expanded: seq<Grid>)
    requires game.Valid()
    modifies game.cells
    ensures game.Valid()
    ensures Extends(old(game.cells[..]), game.cells[..])
    ensures Distinct(expanded) && |expanded| <= fuel
    ensures forall i | 0 <= i < 81 && !game.editable[i] :: game.cells[i] == old(game.cells[i])
    ensures v == Solved ==> Full(game.cells[..]) && Extends(old(game.cells[..]), game.cells[..])
    ensures v == Solved ==> Solvable(old(game.cells[..]))
    ensures v == Solved && Consistent(old(game.cells[..])) ==> Consistent(game.cells[..])
    ensures v == Failed ==> !Solvable(old(game.cells[..]))
  {
    ghost var init: Grid := game.cells[..];
    var queue: seq<Grid> := [game.cells[..]];
    var visited: set<seq<seq<int>>> := {};
    ghost var explored: set<Grid> := {};
    expanded := [];
    var steps := 0;
    while queue != [] && steps < fuel
      invariant game.Valid() && Extends(init, game.cells[..])
      invariant forall i | 0 <= i < 81 :: !game.editable[i] ==> init[i] != 0
      invariant QueueHolds(init, queue, visited, explored, expanded)
      invariant |expanded| <= steps <= fuel
      decreases fuel - steps
    {
      steps := steps + 1;
      var current := queue[0];
      assert current in queue && Reached(init, current);
      var sig := Rows(current);
      if sig in visited {
        DequeueRevisit(init, queue, visited, explored, expanded);
        queue := queue[1..];
        continue;
      }
      game.Restore(current);
      var cell := game.GetEmptyCell();
      if cell.AllFilled? {
        FullSolvable(current);
        return Solved, expanded;
      }
      DequeueExpand(init, queue, visited, explored, expanded);
      visited := visited + {sig};
      expanded := expanded + [current];
      explored := explored + {current};
      var children := TryDigits(game, current, cell.pos);
      queue := queue[1..] + children;
    }
    if queue == [] {
      ClosedExhausted(explored, init);
      return Failed, expanded;
    }
    return OutOfFuel, expanded;
  }

  // ---------------------------------------------------------------------------
  // dls_solve and ids_solve

  /**
   * Whether a depth-limited search started at depth can still fill g: every
   * completion takes exactly EmptyCount(g) moves, and a board that is not full
   * is cut off below the limit.
   */
  predicate WithinLimit(g: Grid, limit: int, depth: int) {
    EmptyCount(g) == 0 || depth + EmptyCount(g) <= limit + 1
  }

  /**
   * dls_solve: backtracking that gives up on a board that is not full once depth
   * exceeds limit. It succeeds exactly when the board can be completed within
   * the limit, with solve's solution; otherwise it undoes every move.
   */
  method DlsSolve(game: Sudoku, limit: int, depth: int) returns (solved: bool)
    requires game.Valid()
    modifies game.cells
    ensures game.Valid()
    ensures solved == (Solvable(old(game.cells[..])) && WithinLimit(old(game.cells[..]), limit, depth))
    ensures solved ==> game.cells[..] == Search(old(game.cells[..])).value
    ensures !solved ==> game.cells[..] == old(game.cells[..])
    decreases EmptyCount(game.cells[..])
  {
    ghost var g: Grid := game.cells[..];
    FullIffNoEmpty(g);
    var cell := game.GetEmptyCell();
    if cell.AllFilled? {
      FullSolvable(g);
      return true;
    }
    if depth > limit {
      return false;
    }
    var p := cell.pos;
    for val := 1 to 10
      invariant game.Valid() && game.cells[..] == g
      invariant WithinLimit(g, limit, depth) ==> TryFrom(g, p, val) == TryFrom(g, p, 1)
    {
      if !CheckMove(game.cells[..], p, val) {
        continue;
      }
      game.cells[p] := val;
      assert game.cells[..] == g[p := val];
      EmptyCountFill(g, p, val);
      var ok := DlsSolve(game, limit, depth + 1);
      if ok {
        return true;
      }
      game.cells[p] := 0;
      assert game.cells[..] == g;
    }
    return false;
  }

  /**
   * ids_solve: depth-limited searches with limits 0, 1, 2, ... until one
   * succeeds. It never answers False: on a board that cannot be completed the
   * source loops forever, which the model shows as running out of fuel (the
   * number of limits tried). A completable board is solved exactly when the
   * fuel covers its number of empty cells, with solve's solution.
   */
  method IdsSolve(game: Sudoku, fuel: nat) returns (v: Verdict)
    requires game.Valid()
    modifies game.cells
    ensures game.Valid()
    ensures v != Failed
    ensures v == Solved <==> Solvable(old(game.cells[..])) && 1 <= fuel && EmptyCount(old(game.cells[..])) <= fuel
    ensures v == Solved ==> game.cells[..] == Search(old(game.cells[..])).value
    ensures v != Solved ==> game.cells[..] == old(game.cells[..])
  {
    ghost var g: Grid := game.cells[..];
    var depth := 0;
    while depth < fuel
      invariant 0 <= depth <= fuel
      invariant game.Valid() && game.cells[..] == g
      invariant depth > 0 ==> !(Solvable(g) && EmptyCount(g) <= depth)
    {
      var result := DlsSolve(game, depth, 0);
      if result {
        return Solved;
      }
      depth := depth + 1;
    }
    return OutOfFuel;
  }

  // ---------------------------------------------------------------------------
  // astar_solve and greedy_solve (best-first)

  /** heuristic(board): the possible-move counts, read on the live board, over board's empty cells. */
  function Heuristic(live: Grid, board: Grid): nat {
    HeuristicFrom(live, board, 0)
  }

  /** The heuristic's sum over the cells k..80. */
  function HeuristicFrom(live: Grid, board: Grid, k: nat): nat
    requires k <= 81
    decreases 81 - k
  {
    if k == 81 then 0
    else (if board[k] == 0 then |Possible(live, k)| else 0) + HeuristicFrom(live, board, k + 1)
  }

  /**
   * The heuristic over the cells k..80 is 0 when they are all filled, and at most
   * nine moves per cell (get_possible_moves never returns more than nine digits).
   */
  lemma {:induction false} HeuristicBounds(live: Grid, board: Grid, k: nat)
    requires k <= 81
    ensures (forall i | k <= i < 81 :: board[i] != 0) ==> HeuristicFrom(live, board, k) == 0
    ensures HeuristicFrom(live, board, k) <= 9 * (81 - k)
    decreases 81 - k
  {
    if k < 81 {
      HeuristicBounds(live, board, k + 1);
    }
  }

  lemma {:induction false} HeuristicFromFill(live: Grid, board: Grid, p: Pos, v: int, k: nat)
    requires k <= 81 && board[p] == 0 && 1 <= v <= 9
    ensures HeuristicFrom(live, board[p := v], k) + (if k <= p then |Possible(live, p)| else 0)
            == HeuristicFrom(live, board, k)
    decreases 81 - k
  {
    if k < 81 {
      HeuristicFromFill(live, board, p, v, k + 1);
    }
  }

  /**
   * A child's score is its parent's score minus the moves of the filled cell,
   * since the heuristic reads the parent (the live board) for every cell: all
   * children of one board score the same and leave the heap in push order.
   */
  lemma ChildHeuristic(parent: Grid, p: Pos, v: int)
    requires parent[p] == 0 && 1 <= v <= 9
    ensures Heuristic(parent, parent[p := v]) == Heuristic(parent, parent) - |Possible(parent, p)|
  {
    HeuristicFromFill(parent, parent, p, v, 0);
  }

  /** Which solver: A* orders by (g + h, g, tick), greedy by (h, tick). */
  datatype Ranking = AStar | Greedy

  function Key(ranking: Ranking, h: int, depth: int, tick: int): (key: seq<int>)
    ensures |key| > 0 && key[|key| - 1] == tick
  {
    match ranking
    case AStar => [depth + h, depth, tick]
    case Greedy => [h, tick]
  }

  /** A* pops the least f = g + h first, among equal f the least g, and among those the earliest pushed. */
  lemma AStarOrder(h1: int, d1: int, t1: int, h2: int, d2: int, t2: int)
    ensures KeyLess(Key(AStar, h1, d1, t1), Key(AStar, h2, d2, t2)) <==>
      d1 + h1 < d2 + h2 || (d1 + h1 == d2 + h2 && (d1 < d2 || (d1 == d2 && t1 < t2)))
  {
    var a, b := Key(AStar, h1, d1, t1), Key(AStar, h2, d2, t2);
    assert a[1..] == [d1, t1] && b[1..] == [d2, t2];
    assert KeyLess([t1], [t2]) <==> t1 < t2 by {
      assert [t1][1..] == [] && [t2][1..] == [];
    }
    assert KeyLess([d1, t1], [d2, t2]) <==> d1 < d2 || (d1 == d2 && t1 < t2) by {
      assert [d1, t1][1..] == [t1] && [d2, t2][1..] == [t2];
    }
  }

  /** Greedy pops the least h first, and among equal h the earliest pushed. */
  lemma GreedyOrder(h1: int, t1: int, h2: int, t2: int)
    ensures KeyLess(Key(Greedy, h1, 0, t1), Key(Greedy, h2, 0, t2)) <==> h1 < h2 || (h1 == h2 && t1 < t2)
  {
    var a, b := Key(Greedy, h1, 0, t1), Key(Greedy, h2, 0, t2);
    assert a[1..] == [t1] && b[1..] == [t2];
    assert KeyLess([t1], [t2]) <==> t1 < t2 by {
      assert [t1][1..] == [] && [t2][1..] == [];
    }
  }

  /** The entry pushed for move v of cell p of parent: one move deeper, scored on the parent. */
  function ChildEntry(ranking: Ranking, parent: Grid, p: Pos, v: int, depth: nat, tick: int): Entry
    requires 1 <= v <= 9
  {
    var child := parent[p := v];
    Entry(Key(ranking, Heuristic(parent, child), depth + 1, tick), depth + 1, child)
  }

  /** The entries pushed for the moves of cell p of parent, ticks counting up from tick. */
  function ChildEntries(ranking: Ranking, parent: Grid, p: Pos, moves: seq<int>, depth: nat, tick: int): (es: seq<Entry>)
    requires forall i | 0 <= i < |moves| :: 1 <= moves[i] <= 9
    ensures |es| == |moves| && forall i | 0 <= i < |es| :: es[i].state == parent[p := moves[i]]
    ensures forall i | 0 <= i < |es| :: es[i].depth == depth + 1 && |es[i].key| > 0 && es[i].key[|es[i].key| - 1] == tick + i
  {
    seq(|moves|, i requires 0 <= i < |moves| => ChildEntry(ranking, parent, p, moves[i], depth, tick + i))
  }

  /** Pushing the entry for one more move extends the entries by that entry. */
  lemma ChildEntriesSnoc(ranking: Ranking, parent: Grid, p: Pos, moves: seq<int>, i: nat, depth: nat, tick: int)
    requires i < |moves| && forall j | 0 <= j < |moves| :: 1 <= moves[j] <= 9
    ensures ChildEntries(ranking, parent, p, moves[..i + 1], depth, tick)
         == ChildEntries(ranking, parent, p, moves[..i], depth, tick) + [ChildEntry(ranking, parent, p, moves[i], depth, tick + i)]
  {
  }

  /** The pushing loop of both best-first solvers: one entry per possible move, in order. */
  method PushChildren(ranking: Ranking, pq: seq<Entry>, parent: Grid, p: Pos, moves: seq<int>, depth: nat, tick: int)
    returns (next: seq<Entry>, tick': int)
    requires forall i | 0 <= i < |moves| :: 1 <= moves[i] <= 9
    ensures next == pq + ChildEntries(ranking, parent, p, moves, depth, tick)
    ensures tick' == tick + |moves|
  {
    next, tick' := pq, tick;
    for i := 0 to |moves|
      invariant tick' == tick + i
      invariant next == pq + ChildEntries(ranking, parent, p, moves[..i], depth, tick)
    {
      ChildEntriesSnoc(ranking, parent, p, moves, i, depth, tick);
      next := next + [ChildEntry(ranking, parent, p, moves[i], depth, tick')];
      tick' := tick' + 1;
    }
    assert moves[..|moves|] == moves;
  }

  /**
   * Entries holding one board per possible move of cell p hold exactly the
   * boards with a legal digit written at p.
   */
  lemma ChildEntriesOpen(x: Grid, p: Pos, moves: seq<int>, es: seq<Entry>)
    requires x[p] == 0 && moves == Possible(x, p)
    requires |es| == |moves| && forall i | 0 <= i < |es| :: 1 <= moves[i] <= 9 && es[i].state == x[p := moves[i]]
    ensures forall w | 1 <= w <= 9 && CheckMove(x, p, w) :: x[p := w] in States(es)
    ensures forall s | s in States(es) :: exists w | 1 <= w <= 9 :: CheckMove(x, p, w) && s == x[p := w]
  {
    forall w | 1 <= w <= 9 && CheckMove(x, p, w) ensures x[p := w] in States(es) {
      PossibleIffCheckMove(x, p, w);
      var i :| 0 <= i < |moves| && moves[i] == w;
      assert es[i].state == x[p := w];
    }
    forall s | s in States(es) ensures exists w | 1 <= w <= 9 :: CheckMove(x, p, w) && s == x[p := w] {
      var i :| 0 <= i < |es| && es[i].state == s;
      PossibleIffCheckMove(x, p, moves[i]);
    }
  }

  /** Entries whose boards are legal children of a reached board are reached. */
  lemma PossibleKidsReached(init: Grid, x: Grid, es: seq<Entry>)
    requires Reached(init, x) && FirstEmpty(x).Found?
    requires forall s | s in States(es) ::
      exists w | 1 <= w <= 9 :: CheckMove(x, FirstEmpty(x).pos, w) && s == x[FirstEmpty(x).pos := w]
    ensures forall i | 0 <= i < |es| :: Reached(init, es[i].state)
  {
    forall i | 0 <= i < |es| ensures Reached(init, es[i].state) {
      assert es[i].state in States(es);
      var w :| 1 <= w <= 9 && CheckMove(x, FirstEmpty(x).pos, w) && es[i].state == x[FirstEmpty(x).pos := w];
      ChildReached(init, x, w);
    }
  }

  /**
   * What one expansion pushes: nothing for a full board, otherwise one entry per
   * possible move of its first empty cell.
   */
  function Pushed(ranking: Ranking, current: Grid, depth: nat, tick: int): (es: seq<Entry>)
    ensures Full(current) ==> es == []
    ensures forall i | 0 <= i < |es| :: es[i].depth == depth + 1 && es[i].key != [] && Tick(es[i]) == tick + i
  {
    match FirstEmpty(current)
    case AllFilled => []
    case Found(p) =>
      PossibleDigits(current, p);
      ChildEntries(ranking, current, p, Possible(current, p), depth, tick)
  }

  /**
   * The expansion step of the best-first loop: restore the popped board on the
   * live board, find its first empty cell and push its possible moves.
   */
  method Expand(ranking: Ranking, game: Sudoku, pq: seq<Entry>, current: Grid, depth: nat, tick: int)
    returns (next: seq<Entry>, tick': int)
    requires game.Valid() && forall i | 0 <= i < 81 :: !game.editable[i] ==> current[i] != 0
    modifies game.cells
    ensures game.Valid() && game.cells[..] == current
    ensures next == pq + Pushed(ranking, current, depth, tick)
    ensures tick' == tick + |Pushed(ranking, current, depth, tick)|
  {
    game.Restore(current);
    var first := FirstEmpty(current);
    if first.AllFilled? {
      return pq, tick;
    }
    var p := first.pos;
    var moves := game.GetPossibleMoves(p);
    PossibleDigits(current, p);
    next, tick' := PushChildren(ranking, pq, current, p, moves, depth, tick);
  }

  /** An expansion keeps every open board reached and the exploration invariant. */
  lemma ExpandKeeps(ranking: Ranking, init: Grid, explored: set<Grid>, pq: seq<Entry>, current: Grid, depth: nat, tick: int)
    requires Reached(init, current)
    requires forall s | s in States(pq) :: Reached(init, s)
    requires Closed(explored, States(pq) + {current})
    ensures var next := pq + Pushed(ranking, current, depth, tick);
      (forall s | s in States(next) :: Reached(init, s)) &&
      Closed(explored + {current}, States(next)) && States(pq) <= States(next)
  {
    var kids := Pushed(ranking, current, depth, tick);
    StatesAppend(pq, kids);
    match FirstEmpty(current)
    case AllFilled =>
      ClosedExpand(explored, States(pq), current, {});
    case Found(p) =>
      PossibleDigits(current, p);
      ChildEntriesOpen(current, p, Possible(current, p), kids);
      ClosedExpand(explored, States(pq), current, States(kids));
      PossibleKidsReached(init, current, kids);
      forall s | s in States(kids) ensures Reached(init, s) {
        var i :| 0 <= i < |kids| && kids[i].state == s;
      }
  }

  /** The signature set grows by the signature of the board explored. */
  lemma SignaturesAdd(boards: set<Grid>, x: Grid)
    ensures Signatures(boards + {x}) == Signatures(boards) + {Rows(x)}
  {
  }

  /**
   * The bookkeeping of the best-first loop: every board in the heap is reached,
   * the visited signatures are those of the explored boards, the initial board
   * is explored or waiting, and the exploration is closed.
   */
  ghost predicate FrontierHolds(init: Grid, pq: seq<Entry>, visited: set<seq<seq<int>>>, explored: set<Grid>, log: seq<Grid>) {
    && (forall s | s in States(pq) :: Reached(init, s))
    && visited == Signatures(explored)
    && Logged(log, explored)
    && (init in explored || init in States(pq))
    && Closed(explored, States(pq))
  }

  /** Popping a board already visited keeps the bookkeeping. */
  lemma PopRevisit(init: Grid, pq: seq<Entry>, i: nat, visited: set<seq<seq<int>>>, explored: set<Grid>, log: seq<Grid>)
    requires FrontierHolds(init, pq, visited, explored, log)
    requires i < |pq| && Rows(pq[i].state) in visited
    ensures FrontierHolds(init, Remove(pq, i), visited, explored, log)
  {
    var rest := Remove(pq, i);
    SignatureVisited(explored, pq[i].state);
    ClosedRevisit(explored, States(rest), pq[i].state);
  }

  /** Popping a new board and pushing its expansion keeps the bookkeeping. */
  lemma PopExpand(ranking: Ranking, init: Grid, pq: seq<Entry>, i: nat, visited: set<seq<seq<int>>>, explored: set<Grid>,
                  log: seq<Grid>, tick: int)
    requires FrontierHolds(init, pq, visited, explored, log)
    requires i < |pq| && Rows(pq[i].state) !in visited
    ensures var current := pq[i].state;
      FrontierHolds(init, Remove(pq, i) + Pushed(ranking, current, pq[i].depth, tick),
        visited + {Rows(current)}, explored + {current}, log + [current])
  {
    LogNew(log, explored, pq[i].state);
    var rest := Remove(pq, i);
    var current := pq[i].state;
    assert current in States(pq);
    ExpandKeeps(ranking, init, explored, rest, current, pq[i].depth, tick);
    SignaturesAdd(explored, current);
  }

  /**
   * What the best-first loop knows of the live board: it is reached, and unless
   * it is full, every explored board had an empty cell.
   */
  ghost predicate LiveHolds(init: Grid, live: Grid, explored: set<Grid>) {
    Reached(init, live) && (Full(live) || forall u | u in explored :: FirstEmpty(u).Found?)
  }

  /** Restoring a reached board after the live board was found not full keeps LiveHolds. */
  lemma LiveRestore(init: Grid, live: Grid, current: Grid, explored: set<Grid>)
    requires LiveHolds(init, live, explored) && !Full(live) && Reached(init, current)
    ensures LiveHolds(init, current, explored + {current})
  {
  }

  /**
   * The best-first loop of astar_solve and greedy_solve. Each round pops the
   * least entry and first tests the LIVE board, which still holds the board
   * restored in an earlier round, for an empty cell: a full live board ends the
   * search with True. A popped board already visited is skipped; otherwise it is
   * restored on the live board and, if it has an empty cell, one entry per
   * possible move of its first empty cell is pushed. Because success is seen one
   * round late, an empty heap answers False either when the board cannot be
   * completed or when the full board was the last one popped (then the live
   * board holds it). At most fuel entries are popped. The counter keeps the
   * keys of the heap pairwise distinct (TicksBelow), so each pop takes the
   * unique least entry and never compares board copies.
   */
  method BestFirst(ranking: Ranking, game: Sudoku, fuel: nat) returns (v: Verdict, ghost expanded: seq<Grid>)
    requires game.Valid()
    modifies game.cells
    ensures game.Valid()
    ensures Distinct(expanded) && |expanded| <= fuel
    ensures forall i | 0 <= i < 81 && !game.editable[i] :: game.cells[i] == old(game.cells[i])
    ensures Extends(old(game.cells[..]), game.cells[..])
    ensures v == Solved ==> Full(game.cells[..]) && Solvable(old(game.cells[..]))
    ensures v == Solved && Consistent(old(game.cells[..])) ==> Consistent(game.cells[..])
    ensures v == Failed ==> !Solvable(old(game.cells[..])) || Full(game.cells[..])
  {
    ghost var init: Grid := game.cells[..];
    var tick := 0;
    var start := game.cells[..];
    var pq := [Entry(Key(ranking, Heuristic(start, start), 0, tick), 0, start)];
    tick := tick + 1;
    var visited: set<seq<seq<int>>> := {};
    ghost var explored: set<Grid> := {};
    expanded := [];
    var steps := 0;
    assert States(pq) == {init} by {
      assert pq[0].state == init;
    }
    while pq != [] && steps < fuel
      invariant game.Valid() && LiveHolds(init, game.cells[..], explored)
      invariant forall i | 0 <= i < 81 :: !game.editable[i] ==> init[i] != 0
      invariant FrontierHolds(init, pq, visited, explored, expanded)
      invariant |expanded| <= steps <= fuel
      invariant TicksBelow(pq, tick)
      decreases fuel - steps
    {
      steps := steps + 1;
      var i := MinIndex(pq);
      var entry := pq[i];
      PopIsStrictMin(pq, tick);
      TicksRemove(pq, i, tick);
      var current := entry.state;
      assert current in States(pq);
      var cell := game.GetEmptyCell();
      if cell.AllFilled? {
        FullSolvable(game.cells[..]);
        return Solved, expanded;
      }
      var sig := Rows(current);
      if sig in visited {
        PopRevisit(init, pq, i, visited, explored, expanded);
        pq := Remove(pq, i);
        continue;
      }
      PopExpand(ranking, init, pq, i, visited, explored, expanded, tick);
      LiveRestore(init, game.cells[..], current, explored);
      expanded := expanded + [current];
      visited := visited + {sig};
      explored := explored + {current};
      TicksPush(Remove(pq, i), Pushed(ranking, current, entry.depth, tick), tick);
      pq, tick := Expand(ranking, game, Remove(pq, i), current, entry.depth, tick);
    }
    if pq == [] && !Full(game.cells[..]) {
      assert States(pq) == {};
      ClosedExhausted(explored, init);
    }
    if pq == [] {
      return Failed, expanded;
    }
    return OutOfFuel, expanded;
  }

  /** astar_solve: best-first on (g + h, g, tick). */
  method AStarSolve(game: Sudoku, fuel: nat) returns (v: Verdict)
    requires game.Valid()
    modifies game.cells
    ensures game.Valid()
    ensures Extends(old(game.cells[..]), game.cells[..])
    ensures v == Solved ==> Full(game.cells[..]) && Solvable(old(game.cells[..]))
    ensures v == Failed ==> !Solvable(old(game.cells[..])) || Full(game.cells[..])
    ensures v == Solved && Consistent(old(game.cells[..])) ==> Consistent(game.cells[..])
  {
    ghost var expanded;
    v, expanded := BestFirst(AStar, game, fuel);
  }

  /** greedy_solve of sudoku.py: best-first on (h, tick). */
  method GreedyBestFirst(game: Sudoku, fuel: nat) returns (v: Verdict)
    requires game.Valid()
    modifies game.cells
    ensures game.Valid()
    ensures Extends(old(game.cells[..]), game.cells[..])
    ensures v == Solved ==> Full(game.cells[..]) && Solvable(old(game.cells[..]))
    ensures v == Failed ==> !Solvable(old(game.cells[..])) || Full(game.cells[..])
    ensures v == Solved && Consistent(old(game.cells[..])) ==> Consistent(game.cells[..])
  {
    ghost var expanded;
    v, expanded := BestFirst(Greedy, game, fuel);
  }

  // ---------------------------------------------------------------------------
  // check_sudoku

  /** The three kinds of unit check_sudoku keeps a set per. */
  datatype Unit = RowUnit | ColUnit | BoxUnit

  function UnitIndex(u: Unit, q: Pos): int {
    match u
    case RowUnit => Row(q)
    case ColUnit => Col(q)
    case BoxUnit => Box(q)
  }

  /** The values of the cells before k that lie in unit i of kind u: what its set holds. */
  function SeenIn(g: Grid, k: nat, u: Unit, i: int): set<int> {
    set q: Pos | q < k && UnitIndex(u, q) == i :: g[q]
  }

  /** No two peers among the cells before k share a value. */
  predicate RepeatFreeBefore(g: Grid, k: nat) {
    forall p: Pos, q: Pos | p < k && q < k :: Peer(p, q) ==> g[p] != g[q]
  }

  lemma SeenStep(g: Grid, k: Pos, u: Unit, i: int)
    ensures SeenIn(g, k + 1, u, i) == SeenIn(g, k, u, i) + (if UnitIndex(u, k) == i then {g[k]} else {})
  {
    var after, before := SeenIn(g, k + 1, u, i), SeenIn(g, k, u, i);
    forall x | x in after ensures x in before || (UnitIndex(u, k) == i && x == g[k]) {
      var q: Pos :| q < k + 1 && UnitIndex(u, q) == i && g[q] == x;
      if q < k {
        assert x in before;
      }
    }
  }

  /** A value seen in the unit of cell k is a repeat with a peer of k. */
  lemma SeenRepeat(g: Grid, k: Pos, u: Unit)
    requires g[k] in SeenIn(g, k, u, UnitIndex(u, k))
    ensures !NoRepeats(g)
  {
    var q: Pos :| q < k && UnitIndex(u, q) == UnitIndex(u, k) && g[q] == g[k];
    assert Peer(k, q);
  }

  /** A value in none of the three sets of cell k extends the repeat-free prefix. */
  lemma UnseenExtends(g: Grid, k: Pos)
    requires RepeatFreeBefore(g, k)
    requires g[k] !in SeenIn(g, k, RowUnit, Row(k)) && g[k] !in SeenIn(g, k, ColUnit, Col(k))
    requires g[k] !in SeenIn(g, k, BoxUnit, Box(k))
    ensures RepeatFreeBefore(g, k + 1)
  {
    forall q: Pos | q < k && Peer(k, q) ensures g[k] != g[q] {
      if Row(q) == Row(k) {
        assert g[q] in SeenIn(g, k, RowUnit, Row(k));
      } else if Col(q) == Col(k) {
        assert g[q] in SeenIn(g, k, ColUnit, Col(k));
      } else {
        assert g[q] in SeenIn(g, k, BoxUnit, Box(k));
      }
    }
  }

  /** The three lists of sets hold what check_sudoku has added after the cells before k. */
  predicate SetsHold(g: Grid, k: nat, rowSets: seq<set<int>>, colSets: seq<set<int>>, boxSets: seq<set<int>>) {
    && |rowSets| == 9 && |colSets| == 9 && |boxSets| == 9
    && (forall i | 0 <= i < 9 :: rowSets[i] == SeenIn(g, k, RowUnit, i))
    && (forall i | 0 <= i < 9 :: colSets[i] == SeenIn(g, k, ColUnit, i))
    && (forall i | 0 <= i < 9 :: boxSets[i] == SeenIn(g, k, BoxUnit, i))
  }

  /** Adding the value of cell k to its three sets accounts for cell k. */
  lemma SetsAdvance(g: Grid, k: Pos, rowSets: seq<set<int>>, colSets: seq<set<int>>, boxSets: seq<set<int>>)
    requires SetsHold(g, k, rowSets, colSets, boxSets)
    ensures SetsHold(g, k + 1,
      rowSets[Row(k) := rowSets[Row(k)] + {g[k]}],
      colSets[Col(k) := colSets[Col(k)] + {g[k]}],
      boxSets[Box(k) := boxSets[Box(k)] + {g[k]}])
  {
    forall i | 0 <= i < 9 ensures SeenIn(g, k + 1, RowUnit, i) == SeenIn(g, k, RowUnit, i) + (if Row(k) == i then {g[k]} else {}) {
      SeenStep(g, k, RowUnit, i);
    }
    forall i | 0 <= i < 9 ensures SeenIn(g, k + 1, ColUnit, i) == SeenIn(g, k, ColUnit, i) + (if Col(k) == i then {g[k]} else {}) {
      SeenStep(g, k, ColUnit, i);
    }
    forall i | 0 <= i < 9 ensures SeenIn(g, k + 1, BoxUnit, i) == SeenIn(g, k, BoxUnit, i) + (if Box(k) == i then {g[k]} else {}) {
      SeenStep(g, k, BoxUnit, i);
    }
  }

  /** Before the first cell nothing has been seen. */
  lemma SetsStart(g: Grid)
    ensures SetsHold(g, 0, seq(9, _ => {}), seq(9, _ => {}), seq(9, _ => {}))
  {
  }

  /** A board whose every cell is repeat-free against the cells before it has no repeats. */
  lemma RepeatFreeAll(g: Grid)
    requires RepeatFreeBefore(g, 81)
    ensures NoRepeats(g)
  {
  }

  /**
   * One row of the scan of check_sudoku: each cell's value is looked up in the
   * sets of its row, column and box and then added to them. The answer is false
   * at the first value found; this is then a repeat of the board.
   */
  method CheckRow(game: Sudoku, ghost g: Grid, row: int, rowSets: seq<set<int>>, colSets: seq<set<int>>, boxSets: seq<set<int>>)
    returns (ok: bool, rowSets': seq<set<int>>, colSets': seq<set<int>>, boxSets': seq<set<int>>)
    requires game.Valid() && game.cells[..] == g && 0 <= row < 9
    requires SetsHold(g, 9 * row, rowSets, colSets, boxSets) && RepeatFreeBefore(g, 9 * row)
    ensures !ok ==> !NoRepeats(g)
    ensures ok ==> SetsHold(g, 9 * row + 9, rowSets', colSets', boxSets') && RepeatFreeBefore(g, 9 * row + 9)
  {
    rowSets', colSets', boxSets' := rowSets, colSets, boxSets;
    for col := 0 to 9
      invariant SetsHold(g, 9 * row + col, rowSets', colSets', boxSets')
      invariant RepeatFreeBefore(g, 9 * row + col)
    {
      CoordsPos(row, col);
      var k := 9 * row + col;
      var box := row / 3 * 3 + col / 3;
      assert box == Box(k);
      var value := game.cells[k];
      if value in rowSets'[row] || value in colSets'[col] || value in boxSets'[box] {
        if value in rowSets'[row] {
          SeenRepeat(g, k, RowUnit);
        } else if value in colSets'[col] {
          SeenRepeat(g, k, ColUnit);
        } else {
          SeenRepeat(g, k, BoxUnit);
        }
        return false, rowSets', colSets', boxSets';
      }
      UnseenExtends(g, k);
      SetsAdvance(g, k, rowSets', colSets', boxSets');
      rowSets' := rowSets'[row := rowSets'[row] + {value}];
      colSets' := colSets'[col := colSets'[col] + {value}];
      boxSets' := boxSets'[box := boxSets'[box] + {value}];
    }
    ok := true;
  }

  /**
   * check_sudoku: ValueError on a board with an empty cell; otherwise True
   * exactly when no row, column or box holds a value twice.
   */
  method CheckSudoku(game: Sudoku) returns (r: Result<bool>)
    requires game.Valid()
    ensures r.Err? <==> !Full(game.cells[..])
    ensures r.Err? ==> r.error == Incomplete
    ensures r.Ok? ==> (r.value <==> NoRepeats(game.cells[..]))
  {
    ghost var g: Grid := game.cells[..];
    var cell := game.GetEmptyCell();
    if cell.Found? {
      return Err(Incomplete);
    }
    var rowSets: seq<set<int>> := seq(9, _ => {});
    var colSets: seq<set<int>> := seq(9, _ => {});
    var boxSets: seq<set<int>> := seq(9, _ => {});
    SetsStart(g);
    for row := 0 to 9
      invariant SetsHold(g, 9 * row, rowSets, colSets, boxSets)
      invariant RepeatFreeBefore(g, 9 * row)
    {
      var ok;
      ok, rowSets, colSets, boxSets := CheckRow(game, g, row, rowSets, colSets, boxSets);
      if !ok {
        return Ok(false);
      }
    }
    RepeatFreeAll(g);
    return Ok(true);
  }

  // ---------------------------------------------------------------------------
  // is_valid (the board generator's move check)

  /** is_valid: num appears nowhere in the row, the column or the box of (row, col), that cell included. */
  predicate IsValid(board: seq<seq<int>>, row: int, col: int, num: int)
    requires |board| == 9 && forall i | 0 <= i < 9 :: |board[i]| == 9
    requires 0 <= row < 9 && 0 <= col < 9
  {
    (forall i | 0 <= i < 9 :: !(board[row][i] == num || board[i][col] == num)) &&
    (forall r, c | row / 3 * 3 <= r < row / 3 * 3 + 3 && col / 3 * 3 <= c < col / 3 * 3 + 3 :: board[r][c] != num)
  }

  /** A board of 9 rows of 9 entries holding the values of g. */
  predicate Shows(b: seq<seq<int>>, g: Grid) {
    |b| == 9 && forall r | 0 <= r < 9 :: |b[r]| == 9 && forall c | 0 <= c < 9 :: b[r][c] == At(g, r, c)
  }

  /** is_valid is check_move plus the cell's own value. */
  lemma IsValidMatchesCheckMove(g: Grid, p: Pos, num: int)
    ensures IsValid(Rows(g), Row(p), Col(p), num) <==> g[p] != num && CheckMove(g, p, num)
  {
    PosCoords(p);
    CheckMoveIff(g, p, num);
    var b := Rows(g);
    assert Shows(b, g);
    if IsValid(b, Row(p), Col(p), num) {
      forall q: Pos | SameUnit(p, q) ensures g[q] != num {
        IsValidExcludes(b, g, p, q, num);
      }
    } else {
      var q := IsValidWitness(b, g, p, num);
    }
  }

  /** What is_valid rules out: num in any cell of the row, column or box. */
  lemma IsValidExcludes(b: seq<seq<int>>, g: Grid, p: Pos, q: Pos, num: int)
    requires Shows(b, g) && SameUnit(p, q)
    ensures IsValid(b, Row(p), Col(p), num) ==> g[q] != num
  {
    PosCoords(p);
    PosCoords(q);
    var r, c := Row(p), Col(p);
    if Row(q) == r {
      assert g[q] == b[r][Col(q)];
    } else if Col(q) == c {
      assert g[q] == b[Row(q)][c];
    } else {
      BoxOfSame(r, c, Row(q), Col(q));
      assert g[q] == b[Row(q)][Col(q)];
    }
  }

  /** A failing is_valid points at a cell of the unit that holds num. */
  lemma IsValidWitness(b: seq<seq<int>>, g: Grid, p: Pos, num: int) returns (q: Pos)
    requires Shows(b, g) && !IsValid(b, Row(p), Col(p), num)
    ensures SameUnit(p, q) && g[q] == num
  {
    PosCoords(p);
    var r, c := Row(p), Col(p);
    if i :| 0 <= i < 9 && b[r][i] == num {
      q := LineWitness(b, g, p, r, i, num);
    } else if i :| 0 <= i < 9 && b[i][c] == num {
      q := LineWitness(b, g, p, i, c, num);
    } else {
      var r', c' :| r / 3 * 3 <= r' < r / 3 * 3 + 3 && c / 3 * 3 <= c' < c / 3 * 3 + 3 && b[r'][c'] == num;
      q := BoxWitness(b, g, p, r', c', num);
    }
  }

  /** A cell of p's row or column holding num. */
  lemma LineWitness(b: seq<seq<int>>, g: Grid, p: Pos, r: int, c: int, num: int) returns (q: Pos)
    requires Shows(b, g) && 0 <= r < 9 && 0 <= c < 9 && (r == Row(p) || c == Col(p)) && b[r][c] == num
    ensures SameUnit(p, q) && g[q] == num
  {
    CoordsPos(r, c);
    q := 9 * r + c;
  }

  /** A cell of p's box holding num. */
  lemma BoxWitness(b: seq<seq<int>>, g: Grid, p: Pos, r: int, c: int, num: int) returns (q: Pos)
    requires Shows(b, g) && Row(p) / 3 * 3 <= r < Row(p) / 3 * 3 + 3 && Col(p) / 3 * 3 <= c < Col(p) / 3 * 3 + 3
    requires b[r][c] == num
    ensures SameUnit(p, q) && g[q] == num
  {
    PosCoords(p);
    CoordsPos(r, c);
    BoxOfSame(Row(p), Col(p), r, c);
    q := 9 * r + c;
  }

  /** For a digit, is_valid holds exactly when the digit is among get_possible_moves. */
  lemma IsValidMatchesPossible(g: Grid, p: Pos, num: int)
    requires 1 <= num <= 9
    ensures IsValid(Rows(g), Row(p), Col(p), num) <==> num in Possible(g, p)
  {
    IsValidMatchesCheckMove(g, p, num);
    PossibleSpec(g, p);
    CheckMoveIff(g, p, num);
  }
}
