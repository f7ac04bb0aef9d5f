/**
 * The depth-first backtracking search that Sudoku.solve, visual_solve and
 * dls_solve perform, as a function: at the first empty cell (row-major), try
 * 1..9 in ascending order, skip digits check_move rejects, and take the first
 * digit whose remaining board can be completed. Its result is the solution the
 * live board holds when those methods return True.
 */
module Backtracking {
  import opened Outcome
  import opened Board

  function Search(g: Grid): (r: Option<Grid>)
    ensures r.Some? ==> Full(r.value) && Extends(g, r.value)
    ensures r.Some? && Consistent(g) ==> Consistent(r.value)
    decreases EmptyCount(g), 10
  {
    match FirstEmpty(g)
    case AllFilled => Some(g)
    case Found(p) => TryFrom(g, p, 1)
  }

  /** The candidate loop at the empty cell p, from digit v upwards. */
  function TryFrom(g: Grid, p: Pos, v: int): (r: Option<Grid>)
    requires g[p] == 0 && 1 <= v
    ensures r.Some? ==> Full(r.value) && Extends(g, r.value)
    ensures r.Some? && Consistent(g) ==> Consistent(r.value)
    decreases EmptyCount(g), 10 - v
  {
    if v > 9 then None
    else if !CheckMove(g, p, v) then TryFrom(g, p, v + 1)
    else
      EmptyCountFill(g, p, v);
      PlaceKeepsConsistent(g, p, v);
      match Search(g[p := v])
      case Some(s) => Some(s)
      case None => TryFrom(g, p, v + 1)
  }

  /** The board can be completed by the backtracking search. */
  predicate Solvable(g: Grid) {
    Search(g).Some?
  }

  /** The candidate loop succeeds when some later legal digit leads to a solvable board. */
  lemma {:induction false} TryFromFinds(g: Grid, p: Pos, v: int, w: int)
    requires g[p] == 0 && 1 <= v <= w <= 9 && CheckMove(g, p, w) && Solvable(g[p := w])
    ensures TryFrom(g, p, v).Some?
    decreases 10 - v
  {
    if v < w && !(CheckMove(g, p, v) && Solvable(g[p := v])) {
      TryFromFinds(g, p, v + 1, w);
    }
  }

  /** When the candidate loop succeeds, it does so with the digit the solution holds at p. */
  lemma {:induction false} TryFromWitness(g: Grid, p: Pos, v: int)
    requires g[p] == 0 && 1 <= v && TryFrom(g, p, v).Some?
    ensures var s := TryFrom(g, p, v).value;
      v <= s[p] <= 9 && CheckMove(g, p, s[p]) && Search(g[p := s[p]]) == Some(s)
    decreases 10 - v
  {
    if v <= 9 {
      if CheckMove(g, p, v) && Solvable(g[p := v]) {
        var s := Search(g[p := v]).value;
        assert s[p] == v;
      } else {
        TryFromWitness(g, p, v + 1);
      }
    }
  }

  /** The child of g that the search descends into when it succeeds. */
  function SolvableChild(g: Grid): (c: Grid)
    requires Solvable(g) && FirstEmpty(g).Found?
  {
    var p := FirstEmpty(g).pos;
    TryFromWitness(g, p, 1);
    g[p := Search(g).value[p]]
  }

  /**
   * A solvable board that is not full has a solvable child: the first empty cell
   * filled with a digit check_move accepts.
   */
  lemma ChildOfSolvable(g: Grid)
    requires Solvable(g) && FirstEmpty(g).Found?
    ensures var p := FirstEmpty(g).pos; var v := SolvableChild(g)[p];
      1 <= v <= 9 && CheckMove(g, p, v) && SolvableChild(g) == g[p := v]
    ensures Solvable(SolvableChild(g))
    ensures EmptyCount(SolvableChild(g)) == EmptyCount(g) - 1
  {
    var p := FirstEmpty(g).pos;
    TryFromWitness(g, p, 1);
    EmptyCountFill(g, p, Search(g).value[p]);
  }

  /** A board with a solvable child (first empty cell, legal digit) is solvable. */
  lemma ParentOfSolvable(g: Grid, v: int)
    requires FirstEmpty(g).Found? && 1 <= v <= 9
    requires CheckMove(g, FirstEmpty(g).pos, v) && Solvable(g[FirstEmpty(g).pos := v])
    ensures Solvable(g)
  {
    TryFromFinds(g, FirstEmpty(g).pos, 1, v);
  }

  /**
   * Completeness: a consistent board that some full, consistent board extends is
   * solvable, so the search fails only when no solution exists.
   */
  lemma {:induction false} CompletionSolvable(g: Grid, s: Grid)
    requires Consistent(g) && Full(s) && Consistent(s) && Extends(g, s)
    ensures Solvable(g)
    decreases EmptyCount(g)
  {
    if FirstEmpty(g).Found? {
      var p := FirstEmpty(g).pos;
      var v := s[p];
      CheckMoveIff(g, p, v);
      PlaceKeepsConsistent(g, p, v);
      EmptyCountFill(g, p, v);
      CompletionSolvable(g[p := v], s);
      ParentOfSolvable(g, v);
    }
  }

  /**
   * Soundness and completeness together: a consistent board is solvable iff
   * some full, consistent board extends it.
   */
  lemma SolvableIffCompletion(g: Grid)
    requires Consistent(g)
    ensures Solvable(g) <==> exists s: Grid :: Full(s) && Consistent(s) && Extends(g, s)
  {
    if Solvable(g) {
      var s := Search(g).value;
      assert Full(s) && Consistent(s) && Extends(g, s);
    } else {
      forall s: Grid | Full(s) && Consistent(s) && Extends(g, s) ensures false {
        CompletionSolvable(g, s);
      }
    }
  }

  /**
   * A set of boards in which every solvable member is not full and has its
   * solvable child in the set again, holds no solvable board: children have
   * fewer empty cells, so such a chain cannot go on.
   */
  lemma {:induction false} ClosedSetUnsolvable(V: set<Grid>, t: Grid)
    requires forall u | u in V && Solvable(u) :: FirstEmpty(u).Found? && SolvableChild(u) in V
    requires t in V
    ensures !Solvable(t)
    decreases EmptyCount(t)
  {
    if Solvable(t) {
      ChildOfSolvable(t);
      ClosedSetUnsolvable(V, SolvableChild(t));
    }
  }

  /**
   * The boards one legal move away at cell p, for the digits below v in
   * ascending order: what the breadth-first solvers enqueue.
   */
  function ChildrenBelow(g: Grid, p: Pos, v: int): (cs: seq<Grid>)
    requires 1 <= v <= 10
    ensures forall i | 0 <= i < |cs| :: 1 <= cs[i][p] < v && CheckMove(g, p, cs[i][p]) && cs[i] == g[p := cs[i][p]]
    ensures forall w | 1 <= w < v && CheckMove(g, p, w) :: g[p := w] in cs
  {
    if v == 1 then []
    else ChildrenBelow(g, p, v - 1) + (if CheckMove(g, p, v - 1) then [g[p := v - 1]] else [])
  }

  /** One more digit of the candidate loop: its child is appended when check_move accepts it. */
  lemma ChildrenBelowStep(g: Grid, p: Pos, v: int)
    requires 1 <= v <= 9
    ensures ChildrenBelow(g, p, v + 1) == ChildrenBelow(g, p, v) + (if CheckMove(g, p, v) then [g[p := v]] else [])
  {
  }

  function Children(g: Grid, p: Pos): seq<Grid> {
    ChildrenBelow(g, p, 10)
  }

  /**
   * The invariant of the searches that keep a visited set: each explored
   * solvable board that is not full has its solvable child explored or open.
   */
  ghost predicate Closed(explored: set<Grid>, open: set<Grid>) {
    forall u | u in explored && Solvable(u) && FirstEmpty(u).Found? :: SolvableChild(u) in explored + open
  }

  /** Dropping an open board that was already explored keeps the invariant. */
  lemma ClosedRevisit(explored: set<Grid>, open: set<Grid>, x: Grid)
    requires Closed(explored, open + {x}) && x in explored
    ensures Closed(explored, open)
  {
  }

  /** Exploring a board and opening all its legal children keeps the invariant. */
  lemma ClosedExpand(explored: set<Grid>, open: set<Grid>, x: Grid, kids: set<Grid>)
    requires Closed(explored, open + {x})
    requires FirstEmpty(x).Found? ==>
      forall w | 1 <= w <= 9 && CheckMove(x, FirstEmpty(x).pos, w) :: x[FirstEmpty(x).pos := w] in kids
    ensures Closed(explored + {x}, open + kids)
  {
    if Solvable(x) && FirstEmpty(x).Found? {
      ChildOfSolvable(x);
    }
  }

  /** Nothing open and no full board explored: no explored board is solvable. */
  lemma ClosedExhausted(explored: set<Grid>, init: Grid)
    requires Closed(explored, {}) && init in explored
    requires forall u | u in explored :: FirstEmpty(u).Found?
    ensures !Solvable(init)
  {
    assert explored + {} == explored;
    ClosedSetUnsolvable(explored, init);
  }
}
