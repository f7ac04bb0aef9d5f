/**
 * The read-only queries of the Sudoku board (solver.py), stated over a
 * snapshot of the 81 cell values in row-major order. The value 0 stands for an
 * empty cell (None in the source); 1..9 are the digits a Cell can hold.
 */
module Board {

  predicate IsGrid(s: seq<int>) {
    |s| == 81 && forall i | 0 <= i < 81 :: 0 <= s[i] <= 9
  }

  /** A snapshot of the 81 cell values: what a deep-copied board holds. */
  type Grid = s: seq<int> | IsGrid(s) witness seq(81, _ => 0)

  /** A cell, identified by its index 9 * row + col. */
  type Pos = p: int | 0 <= p < 81

  function Row(p: Pos): int { p / 9 }
  function Col(p: Pos): int { p % 9 }
  function BoxOf(r: int, c: int): int { r / 3 * 3 + c / 3 }
  function Box(p: Pos): int { BoxOf(Row(p), Col(p)) }

  /** The value of the cell at (r, c). */
  function At(g: Grid, r: int, c: int): int
    requires 0 <= r < 9 && 0 <= c < 9
  {
    g[9 * r + c]
  }

  lemma PosCoords(p: Pos)
    ensures 0 <= Row(p) < 9 && 0 <= Col(p) < 9 && p == 9 * Row(p) + Col(p)
  {
  }

  lemma CoordsPos(r: int, c: int)
    requires 0 <= r < 9 && 0 <= c < 9
    ensures 0 <= 9 * r + c < 81 && Row(9 * r + c) == r && Col(9 * r + c) == c
  {
  }

  /** Two cells of the same 3x3 box lie in the same band of rows and of columns. */
  lemma BoxOfSame(r1: int, c1: int, r2: int, c2: int)
    requires 0 <= r1 < 9 && 0 <= c1 < 9 && 0 <= r2 < 9 && 0 <= c2 < 9
    ensures BoxOf(r1, c1) == BoxOf(r2, c2) <==> r1 / 3 == r2 / 3 && c1 / 3 == c2 / 3
  {
  }

  /** Cells that share a row, a column or a box (a cell shares all three with itself). */
  predicate SameUnit(p: Pos, q: Pos) {
    Row(p) == Row(q) || Col(p) == Col(q) || Box(p) == Box(q)
  }

  /** The other cells a value at p must differ from. */
  predicate Peer(p: Pos, q: Pos) {
    p != q && SameUnit(p, q)
  }

  // ---------------------------------------------------------------------------
  // check_move

  /**
   * check_move(cell, num), scan by scan as solver.py writes it: the row scan
   * skips the cell's own column, the column scan its own row, and the box scan
   * skips every box cell that shares the row OR the column of the cell. The
   * solvers only ask about digits 1..9. With 0 the encoding differs from the
   * source: 0 stands for None here, so empty peers would count as holding it,
   * whereas the source compares None with 0, never finds it equal, and accepts.
   */
  predicate CheckMove(g: Grid, p: Pos, num: int) {
    var r, c := Row(p), Col(p);
    (forall c' | 0 <= c' < 9 :: !(At(g, r, c') == num && c' != c)) &&
    (forall r' | 0 <= r' < 9 :: !(At(g, r', c) == num && r' != r)) &&
    (forall r', c' | r / 3 * 3 <= r' < r / 3 * 3 + 3 && c / 3 * 3 <= c' < c / 3 * 3 + 3 ::
       !(At(g, r', c') == num && r' != r && c' != c))
  }

  /** A peer holding num fails one of the three scans. */
  lemma CheckMovePeer(g: Grid, p: Pos, q: Pos, num: int)
    requires CheckMove(g, p, num) && Peer(p, q)
    ensures g[q] != num
  {
    PosCoords(p);
    PosCoords(q);
    var r, c, r', c' := Row(p), Col(p), Row(q), Col(q);
    assert At(g, r', c') == g[q];
    if r' == r {
      assert c' != c;
    } else if c' != c {
      BoxOfSame(r, c, r', c');
    }
  }

  /** A clash found by the box scan is a peer of p. */
  lemma BoxClashPeer(p: Pos, r': int, c': int)
    requires Row(p) / 3 * 3 <= r' < Row(p) / 3 * 3 + 3 && Col(p) / 3 * 3 <= c' < Col(p) / 3 * 3 + 3
    requires r' != Row(p) && c' != Col(p)
    ensures 0 <= 9 * r' + c' < 81 && Peer(p, 9 * r' + c')
  {
    PosCoords(p);
    CoordsPos(r', c');
    BoxOfSame(Row(p), Col(p), r', c');
  }

  /** A clash found by the row or the column scan is a peer of p. */
  lemma LineClashPeer(p: Pos, r': int, c': int)
    requires 0 <= r' < 9 && 0 <= c' < 9
    requires (r' == Row(p) && c' != Col(p)) || (c' == Col(p) && r' != Row(p))
    ensures 0 <= 9 * r' + c' < 81 && Peer(p, 9 * r' + c')
  {
    PosCoords(p);
    CoordsPos(r', c');
  }

  /** A failed scan names a peer holding num. */
  lemma CheckMoveFails(g: Grid, p: Pos, num: int) returns (q: Pos)
    requires !CheckMove(g, p, num)
    ensures Peer(p, q) && g[q] == num
  {
    var r, c := Row(p), Col(p);
    if !(forall c' | 0 <= c' < 9 :: !(At(g, r, c') == num && c' != c)) {
      var c' :| 0 <= c' < 9 && At(g, r, c') == num && c' != c;
      LineClashPeer(p, r, c');
      q := 9 * r + c';
    } else if !(forall r' | 0 <= r' < 9 :: !(At(g, r', c) == num && r' != r)) {
      var r' :| 0 <= r' < 9 && At(g, r', c) == num && r' != r;
      LineClashPeer(p, r', c);
      q := 9 * r' + c;
    } else {
      var r', c' :| r / 3 * 3 <= r' < r / 3 * 3 + 3 && c / 3 * 3 <= c' < c / 3 * 3 + 3
                    && At(g, r', c') == num && r' != r && c' != c;
      BoxClashPeer(p, r', c');
      q := 9 * r' + c';
    }
  }

  /**
   * The box scan's exclusion of whole rows and columns loses nothing: check_move
   * holds exactly when no OTHER cell of the row, column or box holds num.
   */
  lemma CheckMoveIff(g: Grid, p: Pos, num: int)
    ensures CheckMove(g, p, num) <==> forall q: Pos :: Peer(p, q) ==> g[q] != num
  {
    if CheckMove(g, p, num) {
      forall q: Pos | Peer(p, q) ensures g[q] != num {
        CheckMovePeer(g, p, q, num);
      }
    } else {
      var q := CheckMoveFails(g, p, num);
    }
  }

  /** check_move ignores the value the cell itself currently holds. */
  lemma CheckMoveIgnoresOwnCell(g: Grid, p: Pos, x: int, num: int)
    requires 0 <= x <= 9
    ensures CheckMove(g[p := x], p, num) == CheckMove(g, p, num)
  {
    CheckMoveIff(g, p, num);
    CheckMoveIff(g[p := x], p, num);
  }

  // ---------------------------------------------------------------------------
  // get_possible_moves

  /** The values held by the cells of p's row, column and box, p included. */
  function UnitValues(g: Grid, p: Pos): set<int> {
    set q | 0 <= q < 81 && SameUnit(p, q) :: g[q]
  }

  function Digits(): seq<int> { [1, 2, 3, 4, 5, 6, 7, 8, 9] }

  /** The elements of s that are not in drop, in their order in s. */
  function Without(s: seq<int>, drop: set<int>): (r: seq<int>)
    ensures forall x :: x in r <==> x in s && x !in drop
    ensures |r| <= |s|
  {
    if s == [] then []
    else if s[0] in drop then Without(s[1..], drop)
    else [s[0]] + Without(s[1..], drop)
  }

  /** What get_possible_moves returns: the digits absent from p's row, column and box. */
  function Possible(g: Grid, p: Pos): seq<int> {
    Without(Digits(), UnitValues(g, p))
  }

  predicate StrictlyAscending(s: seq<int>) {
    forall i, j | 0 <= i < j < |s| :: s[i] < s[j]
  }

  lemma {:induction false} WithoutKeepsOrder(s: seq<int>, drop: set<int>)
    requires StrictlyAscending(s)
    ensures StrictlyAscending(Without(s, drop))
  {
    if s != [] {
      assert StrictlyAscending(s[1..]) by {
        forall i, j | 0 <= i < j < |s[1..]| ensures s[1..][i] < s[1..][j] {
          assert s[1..][i] == s[i + 1] && s[1..][j] == s[j + 1];
        }
      }
      WithoutKeepsOrder(s[1..], drop);
      var t := Without(s[1..], drop);
      forall x | x in t ensures s[0] < x {
        var k :| 0 <= k < |s[1..]| && s[1..][k] == x;
        assert s[k + 1] == x;
      }
      if s[0] !in drop {
        var r := [s[0]] + t;
        forall i, j | 0 <= i < j < |r| ensures r[i] < r[j] {
          if i == 0 {
            assert r[j] in t;
          } else {
            assert r[i] == t[i - 1] && r[j] == t[j - 1];
          }
        }
      }
    }
  }

  /**
   * get_possible_moves(cell) is an ascending list of distinct digits: a digit is
   * in it iff no cell of the row, column or box holds it, the cell itself
   * included (so a filled cell's own value is never among its moves).
   */
  lemma PossibleSpec(g: Grid, p: Pos)
    ensures StrictlyAscending(Possible(g, p))
    ensures forall v :: v in Possible(g, p) <==>
              1 <= v <= 9 && forall q: Pos :: SameUnit(p, q) ==> g[q] != v
    ensures g[p] !in Possible(g, p)
  {
    WithoutKeepsOrder(Digits(), UnitValues(g, p));
    forall v ensures v in Possible(g, p) <==> 1 <= v <= 9 && forall q: Pos :: SameUnit(p, q) ==> g[q] != v {
      if v in UnitValues(g, p) {
        var q :| 0 <= q < 81 && SameUnit(p, q) && g[q] == v;
      }
    }
    assert g[p] in UnitValues(g, p);
  }

  /** Python's list.remove: drop the first occurrence of x, if there is one. */
  function RemoveFirst(s: seq<int>, x: int): (r: seq<int>)
    ensures x !in s ==> r == s
  {
    if s == [] then []
    else if s[0] == x then s[1..]
    else [s[0]] + RemoveFirst(s[1..], x)
  }

  lemma {:induction false} WithoutIgnoresAbsent(s: seq<int>, drop: set<int>, x: int)
    requires x !in s
    ensures Without(s, drop + {x}) == Without(s, drop)
  {
    if s != [] {
      WithoutIgnoresAbsent(s[1..], drop, x);
    }
  }

  lemma DigitsAscending()
    ensures StrictlyAscending(Digits())
  {
  }

  /** Filtering out nothing keeps the list. */
  lemma {:induction false} WithoutNothing(s: seq<int>)
    ensures Without(s, {}) == s
  {
    if s != [] {
      WithoutNothing(s[1..]);
    }
  }

  /**
   * Removing a value from the filtered digit list is the same as filtering one
   * more value out: get_possible_moves' in-place removals compute Without.
   */
  lemma {:induction false} RemoveFromWithout(s: seq<int>, drop: set<int>, x: int)
    requires StrictlyAscending(s)
    ensures RemoveFirst(Without(s, drop), x) == Without(s, drop + {x})
  {
    if s != [] {
      assert StrictlyAscending(s[1..]) by {
        forall i, j | 0 <= i < j < |s[1..]| ensures s[1..][i] < s[1..][j] {
          assert s[1..][i] == s[i + 1] && s[1..][j] == s[j + 1];
        }
      }
      if s[0] in drop {
        RemoveFromWithout(s[1..], drop, x);
      } else if s[0] == x {
        assert x !in s[1..] by {
          forall k | 0 <= k < |s[1..]| ensures s[1..][k] != x {
            assert s[1..][k] == s[k + 1];
          }
        }
        WithoutIgnoresAbsent(s[1..], drop, x);
      } else {
        RemoveFromWithout(s[1..], drop, x);
      }
    }
  }

  /** For an empty cell, the possible moves are exactly the digits check_move accepts. */
  lemma PossibleIffCheckMove(g: Grid, p: Pos, v: int)
    requires g[p] == 0
    ensures v in Possible(g, p) <==> 1 <= v <= 9 && CheckMove(g, p, v)
  {
    PossibleSpec(g, p);
    CheckMoveIff(g, p, v);
  }

  /** Every possible move is a digit. */
  lemma PossibleDigits(g: Grid, p: Pos)
    ensures forall i | 0 <= i < |Possible(g, p)| :: 1 <= Possible(g, p)[i] <= 9
  {
    PossibleSpec(g, p);
    forall i | 0 <= i < |Possible(g, p)| ensures 1 <= Possible(g, p)[i] <= 9 {
      assert Possible(g, p)[i] in Possible(g, p);
    }
  }

  /** The first possible move is the smallest digit that check_move accepts at an empty cell. */
  lemma PossibleHeadIsLeast(g: Grid, p: Pos)
    requires g[p] == 0 && Possible(g, p) != []
    ensures 1 <= Possible(g, p)[0] <= 9 && CheckMove(g, p, Possible(g, p)[0])
    ensures forall v | 1 <= v < Possible(g, p)[0] :: !CheckMove(g, p, v)
  {
    var m := Possible(g, p);
    PossibleSpec(g, p);
    PossibleIffCheckMove(g, p, m[0]);
    forall v | 1 <= v < m[0] ensures !CheckMove(g, p, v) {
      PossibleIffCheckMove(g, p, v);
    }
  }

  // ---------------------------------------------------------------------------
  // get_empty_cell

  /** What get_empty_cell returns: a cell, or (for a full board) False, modelled as AllFilled. */
  datatype Lookup = Found(pos: Pos) | AllFilled

  predicate Full(g: Grid) {
    forall i | 0 <= i < 81 :: g[i] != 0
  }

  function FirstEmptyFrom(g: Grid, k: nat): (r: Lookup)
    requires k <= 81
    ensures r.Found? ==> k <= r.pos && g[r.pos] == 0 && forall j | k <= j < r.pos :: g[j] != 0
    ensures r.AllFilled? ==> forall j | k <= j < 81 :: g[j] != 0
    decreases 81 - k
  {
    if k == 81 then AllFilled
    else if g[k] == 0 then Found(k)
    else FirstEmptyFrom(g, k + 1)
  }

  /**
   * get_empty_cell: the first empty cell in row-major order, or AllFilled
   * exactly when no cell is empty.
   */
  function FirstEmpty(g: Grid): (r: Lookup)
    ensures r.Found? ==> g[r.pos] == 0 && forall j | 0 <= j < r.pos :: g[j] != 0
    ensures r.AllFilled? <==> Full(g)
  {
    FirstEmptyFrom(g, 0)
  }

  /** FirstEmpty is determined by its contract: the first zero, or none at all. */
  lemma FirstEmptyUnique(g: Grid, k: int)
    requires 0 <= k <= 81 && forall j | 0 <= j < k :: g[j] != 0
    ensures k < 81 && g[k] == 0 ==> FirstEmpty(g) == Found(k)
    ensures k == 81 ==> FirstEmpty(g) == AllFilled
  {
  }

  /** The positions of the empty cells. */
  function EmptyCells(s: seq<int>): set<int> {
    set i | 0 <= i < |s| && s[i] == 0
  }

  /** The number of empty cells. */
  function EmptyCount(s: seq<int>): nat {
    |EmptyCells(s)|
  }

  /** Filling one empty cell with a digit lowers the number of empty cells by exactly one. */
  lemma EmptyCountFill(s: seq<int>, p: int, v: int)
    requires 0 <= p < |s| && s[p] == 0 && v != 0
    ensures EmptyCount(s[p := v]) == EmptyCount(s) - 1
  {
    assert EmptyCells(s[p := v]) == EmptyCells(s) - {p};
  }

  /** No empty cell is left exactly when the count of empty cells is zero. */
  lemma EmptyCountZero(s: seq<int>)
    ensures EmptyCount(s) == 0 <==> forall i | 0 <= i < |s| :: s[i] != 0
  {
    if exists i | 0 <= i < |s| :: s[i] == 0 {
      var i :| 0 <= i < |s| && s[i] == 0;
      assert i in EmptyCells(s);
    } else {
      assert EmptyCells(s) == {};
    }
  }

  lemma FullIffNoEmpty(g: Grid)
    ensures Full(g) <==> EmptyCount(g) == 0
  {
    EmptyCountZero(g);
  }

  // ---------------------------------------------------------------------------
  // get_board and the board signature

  /** get_board, and the signature of a state: the 9 rows of 9 values. */
  function Rows(g: Grid): (rows: seq<seq<int>>)
    ensures |rows| == 9
    ensures forall r | 0 <= r < 9 :: |rows[r]| == 9 && forall c | 0 <= c < 9 :: rows[r][c] == At(g, r, c)
  {
    seq(9, r requires 0 <= r < 9 => g[9 * r .. 9 * r + 9])
  }

  /** Two states share a signature only when they hold the same 81 values. */
  lemma RowsInjective(a: Grid, b: Grid)
    requires Rows(a) == Rows(b)
    ensures a == b
  {
    forall p: Pos ensures a[p] == b[p] {
      PosCoords(p);
      assert a[p] == Rows(a)[Row(p)][Col(p)];
    }
  }

  // ---------------------------------------------------------------------------
  // Relations between boards used by the solvers

  /** s keeps every value that g already has. */
  predicate Extends(g: Grid, s: Grid) {
    forall i | 0 <= i < 81 :: g[i] != 0 ==> s[i] == g[i]
  }

  /** No filled cell shares its value with a peer. */
  predicate Consistent(g: Grid) {
    forall p: Pos, q: Pos :: Peer(p, q) && g[p] != 0 ==> g[p] != g[q]
  }

  /** No two peers hold the same value (empty cells included): check_sudoku's verdict. */
  predicate NoRepeats(g: Grid) {
    forall p: Pos, q: Pos :: Peer(p, q) ==> g[p] != g[q]
  }

  /** On a full board the two notions agree. */
  lemma FullConsistentNoRepeats(g: Grid)
    requires Full(g)
    ensures Consistent(g) <==> NoRepeats(g)
  {
  }

  /** Placing a digit that check_move accepts at an empty cell keeps a board consistent. */
  lemma PlaceKeepsConsistent(g: Grid, p: Pos, v: int)
    requires g[p] == 0 && 1 <= v <= 9 && CheckMove(g, p, v)
    ensures Consistent(g) ==> Consistent(g[p := v])
    ensures Extends(g, g[p := v])
  {
    CheckMoveIff(g, p, v);
  }

  /** reset: every editable cell becomes empty, every other cell keeps its value. */
  function ResetGrid(g: Grid, editable: seq<bool>): (r: Grid)
    requires |editable| == 81
    ensures Extends(r, g)
    ensures forall i | 0 <= i < 81 :: r[i] == 0 <==> editable[i] || g[i] == 0
  {
    seq(81, i requires 0 <= i < 81 => if editable[i] then 0 else g[i])
  }

  /** Resetting twice is the same as resetting once. */
  lemma ResetIdempotent(g: Grid, editable: seq<bool>)
    requires |editable| == 81
    ensures ResetGrid(ResetGrid(g, editable), editable) == ResetGrid(g, editable)
  {
  }
}
