/**
 * The heap of the best-first solvers in sudoku.py: heapq over tuples whose
 * leading numbers are compared first. The heap is modelled by its contents, a
 * sequence of entries, and heappop by the removal of the least entry.
 */
module Frontier {
  import opened Board

  /**
   * A pushed tuple: its leading numbers (f, g, tick) or (h, tick), the move
   * count g of the board, and the board copy itself.
   */
  datatype Entry = Entry(key: seq<int>, depth: nat, state: Grid)

  /** Python's ordering of tuples of numbers: lexicographic, a proper prefix first. */
  predicate KeyLess(a: seq<int>, b: seq<int>) {
    if a == [] then b != []
    else if b == [] then false
    else a[0] < b[0] || (a[0] == b[0] && KeyLess(a[1..], b[1..]))
  }

  lemma {:induction false} KeyLessIrreflexive(a: seq<int>)
    ensures !KeyLess(a, a)
  {
    if a != [] {
      KeyLessIrreflexive(a[1..]);
    }
  }

  lemma {:induction false} KeyLessTransitive(a: seq<int>, b: seq<int>, c: seq<int>)
    requires KeyLess(a, b) && KeyLess(b, c)
    ensures KeyLess(a, c)
  {
    if a != [] && a[0] == b[0] && b[0] == c[0] {
      KeyLessTransitive(a[1..], b[1..], c[1..]);
    }
  }

  /** Distinct keys are always ordered one way or the other. */
  lemma {:induction false} KeyLessTotal(a: seq<int>, b: seq<int>)
    requires a != b
    ensures KeyLess(a, b) || KeyLess(b, a)
  {
    if a != [] && b != [] && a[0] == b[0] {
      assert a == [a[0]] + a[1..] && b == [b[0]] + b[1..];
      KeyLessTotal(a[1..], b[1..]);
    }
  }

  /** The position of a least entry: what heappop returns. */
  function MinIndex(pq: seq<Entry>): (i: nat)
    requires pq != []
    ensures i < |pq| && forall j | 0 <= j < |pq| :: !KeyLess(pq[j].key, pq[i].key)
  {
    if |pq| == 1 then
      KeyLessIrreflexive(pq[0].key);
      0
    else
      var m := MinIndex(pq[1..]) + 1;
      assert forall j | 1 <= j < |pq| :: pq[j] == pq[1..][j - 1];
      if KeyLess(pq[m].key, pq[0].key) then
        forall j | 0 <= j < |pq| ensures !KeyLess(pq[j].key, pq[m].key) {
          if j == 0 && KeyLess(pq[0].key, pq[m].key) {
            KeyLessTransitive(pq[0].key, pq[m].key, pq[0].key);
            KeyLessIrreflexive(pq[0].key);
          }
        }
        m
      else
        forall j | 0 <= j < |pq| ensures !KeyLess(pq[j].key, pq[0].key) {
          if j == 0 {
            KeyLessIrreflexive(pq[0].key);
          } else if KeyLess(pq[j].key, pq[0].key) {
            if pq[m].key != pq[0].key {
              KeyLessTotal(pq[m].key, pq[0].key);
              KeyLessTransitive(pq[j].key, pq[0].key, pq[m].key);
            }
          }
        }
        0
  }

  /** The counter value an entry was pushed with: the last number of its key. */
  function Tick(e: Entry): int
    requires e.key != []
  {
    e.key[|e.key| - 1]
  }

  /**
   * The counter discipline of the heap: every entry was pushed with a counter
   * value below next, and no two entries carry the same one.
   */
  predicate TicksBelow(pq: seq<Entry>, next: int) {
    && (forall i | 0 <= i < |pq| :: pq[i].key != [] && Tick(pq[i]) < next)
    && (forall a, b | 0 <= a < b < |pq| :: Tick(pq[a]) != Tick(pq[b]))
  }

  /** Entry i is below every other entry of the heap. */
  predicate StrictlyLeast(pq: seq<Entry>, i: nat)
    requires i < |pq|
  {
    forall j | 0 <= j < |pq| && j != i :: KeyLess(pq[i].key, pq[j].key)
  }

  /**
   * Under the counter discipline heappop's entry is strictly below every other
   * entry, so tuple comparison never reaches the board copies and the pop is the
   * unique least entry.
   */
  lemma PopIsStrictMin(pq: seq<Entry>, next: int)
    requires pq != [] && TicksBelow(pq, next)
    ensures StrictlyLeast(pq, MinIndex(pq))
  {
    var m := MinIndex(pq);
    forall a, b | 0 <= a < b < |pq| ensures pq[a].key != pq[b].key {
      assert Tick(pq[a]) != Tick(pq[b]);
    }
    forall j | 0 <= j < |pq| && j != m ensures KeyLess(pq[m].key, pq[j].key) {
      if j < m {
        KeyLessTotal(pq[j].key, pq[m].key);
      } else {
        KeyLessTotal(pq[m].key, pq[j].key);
      }
    }
  }

  /** Popping an entry keeps the counter discipline. */
  lemma TicksRemove(pq: seq<Entry>, i: nat, next: int)
    requires i < |pq| && TicksBelow(pq, next)
    ensures TicksBelow(Remove(pq, i), next)
  {
    var r := Remove(pq, i);
    forall a, b | 0 <= a < b < |r| ensures Tick(r[a]) != Tick(r[b]) {
      var a', b' := if a < i then a else a + 1, if b < i then b else b + 1;
      assert r[a] == pq[a'] && r[b] == pq[b'] && a' < b';
    }
  }

  /**
   * Pushing entries numbered next, next + 1, ... with the counter and advancing
   * it past them keeps the counter discipline.
   */
  lemma TicksPush(pq: seq<Entry>, es: seq<Entry>, next: int)
    requires TicksBelow(pq, next)
    requires forall i | 0 <= i < |es| :: es[i].key != [] && Tick(es[i]) == next + i
    ensures TicksBelow(pq + es, next + |es|)
  {
    var r := pq + es;
    forall a, b | 0 <= a < b < |r| ensures Tick(r[a]) != Tick(r[b]) {
      if b >= |pq| {
        assert r[b] == es[b - |pq|];
        if a >= |pq| {
          assert r[a] == es[a - |pq|];
        }
      }
    }
  }

  /** The boards held in the heap. */
  function States(pq: seq<Entry>): set<Grid> {
    set i | 0 <= i < |pq| :: pq[i].state
  }

  /** The heap after popping entry i. */
  function Remove(pq: seq<Entry>, i: nat): (r: seq<Entry>)
    requires i < |pq|
    ensures |r| == |pq| - 1
    ensures States(r) + {pq[i].state} == States(pq)
    ensures forall j | 0 <= j < |r| :: r[j] == pq[if j < i then j else j + 1]
  {
    var r := pq[..i] + pq[i + 1..];
    assert forall j | 0 <= j < |r| :: r[j] == pq[if j < i then j else j + 1];
    forall s | s in States(pq) ensures s in States(r) + {pq[i].state} {
      var j :| 0 <= j < |pq| && pq[j].state == s;
      if j < i {
        assert r[j].state == s;
      } else if j > i {
        assert r[j - 1].state == s;
      }
    }
    r
  }

  lemma StatesAppend(a: seq<Entry>, b: seq<Entry>)
    ensures States(a + b) == States(a) + States(b)
  {
    forall s | s in States(a) ensures s in States(a + b) {
      var j :| 0 <= j < |a| && a[j].state == s;
      assert (a + b)[j] == a[j];
    }
    forall s | s in States(b) ensures s in States(a + b) {
      var j :| 0 <= j < |b| && b[j].state == s;
      assert (a + b)[|a| + j] == b[j];
    }
    forall s | s in States(a + b) ensures s in States(a) + States(b) {
      var j :| 0 <= j < |a + b| && (a + b)[j].state == s;
      if j < |a| {
        assert a[j].state == s;
      } else {
        assert b[j - |a|].state == s;
      }
    }
  }
}
