/**
 * The index discipline shared by the server-side cell store and the
 * client-side mirror: every cell of a notebook carries a position
 * `cell_index`, and the positions of an N-cell notebook are exactly
 * 0..N-1. Deleting, inserting and moving a cell are range shifts of the
 * positions of the other cells (the SQL `UPDATE ... cell_index=cell_index±1
 * WHERE ...` statements of save_notebook_modifications and the forEach loops
 * of updateNotebook).
 */
module CellIndex {

  /** The position of every cell, by cell id. */
  type Indexing = map<string, int>

  /** The positions 0..n-1. */
  function Range(n: int): (r: set<int>)
    ensures forall i :: i in r <==> 0 <= i < n
    decreases n
  {
    if n <= 0 then {} else Range(n - 1) + {n - 1}
  }

  /** The positions in use. */
  ghost function IndexSet(m: Indexing): set<int>
  {
    set k | k in m :: m[k]
  }

  /** Every position lies in 0..N-1 and no two cells share one. */
  ghost predicate Dense(m: Indexing)
  {
    && (forall k :: k in m ==> 0 <= m[k] < |m|)
    && (forall a, b :: a in m && b in m && m[a] == m[b] ==> a == b)
  }

  // ---------------------------------------------------------------------
  // Density is "the positions are exactly {0..N-1}"
  // ---------------------------------------------------------------------

  lemma {:induction false} RangeCard(n: nat)
    ensures |Range(n)| == n
  {
    if n > 0 {
      RangeCard(n - 1);
    }
  }

  /** Removing one cell removes its position from the index set, unless another cell shares it. */
  lemma IndexSetSplit(m: Indexing, k: string)
    requires k in m
    ensures IndexSet(m) == IndexSet(m - {k}) + {m[k]}
  {
    var rest := m - {k};
    forall x | x in IndexSet(m)
      ensures x in IndexSet(rest) + {m[k]}
    {
      var j :| j in m && m[j] == x;
      if j != k {
        assert j in rest;
      }
    }
    forall x | x in IndexSet(rest) + {m[k]}
      ensures x in IndexSet(m)
    {
      if x != m[k] {
        var j :| j in rest && rest[j] == x;
        assert j in m;
      }
    }
  }

  lemma NonEmptyHasKey(m: Indexing)
    requires m != map[]
    ensures exists k :: k in m
  {
  }

  /** The positions of an N-cell notebook number at most N, and exactly N when none is shared. */
  lemma {:induction false} IndexSetCard(m: Indexing)
    ensures |IndexSet(m)| <= |m|
    ensures (forall a, b :: a in m && b in m && m[a] == m[b] ==> a == b) ==> |IndexSet(m)| == |m|
    decreases |m|
  {
    if m != map[] {
      NonEmptyHasKey(m);
      var k :| k in m;
      var rest := m - {k};
      IndexSetCard(rest);
      IndexSetSplit(m, k);
    } else {
      assert IndexSet(m) == {};
    }
  }

  lemma SubsetSameCard(a: set<int>, b: set<int>)
    requires a <= b && |a| == |b|
    ensures a == b
  {
    assert b == a + (b - a);
    assert a * (b - a) == {};
    assert |b - a| == 0;

  }

  /** Two cells sharing a position leave fewer positions than cells. */
  lemma SharedPosition(m: Indexing, a: string, b: string)
    requires a in m && b in m && a != b && m[a] == m[b]
    ensures |IndexSet(m)| < |m|
  {
    var rest := m - {a};
    IndexSetCard(rest);
    IndexSetSplit(m, a);
    assert m[a] in IndexSet(rest) by {
      assert b in rest;
    }
  }

  /** Density means the index set is exactly {0..N-1}. */
  lemma DenseIndexSet(m: Indexing)
    ensures Dense(m) <==> IndexSet(m) == Range(|m|)
  {
    RangeCard(|m|);
    IndexSetCard(m);
    if Dense(m) {
      SubsetSameCard(IndexSet(m), Range(|m|));
    }
    if IndexSet(m) == Range(|m|) {
      forall k | k in m
        ensures 0 <= m[k] < |m|
      {
        assert m[k] in IndexSet(m);
      }
      forall a, b | a in m && b in m && m[a] == m[b]
        ensures a == b
      {
        if a != b {
          SharedPosition(m, a, b);
        }
      }
    }
  }

  /** A dense notebook has a cell at every position 0..N-1. */
  lemma DenseHasEvery(m: Indexing, i: int)
    requires Dense(m) && 0 <= i < |m|
    ensures exists k :: k in m && m[k] == i
  {
    DenseIndexSet(m);
    assert i in Range(|m|);
  }

  // ---------------------------------------------------------------------
  // The largest position: SELECT COALESCE(max(cell_index), -1)
  // ---------------------------------------------------------------------

  /** The largest position, -1 for an empty notebook. */
  ghost function MaxOf(m: Indexing): (r: int)
    ensures m == map[] ==> r == -1
    ensures forall k :: k in m ==> m[k] <= r
    ensures m != map[] ==> exists k :: k in m && m[k] == r
    decreases |m|
  {
    if m == map[] then -1
    else
      NonEmptyHasKey(m);
      var k :| k in m;
      var rest := m - {k};
      assert forall j :: j in m && j != k ==> j in rest;
      if rest == map[] then m[k]
      else
        var r := MaxOf(rest);
        if m[k] < r then r else m[k]
  }

  /** The largest position is determined by its defining properties. */
  lemma MaxOfUnique(m: Indexing, r: int)
    requires m != map[]
    requires forall k :: k in m ==> m[k] <= r
    requires exists k :: k in m && m[k] == r
    ensures MaxOf(m) == r
  {
    var k :| k in m && m[k] == r;
    var j :| j in m && m[j] == MaxOf(m);
    assert m[k] <= MaxOf(m);
    assert m[j] <= r;
  }

  /** In a dense notebook the largest position is N-1. */
  lemma MaxOfDense(m: Indexing)
    requires Dense(m)
    ensures MaxOf(m) == |m| - 1
  {
    if m != map[] {
      DenseHasEvery(m, |m| - 1);
      MaxOfUnique(m, |m| - 1);
    }
  }

  // ---------------------------------------------------------------------
  // Range shifts
  // ---------------------------------------------------------------------

  /** A position after `cell_index=cell_index+d WHERE cell_index>=lo`. */
  function From(i: int, lo: int, d: int): int
  {
    if i >= lo then i + d else i
  }

  /** A position after `cell_index=cell_index+d WHERE cell_index>=lo AND cell_index<hi`. */
  function Within(i: int, lo: int, hi: int, d: int): int
  {
    if lo <= i < hi then i + d else i
  }

  function ShiftFrom(m: Indexing, lo: int, d: int): Indexing
  {
    map k | k in m :: From(m[k], lo, d)
  }

  function ShiftWithin(m: Indexing, lo: int, hi: int, d: int): Indexing
  {
    map k | k in m :: Within(m[k], lo, hi, d)
  }

  /** Delete: the cell goes and every later cell moves one position down. */
  function Removed(m: Indexing, k: string): Indexing
    requires k in m
  {
    ShiftFrom(m - {k}, m[k] + 1, -1)
  }

  /** Insert at position i: every cell at i or later moves one position up. */
  function Inserted(m: Indexing, k: string, i: int): Indexing
  {
    ShiftFrom(m, i, 1)[k := i]
  }

  /**
   * Move to position target: a forward move pulls the cells in (cur, target]
   * one position down, a backward move pushes the cells in [target, cur) one
   * position up, then the cell takes position target.
   */
  function Moved(m: Indexing, k: string, target: int): Indexing
    requires k in m
  {
    var cur := m[k];
    if target > cur then ShiftWithin(m, cur + 1, target + 1, -1)[k := target]
    else if target < cur then ShiftWithin(m, target, cur, 1)[k := target]
    else m
  }

  // ---------------------------------------------------------------------
  // The shifts keep the notebook dense and the other cells in order
  // ---------------------------------------------------------------------

  /** Deleting a cell keeps the positions dense. */
  lemma RemovedDense(m: Indexing, k: string)
    requires Dense(m) && k in m
    ensures Removed(m, k).Keys == m.Keys - {k}
    ensures Dense(Removed(m, k))
  {
    var r := Removed(m, k);
    assert |r| == |m| - 1 by {
      assert r.Keys == m.Keys - {k};
    }
    forall a, b | a in r && b in r && r[a] == r[b]
      ensures a == b
    {
    }
  }

  /** Inserting a new cell at a position in 0..N keeps the positions dense. */
  lemma InsertedDense(m: Indexing, k: string, i: int)
    requires Dense(m) && k !in m && 0 <= i <= |m|
    ensures Inserted(m, k, i).Keys == m.Keys + {k}
    ensures Dense(Inserted(m, k, i))
  {
    var r := Inserted(m, k, i);
    assert |r| == |m| + 1 by {
      assert r.Keys == m.Keys + {k};
    }
    forall a | a in r
      ensures 0 <= r[a] < |r|
    {
      if a != k {
        assert r[a] == From(m[a], i, 1);
      }
    }
    forall a, b | a in r && b in r && r[a] == r[b]
      ensures a == b
    {
      if a != k {
        assert r[a] == From(m[a], i, 1);
      }
      if b != k {
        assert r[b] == From(m[b], i, 1);
      }
    }
  }

  /** Moving a cell to a position in 0..N-1 keeps the positions dense. */
  lemma MovedDense(m: Indexing, k: string, target: int)
    requires Dense(m) && k in m && 0 <= target < |m|
    ensures Moved(m, k, target).Keys == m.Keys
    ensures Dense(Moved(m, k, target))
  {
    if target > m[k] {
      MovedForwardDense(m, k, target);
    } else if target < m[k] {
      MovedBackwardDense(m, k, target);
    }
  }

  lemma SameKeysCard(a: Indexing, b: Indexing)
    requires a.Keys == b.Keys
    ensures |a| == |b|
  {
    assert |a| == |a.Keys|;
    assert |b| == |b.Keys|;
  }

  lemma MovedForwardDense(m: Indexing, k: string, target: int)
    requires Dense(m) && k in m && m[k] < target < |m|
    ensures Moved(m, k, target).Keys == m.Keys
    ensures Dense(Moved(m, k, target))
  {
    var r := ShiftWithin(m, m[k] + 1, target + 1, -1)[k := target];
    assert Moved(m, k, target) == r;
    assert r.Keys == m.Keys;
    SameKeysCard(r, m);
    ForwardBounds(m, k, target);
    ForwardInjective(m, k, target);
  }

  lemma ForwardBounds(m: Indexing, k: string, target: int)
    requires Dense(m) && k in m && m[k] < target < |m|
    ensures forall a :: a in m ==> 0 <= ShiftWithin(m, m[k] + 1, target + 1, -1)[k := target][a] < |m|
  {
    var s := ShiftWithin(m, m[k] + 1, target + 1, -1);
    forall a | a in m
      ensures 0 <= s[k := target][a] < |m|
    {
      if a != k {
        ForwardAt(m, k, target, a);
      }
    }
  }

  lemma ForwardInjective(m: Indexing, k: string, target: int)
    requires Dense(m) && k in m && m[k] < target < |m|
    ensures forall a, b :: a in m && b in m && ShiftWithin(m, m[k] + 1, target + 1, -1)[k := target][a] == ShiftWithin(m, m[k] + 1, target + 1, -1)[k := target][b] ==> a == b
  {
    var cur := m[k];
    var s := ShiftWithin(m, cur + 1, target + 1, -1);
    var r := s[k := target];
    forall a, b | a in m && b in m && r[a] == r[b]
      ensures a == b
    {
      if a != k {
        ForwardAt(m, k, target, a);
      }
      if b != k {
        ForwardAt(m, k, target, b);
      }
      if a != k && b != k {
        assert s[a] == r[a] == r[b] == s[b];
        WithinInjective(m[a], m[b], cur + 1, target + 1, -1);
        assert m[a] == m[b];
      }
    }
  }

  /** Shifting a window down by one is injective off the slot just vacated. */
  lemma WithinInjective(x: int, y: int, lo: int, hi: int, d: int)
    requires d == -1 && x != lo - 1 && y != lo - 1
    requires Within(x, lo, hi, d) == Within(y, lo, hi, d)
    ensures x == y
  {
  }

  /** Where a cell other than the moved one lands when a cell moves forward. */
  lemma ForwardAt(m: Indexing, k: string, target: int, a: string)
    requires Dense(m) && k in m && a in m && a != k && m[k] < target < |m|
    ensures ShiftWithin(m, m[k] + 1, target + 1, -1)[a] == Within(m[a], m[k] + 1, target + 1, -1)
    ensures m[a] != m[k]
    ensures 0 <= Within(m[a], m[k] + 1, target + 1, -1) < |m|
    ensures Within(m[a], m[k] + 1, target + 1, -1) != target
  {
  }

  lemma MovedBackwardDense(m: Indexing, k: string, target: int)
    requires Dense(m) && k in m && 0 <= target < m[k]
    ensures Moved(m, k, target).Keys == m.Keys
    ensures Dense(Moved(m, k, target))
  {
    var cur := m[k];
    var r := ShiftWithin(m, target, cur, 1)[k := target];
    assert Moved(m, k, target) == r;
    assert r.Keys == m.Keys;
    SameKeysCard(r, m);
    forall a | a in r
      ensures 0 <= r[a] < |r|
    {
      if a != k {
        assert r[a] == Within(m[a], target, cur, 1);
        assert m[a] != cur;
      }
    }
    forall a, b | a in r && b in r && r[a] == r[b]
      ensures a == b
    {
      if a != k {
        assert r[a] == Within(m[a], target, cur, 1) && m[a] != cur;
      }
      if b != k {
        assert r[b] == Within(m[b], target, cur, 1) && m[b] != cur;
      }
    }
  }

  /** The cells a shift does not target keep their relative order. */
  ghost predicate SameOrder(m: Indexing, r: Indexing, k: string)
  {
    forall a, b :: a in m && b in m && a in r && b in r && a != k && b != k ==> (m[a] < m[b] <==> r[a] < r[b])
  }

  lemma RemovedOrder(m: Indexing, k: string)
    requires k in m && Dense(m)
    ensures SameOrder(m, Removed(m, k), k)
  {
  }

  lemma InsertedOrder(m: Indexing, k: string, i: int)
    ensures SameOrder(m, Inserted(m, k, i), k)
  {
  }

  lemma MovedOrder(m: Indexing, k: string, target: int)
    requires k in m && Dense(m)
    ensures Moved(m, k, target)[k] == target
    ensures SameOrder(m, Moved(m, k, target), k)
  {
  }
}
