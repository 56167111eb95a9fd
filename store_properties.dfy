/**
 * What the batch save, the output operations and the reads of the cell
 * store promise: each patch keeps the positions of a notebook dense,
 * deletes, creates and moves are the range shifts of CellIndex, fields a
 * patch does not mention are kept, the three revisions differ only where
 * their code does, and stream output is coalesced one record per stream.
 */
module StoreProperties {
  import opened Wrappers
  import opened JsonValue
  import opened CellIndex
  import opened CellStore
  import OutputNormalizer

  /** Two rows hold the same content, whatever their positions. */
  predicate SameData(a: Cell, b: Cell)
  {
    a.source == b.source && a.metadata == b.metadata && a.cellType == b.cellType && a.outputs == b.outputs
  }

  // ---------------------------------------------------------------------
  // Delete
  // ---------------------------------------------------------------------

  /** A delete goes through exactly when it names a cell of the notebook. */
  lemma DeleteOutcome(rev: Revision, t: Table, p: Patch, newId: string)
    requires p.delete
    ensures Step(rev, t, p, newId).Success? <==> p.cellId.Some? && p.cellId.value in t
    ensures p.cellId.None? ==> Step(rev, t, p, newId) == Failure(MissingCellId)
    ensures p.cellId.Some? && p.cellId.value !in t ==> Step(rev, t, p, newId) == Failure(UnknownCell(p.cellId.value))
  {
  }

  /** A delete removes the cell, closes the gap it leaves and reports the position it had. */
  lemma DeleteEffect(rev: Revision, t: Table, p: Patch, newId: string)
    requires p.delete && p.cellId.Some? && p.cellId.value in t
    requires Dense(Indexes(t))
    ensures var r := Step(rev, t, p, newId);
            var id := p.cellId.value;
            && r.Success?
            && r.value.0.Keys == t.Keys - {id}
            && Indexes(r.value.0) == Removed(Indexes(t), id)
            && Dense(Indexes(r.value.0))
            && (forall k :: k in r.value.0 ==> SameData(r.value.0[k], t[k]))
            && r.value.1 == [CellDeleted(id, t[id].index)]
  {
    var id := p.cellId.value;
    var r := Step(rev, t, p, newId);
    assert Indexes(r.value.0) == Removed(Indexes(t), id) by {
      assert Indexes(t - {id}) == Indexes(t) - {id};
    }
    RemovedDense(Indexes(t), id);
  }

  // ---------------------------------------------------------------------
  // Create
  // ---------------------------------------------------------------------

  /** The position a create asks for is honoured when it lies in 0..N; -1, absent or beyond N mean "append". */
  function CreatePosition(requested: Option<int>, n: int): int
  {
    if requested.None? || requested.value == -1 || requested.value > n then n else requested.value
  }

  /** A create request the store can place without opening a gap. */
  predicate PlaceableIndex(p: Patch)
  {
    p.cellIndex.None? || p.cellIndex.value >= -1
  }

  /**
   * A create inserts the new cell at the requested position (at the end
   * when none or -1 is asked for), moves the cells from there on one up,
   * fills missing fields with "", {}, "code" and [] and reports the cell.
   */
  lemma CreateEffect(rev: Revision, t: Table, p: Patch, newId: string)
    requires !p.delete && (p.cellId.None? || p.cellId.value !in t)
    requires p.cellId.GetOr(newId) !in t
    requires Dense(Indexes(t)) && PlaceableIndex(p)
    ensures var r := Step(rev, t, p, newId);
            var id := p.cellId.GetOr(newId);
            var pos := CreatePosition(p.cellIndex, |t|);
            && r.Success?
            && r.value.0.Keys == t.Keys + {id}
            && Indexes(r.value.0) == Inserted(Indexes(t), id, pos)
            && Dense(Indexes(r.value.0))
            && (forall k :: k in t ==> SameData(r.value.0[k], t[k]))
            && r.value.0[id].index == pos
            && r.value.0[id].source == p.source.GetOr("")
            && r.value.0[id].metadata == p.metadata.GetOr(map[])
            && r.value.0[id].cellType == p.cellType.GetOr("code")
            && r.value.0[id].outputs == (if StoresOutputs(rev) then p.outputs.GetOr([]) else [])
            && r.value.1[0] == CellUpdated(id, p.source.GetOr(""), p.metadata.GetOr(map[]), p.cellType.GetOr("code"), pos)
    ensures |Step(rev, t, p, newId).value.1| == if StoresOutputs(rev) && p.outputs.Some? && |p.outputs.value| > 0 then 2 else 1
    ensures |Step(rev, t, p, newId).value.1| == 2 ==>
              Step(rev, t, p, newId).value.1[1] == OutputsChanged(OutputsEventName(rev), p.cellId.GetOr(newId), false)
  {
    var id := p.cellId.GetOr(newId);
    var pos := CreatePosition(p.cellIndex, |t|);
    assert Step(rev, t, p, newId) == Success(CreateStep(rev, t, p, id));
    CreateOutputsEvent(rev, t, p, id);
    CreateStepEffect(rev, t, p, id);
    CreateShiftIndexes(t, id, pos, NewCell(rev, p, pos));
    InsertedDense(Indexes(t), id, pos);
  }

  /** A create fires the outputs event after the cell event exactly when it stores non-empty outputs. */
  lemma CreateOutputsEvent(rev: Revision, t: Table, p: Patch, id: string)
    ensures |CreateStep(rev, t, p, id).1| == if StoresOutputs(rev) && p.outputs.Some? && |p.outputs.value| > 0 then 2 else 1
    ensures |CreateStep(rev, t, p, id).1| == 2 ==> CreateStep(rev, t, p, id).1[1] == OutputsChanged(OutputsEventName(rev), id, false)
  {
  }

  lemma CreateStepEffect(rev: Revision, t: Table, p: Patch, id: string)
    requires id !in t && Dense(Indexes(t)) && PlaceableIndex(p)
    ensures CreateStep(rev, t, p, id).0 == CreateShift(t, CreatePosition(p.cellIndex, |t|))[id := NewCell(rev, p, CreatePosition(p.cellIndex, |t|))]
    ensures CreateStep(rev, t, p, id).1[0]
            == CellUpdated(id, p.source.GetOr(""), p.metadata.GetOr(map[]), p.cellType.GetOr("code"), CreatePosition(p.cellIndex, |t|))
  {
    var ci := CreateIndex(p.cellIndex, MaxOf(Indexes(t)));
    CreateStepResolved(t, p, ci);
    assert CreateStep(rev, t, p, id).0 == (if ci.1 then ShiftCellsFrom(t, ci.0, 1) else t)[id := NewCell(rev, p, ci.0)];
    assert CreateStep(rev, t, p, id).1[0] == CellUpdated(id, p.source.GetOr(""), p.metadata.GetOr(map[]), p.cellType.GetOr("code"), ci.0);
  }

  /** In a dense notebook the create index is CreatePosition, and the shift it asks for is CreateShift. */
  lemma CreateStepResolved(t: Table, p: Patch, ci: (int, bool))
    requires Dense(Indexes(t)) && PlaceableIndex(p)
    requires ci == CreateIndex(p.cellIndex, MaxOf(Indexes(t)))
    ensures ci.0 == CreatePosition(p.cellIndex, |t|)
    ensures (if ci.1 then ShiftCellsFrom(t, ci.0, 1) else t) == CreateShift(t, ci.0)
  {
    MaxOfDense(Indexes(t));
    CreateIndexResolves(p, |t|);
  }

  /** With COALESCE(max(cell_index),-1) equal to N-1, the create index is CreatePosition, and the rows move up exactly when it is below N. */
  lemma CreateIndexResolves(p: Patch, n: int)
    requires PlaceableIndex(p)
    ensures CreateIndex(p.cellIndex, n - 1).0 == CreatePosition(p.cellIndex, n)
    ensures CreateIndex(p.cellIndex, n - 1).1 <==> CreatePosition(p.cellIndex, n) < n
  {
  }

  /** The rows after a create opened position pos (a no-op at the end of the notebook). */
  function CreateShift(t: Table, pos: int): Table
  {
    if pos < |t| then ShiftCellsFrom(t, pos, 1) else t
  }

  lemma CreateShiftIndexes(t: Table, id: string, pos: int, c: Cell)
    requires Dense(Indexes(t)) && id !in t && 0 <= pos <= |t| && c.index == pos
    ensures CreateShift(t, pos)[id := c].Keys == t.Keys + {id}
    ensures Indexes(CreateShift(t, pos)[id := c]) == Inserted(Indexes(t), id, pos)
    ensures forall k :: k in t ==> SameData(CreateShift(t, pos)[id := c][k], t[k])
  {
    var t1 := CreateShift(t, pos);
    assert Indexes(t1) == ShiftFrom(Indexes(t), pos, 1);
    IndexesUpdate(t1, id, c);
  }

  lemma IndexesUpdate(t: Table, id: string, c: Cell)
    ensures Indexes(t[id := c]) == Indexes(t)[id := c.index]
  {
  }

  /** A create asking for a position below -1 puts the new cell at that negative position: the notebook is no longer dense. */
  lemma CreateBelowMinusOne(rev: Revision, t: Table, p: Patch, newId: string)
    requires !p.delete && (p.cellId.None? || p.cellId.value !in t)
    requires p.cellId.GetOr(newId) !in t
    requires p.cellIndex.Some? && p.cellIndex.value < -1
    requires Dense(Indexes(t))
    ensures var r := Step(rev, t, p, newId);
            && r.Success?
            && r.value.0[p.cellId.GetOr(newId)].index == p.cellIndex.value
            && !Dense(Indexes(r.value.0))
  {
    MaxOfDense(Indexes(t));
  }

  // ---------------------------------------------------------------------
  // Update and move
  // ---------------------------------------------------------------------

  /**
   * An update of an existing cell writes the fields the patch carries,
   * keeps the others, keeps every other cell's content and, when a new
   * position is asked for, moves the cell there (a position outside 0..N-1
   * meaning the last one); the event reports the position the cell ends at.
   */
  lemma UpdateEffect(rev: Revision, t: Table, p: Patch, newId: string)
    requires !p.delete && p.cellId.Some? && p.cellId.value in t
    requires Dense(Indexes(t))
    ensures Step(rev, t, p, newId).Success?
    ensures Step(rev, t, p, newId).value.0.Keys == t.Keys
    ensures Dense(Indexes(Step(rev, t, p, newId).value.0))
    ensures p.cellIndex.None? ==> Indexes(Step(rev, t, p, newId).value.0) == Indexes(t)
    ensures p.cellIndex.Some? ==> Indexes(Step(rev, t, p, newId).value.0) == Moved(Indexes(t), p.cellId.value, MoveTarget(p.cellIndex.value, |t| - 1))
    ensures var c := Step(rev, t, p, newId).value.0[p.cellId.value];
            && c.source == p.source.GetOr(t[p.cellId.value].source)
            && c.metadata == p.metadata.GetOr(t[p.cellId.value].metadata)
            && c.cellType == p.cellType.GetOr(t[p.cellId.value].cellType)
            && c.outputs == (if StoresOutputs(rev) && p.outputs.Some? then p.outputs.value else t[p.cellId.value].outputs)
    ensures forall k :: k in t && k != p.cellId.value ==> SameData(Step(rev, t, p, newId).value.0[k], t[k])
    ensures var c := Step(rev, t, p, newId).value.0[p.cellId.value];
            Step(rev, t, p, newId).value.1[0] == CellUpdated(p.cellId.value, c.source, c.metadata, c.cellType, c.index)
    ensures |Step(rev, t, p, newId).value.1| == if StoresOutputs(rev) && p.outputs.Some? then 2 else 1
    ensures |Step(rev, t, p, newId).value.1| == 2 ==>
              Step(rev, t, p, newId).value.1[1] == OutputsChanged(OutputsEventName(rev), p.cellId.value, false)
  {
    var id := p.cellId.value;
    var c := Updated(rev, t[id], p);
    var target := if p.cellIndex.Some? then MoveTarget(p.cellIndex.value, |t| - 1) else t[id].index;
    assert Step(rev, t, p, newId) == Success(UpdateStep(rev, t, p, id));
    UpdateOutputsEvent(rev, t, p, id);
    UpdateStepEffect(rev, t, p, id);
    if target != t[id].index {
      UpdatedMoved(t, id, c, target);
      UpdatedMovedData(t, id, c, target);
    } else {
      UpdatedInPlace(t, id, c);
    }
  }

  /** An update fires the outputs event after the cell event whenever it stores outputs, empty or not. */
  lemma UpdateOutputsEvent(rev: Revision, t: Table, p: Patch, id: string)
    requires id in t
    ensures |UpdateStep(rev, t, p, id).1| == if StoresOutputs(rev) && p.outputs.Some? then 2 else 1
    ensures |UpdateStep(rev, t, p, id).1| == 2 ==> UpdateStep(rev, t, p, id).1[1] == OutputsChanged(OutputsEventName(rev), id, false)
  {
  }

  /** The table after the row id is overwritten by c and moved to target, a position it does not hold. */
  lemma UpdatedMoved(t: Table, id: string, c: Cell, target: int)
    requires id in t && Dense(Indexes(t)) && c.index == t[id].index && 0 <= target < |t| && target != t[id].index
    ensures MoveCell(t[id := c], id, target).Keys == t.Keys
    ensures Indexes(MoveCell(t[id := c], id, target)) == Moved(Indexes(t), id, target)
    ensures Dense(Indexes(MoveCell(t[id := c], id, target)))
  {
    var t1 := t[id := c];
    IndexesUpdate(t, id, c);
    assert Indexes(t)[id := c.index] == Indexes(t);
    assert t1.Keys == t.Keys;
    assert |t1| == |t| by {
      assert |t1.Keys| == |t.Keys|;
    }
    MovedTable(t1, id, target);
  }

  /** The data of every row after the row id is overwritten by c and moved to target. */
  lemma UpdatedMovedData(t: Table, id: string, c: Cell, target: int)
    requires id in t
    ensures MoveCell(t[id := c], id, target)[id] == c.(index := target)
    ensures forall k :: k in t && k != id ==> SameData(MoveCell(t[id := c], id, target)[k], t[k])
  {
    var t1 := t[id := c];
    MoveCellAt(t1, id, target);
    forall k | k in t && k != id
      ensures SameData(MoveCell(t1, id, target)[k], t[k])
    {
      assert t1[k] == t[k];
      MoveCellOther(t1, id, target, k);
    }
  }

  /** A row other than the moved one keeps its data. */
  lemma MoveCellOther(t: Table, id: string, target: int, k: string)
    requires id in t && k in t && k != id
    ensures SameData(MoveCell(t, id, target)[k], t[k])
  {
  }

  /** Moving a row of a dense table to a position it does not hold. */
  lemma MovedTable(t: Table, id: string, target: int)
    requires id in t && Dense(Indexes(t)) && 0 <= target < |t| && target != t[id].index
    ensures MoveCell(t, id, target).Keys == t.Keys
    ensures Indexes(MoveCell(t, id, target)) == Moved(Indexes(t), id, target)
    ensures Dense(Indexes(MoveCell(t, id, target)))
  {
    MoveCellIndexes(t, id, target);
    IndexesCard(t);
    MovedDense(Indexes(t), id, target);
  }

  /** The moved row itself lands at the target with its data unchanged. */
  lemma MoveCellAt(t: Table, id: string, target: int)
    requires id in t
    ensures MoveCell(t, id, target)[id] == t[id].(index := target)
  {
  }

  /** The table after the row id is overwritten by c in place. */
  lemma UpdatedInPlace(t: Table, id: string, c: Cell)
    requires id in t && Dense(Indexes(t)) && c.index == t[id].index
    ensures t[id := c].Keys == t.Keys
    ensures Indexes(t[id := c]) == Indexes(t)
    ensures Dense(Indexes(t[id := c]))
    ensures forall k :: k in t && k != id ==> SameData(t[id := c][k], t[k])
  {
    IndexesUpdate(t, id, c);
    assert Indexes(t)[id := c.index] == Indexes(t);
  }

  /** The update step on a dense table: the move target is clamped to N-1. */
  lemma UpdateStepEffect(rev: Revision, t: Table, p: Patch, id: string)
    requires id in t && Dense(Indexes(t))
    ensures var c := Updated(rev, t[id], p);
            var target := if p.cellIndex.Some? then MoveTarget(p.cellIndex.value, |t| - 1) else t[id].index;
            UpdateStep(rev, t, p, id).0 == (if target != t[id].index then MoveCell(t[id := c], id, target) else t[id := c])
    ensures var c := Updated(rev, t[id], p);
            var target := if p.cellIndex.Some? then MoveTarget(p.cellIndex.value, |t| - 1) else t[id].index;
            UpdateStep(rev, t, p, id).1[0] == CellUpdated(id, c.source, c.metadata, c.cellType, target)
  {
    UpdateBounds(rev, t, p, id);
    UpdateStepWith(rev, t, p, id, |t| - 1);
  }

  /** Before the update step of a dense table: the row's position and the largest position after the field update. */
  lemma UpdateBounds(rev: Revision, t: Table, p: Patch, id: string)
    requires id in t && Dense(Indexes(t))
    ensures 0 <= t[id].index <= |t| - 1
    ensures MaxOf(Indexes(t[id := Updated(rev, t[id], p)])) == |t| - 1
  {
    UpdateMaxIndex(t, id, Updated(rev, t[id], p));
    IndexBounds(t, id);
  }

  /** A table has exactly one position per row. */
  lemma IndexesCard(t: Table)
    ensures |Indexes(t)| == |t|
  {
    assert Indexes(t).Keys == t.Keys;
    assert |Indexes(t).Keys| == |t.Keys|;
  }

  /** In a dense table every row's position lies in [0, N). */
  lemma IndexBounds(t: Table, id: string)
    requires id in t && Dense(Indexes(t))
    ensures 0 <= t[id].index < |t|
  {
    assert Indexes(t)[id] == t[id].index;
    IndexesCard(t);
  }

  /** The update step once the largest position of the table after the field update is known. */
  lemma UpdateStepWith(rev: Revision, t: Table, p: Patch, id: string, maxIndex: int)
    requires id in t && 0 <= t[id].index <= maxIndex
    requires MaxOf(Indexes(t[id := Updated(rev, t[id], p)])) == maxIndex
    ensures var c := Updated(rev, t[id], p);
            var target := if p.cellIndex.Some? then MoveTarget(p.cellIndex.value, maxIndex) else t[id].index;
            UpdateStep(rev, t, p, id).0 == (if target != t[id].index then MoveCell(t[id := c], id, target) else t[id := c])
    ensures var c := Updated(rev, t[id], p);
            var target := if p.cellIndex.Some? then MoveTarget(p.cellIndex.value, maxIndex) else t[id].index;
            UpdateStep(rev, t, p, id).1[0] == CellUpdated(id, c.source, c.metadata, c.cellType, target)
  {
  }

  /** Updating a row's fields keeps the largest position of a dense notebook at N-1. */
  lemma UpdateMaxIndex(t: Table, id: string, c: Cell)
    requires id in t && Dense(Indexes(t)) && c.index == t[id].index
    ensures MaxOf(Indexes(t[id := c])) == |t| - 1
  {
    IndexesUpdate(t, id, c);
    assert Indexes(t[id := c]) == Indexes(t);
    MaxOfDense(Indexes(t));
  }

  /** Moving a row shifts positions exactly as CellIndex.Moved does. */
  lemma MoveCellIndexes(t: Table, id: string, target: int)
    requires id in t && target != t[id].index
    ensures MoveCell(t, id, target).Keys == t.Keys
    ensures Indexes(MoveCell(t, id, target)) == Moved(Indexes(t), id, target)
    ensures forall k :: k in t ==> SameData(MoveCell(t, id, target)[k], t[k])
  {
    if target > t[id].index {
      MoveForwardIndexes(t, id, target);
    } else {
      MoveBackwardIndexes(t, id, target);
    }
    MoveCellData(t, id, target);
  }

  lemma MoveForwardIndexes(t: Table, id: string, target: int)
    requires id in t && target > t[id].index
    ensures Indexes(MoveCell(t, id, target)) == Moved(Indexes(t), id, target)
  {
    var cur := t[id].index;
    var t1 := ShiftCellsWithin(t, cur + 1, target + 1, -1);
    IndexesUpdate(t1, id, t[id].(index := target));
  }

  lemma MoveBackwardIndexes(t: Table, id: string, target: int)
    requires id in t && target < t[id].index
    ensures Indexes(MoveCell(t, id, target)) == Moved(Indexes(t), id, target)
  {
    var cur := t[id].index;
    var t1 := ShiftCellsWithin(t, target, cur, 1);
    IndexesUpdate(t1, id, t[id].(index := target));
  }

  lemma MoveCellData(t: Table, id: string, target: int)
    requires id in t
    ensures MoveCell(t, id, target).Keys == t.Keys
    ensures forall k :: k in t ==> SameData(MoveCell(t, id, target)[k], t[k])
  {
  }

  /** Asking to move a cell to a negative position or past the end moves it to the end. */
  lemma MoveOutOfRange(rev: Revision, t: Table, p: Patch, newId: string)
    requires !p.delete && p.cellId.Some? && p.cellId.value in t
    requires Dense(Indexes(t))
    requires p.cellIndex.Some? && (p.cellIndex.value < 0 || p.cellIndex.value >= |t|)
    ensures Step(rev, t, p, newId).Success?
    ensures Step(rev, t, p, newId).value.0[p.cellId.value].index == |t| - 1
  {
    UpdateEffect(rev, t, p, newId);
    MovedOrder(Indexes(t), p.cellId.value, |t| - 1);
  }

  // ---------------------------------------------------------------------
  // The batch keeps the notebook dense
  // ---------------------------------------------------------------------

  /**
   * A patch the store applies without opening a gap: every delete (its
   * cell_index is ignored) and every update (its cell_index is clamped),
   * and a create that asks for no position below -1.
   */
  predicate Placeable(t: Table, p: Patch)
  {
    p.delete || (p.cellId.Some? && p.cellId.value in t) || PlaceableIndex(p)
  }

  /** Every patch of the batch is placeable against the table the patches before it left. */
  ghost predicate AllPlaceable(rev: Revision, t: Table, ps: seq<Patch>, newIds: seq<string>)
    requires |newIds| == |ps|
    decreases |ps|
  {
    ps == [] ||
    (Placeable(t, ps[0]) &&
     (Step(rev, t, ps[0], newIds[0]).Success? ==> AllPlaceable(rev, Step(rev, t, ps[0], newIds[0]).value.0, ps[1..], newIds[1..])))
  }

  /** Every patch that goes through keeps the positions 0..N-1, unless it is a create asking for a position below -1. */
  lemma StepKeepsDense(rev: Revision, t: Table, p: Patch, newId: string)
    requires Dense(Indexes(t)) && Placeable(t, p)
    requires Step(rev, t, p, newId).Success?
    ensures Dense(Indexes(Step(rev, t, p, newId).value.0))
  {
    if p.delete {
      DeleteEffect(rev, t, p, newId);
    } else if p.cellId.Some? && p.cellId.value in t {
      UpdateEffect(rev, t, p, newId);
    } else {
      CreateEffect(rev, t, p, newId);
    }
  }

  /** A whole batch that commits leaves the notebook dense, unless one of its creates asks for a position below -1. */
  lemma {:induction false} SaveKeepsDense(rev: Revision, t: Table, ps: seq<Patch>, newIds: seq<string>)
    requires |newIds| == |ps| && Dense(Indexes(t))
    requires AllPlaceable(rev, t, ps, newIds)
    requires SaveBatch(rev, t, ps, newIds).Success?
    ensures Dense(Indexes(SaveBatch(rev, t, ps, newIds).value.0))
    decreases |ps|
  {
    if ps != [] {
      var s := Step(rev, t, ps[0], newIds[0]);
      StepKeepsDense(rev, t, ps[0], newIds[0]);
      SaveKeepsDense(rev, s.value.0, ps[1..], newIds[1..]);
    }
  }

  /** A batch that fails at some patch is a failure as a whole, whatever the patches after it. */
  lemma {:induction false} SaveAbortsOnFailure(rev: Revision, t: Table, ps: seq<Patch>, newIds: seq<string>, q: Patch, id: string)
    requires |newIds| == |ps|
    requires SaveBatch(rev, t, ps, newIds).Success?
    requires Step(rev, SaveBatch(rev, t, ps, newIds).value.0, q, id).Failure?
    ensures SaveBatch(rev, t, ps + [q], newIds + [id]) == Failure(Step(rev, SaveBatch(rev, t, ps, newIds).value.0, q, id).error)
    decreases |ps|
  {
    if ps == [] {
      assert ps + [q] == [q] && newIds + [id] == [id];
    } else {
      var s := Step(rev, t, ps[0], newIds[0]);
      assert (ps + [q])[0] == ps[0] && (newIds + [id])[0] == newIds[0];
      assert (ps + [q])[1..] == ps[1..] + [q] && (newIds + [id])[1..] == newIds[1..] + [id];
      SaveAbortsOnFailure(rev, s.value.0, ps[1..], newIds[1..], q, id);
    }
  }

  // ---------------------------------------------------------------------
  // The three revisions
  // ---------------------------------------------------------------------

  /** main.py's events: the outputs event is called "notebook_cell_output". */
  function AsMainEvents(evs: seq<Event>): (r: seq<Event>)
    ensures |r| == |evs|
    ensures forall i :: 0 <= i < |evs| ==> r[i] == (if evs[i].OutputsChanged? then evs[i].(name := OutputsEventName(Main)) else evs[i])
  {
    if evs == [] then [] else
      [if evs[0].OutputsChanged? then evs[0].(name := OutputsEventName(Main)) else evs[0]] + AsMainEvents(evs[1..])
  }

  /** main.py saves exactly as backend/main.py and fires the same events under main.py's name for the outputs event. */
  lemma MainMatchesBackend(t: Table, p: Patch, newId: string)
    ensures Step(Main, t, p, newId).Success? <==> Step(Backend, t, p, newId).Success?
    ensures Step(Main, t, p, newId).Failure? ==> Step(Main, t, p, newId) == Step(Backend, t, p, newId)
    ensures Step(Main, t, p, newId).Success? ==>
              && Step(Main, t, p, newId).value.0 == Step(Backend, t, p, newId).value.0
              && Step(Main, t, p, newId).value.1 == AsMainEvents(Step(Backend, t, p, newId).value.1)
  {
    if p.delete {
      var r := DeleteStep(t, p);
      if r.Success? {
        AsMainCellEvents(r.value.1);
      }
    } else if p.cellId.Some? && p.cellId.value in t {
      UpdateMainBackend(t, p, p.cellId.value);
    } else if p.cellId.GetOr(newId) !in t {
      CreateMainBackend(t, p, p.cellId.GetOr(newId));
    }
  }

  /** Events without an outputs event are the same under main.py's names. */
  lemma AsMainCellEvents(evs: seq<Event>)
    requires forall i :: 0 <= i < |evs| ==> !evs[i].OutputsChanged?
    ensures AsMainEvents(evs) == evs
  {
  }

  lemma UpdateMainBackend(t: Table, p: Patch, id: string)
    requires id in t
    ensures UpdateStep(Main, t, p, id).0 == UpdateStep(Backend, t, p, id).0
    ensures UpdateStep(Main, t, p, id).1 == AsMainEvents(UpdateStep(Backend, t, p, id).1)
  {
    assert Updated(Main, t[id], p) == Updated(Backend, t[id], p);
  }

  lemma CreateMainBackend(t: Table, p: Patch, id: string)
    ensures CreateStep(Main, t, p, id).0 == CreateStep(Backend, t, p, id).0
    ensures CreateStep(Main, t, p, id).1 == AsMainEvents(CreateStep(Backend, t, p, id).1)
  {
    var ci := CreateIndex(p.cellIndex, MaxOf(Indexes(t)));
    assert NewCell(Main, p, ci.0) == NewCell(Backend, p, ci.0);
  }

  /** assets/main.py ignores the outputs of a patch: the patch is saved as if it had none, and no outputs event is fired. */
  lemma AssetsIgnoresOutputs(t: Table, p: Patch, newId: string)
    ensures Step(Assets, t, p, newId) == Step(Assets, t, p.(outputs := None), newId)
    ensures Step(Assets, t, p, newId).Success? ==>
              forall i :: 0 <= i < |Step(Assets, t, p, newId).value.1| ==> !Step(Assets, t, p, newId).value.1[i].OutputsChanged?
  {
  }

  // ---------------------------------------------------------------------
  // Outputs can be cleared through a save, never set
  // ---------------------------------------------------------------------

  /** After t becomes r, every cell's outputs are empty or what they were. */
  ghost predicate OutputsKeptOrCleared(t: Table, r: Table)
  {
    forall k :: k in r ==> r[k].outputs == [] || (k in t && r[k].outputs == t[k].outputs)
  }

  lemma StepOutputs(rev: Revision, t: Table, p: Patch, newId: string)
    requires rev == Assets || !(p.outputs.Some? && |p.outputs.value| > 0)
    requires Step(rev, t, p, newId).Success?
    ensures OutputsKeptOrCleared(t, Step(rev, t, p, newId).value.0)
  {
    if p.delete {
      var id := p.cellId.value;
      KeptByShift(t - {id}, t, t[id].index + 1, -1);
    } else if p.cellId.Some? && p.cellId.value in t {
      var id := p.cellId.value;
      UpdateOutputs(rev, t, p, id);
    } else {
      var id := p.cellId.GetOr(newId);
      var ci := CreateIndex(p.cellIndex, MaxOf(Indexes(t)));
      var t1 := if ci.1 then ShiftCellsFrom(t, ci.0, 1) else t;
      KeptByShift(t, t, ci.0, 1);
      assert NewCell(rev, p, ci.0).outputs == [];
      assert CreateStep(rev, t, p, id).0 == t1[id := NewCell(rev, p, ci.0)];
    }
  }

  /** Shifting the rows of a part of t keeps their outputs. */
  lemma KeptByShift(part: Table, t: Table, lo: int, d: int)
    requires forall k :: k in part ==> k in t && part[k].outputs == t[k].outputs
    ensures OutputsKeptOrCleared(t, ShiftCellsFrom(part, lo, d))
  {
  }

  /** An update that sets no non-empty outputs leaves every row's outputs empty or as they were. */
  lemma UpdateOutputs(rev: Revision, t: Table, p: Patch, id: string)
    requires id in t
    requires rev == Assets || !(p.outputs.Some? && |p.outputs.value| > 0)
    ensures OutputsKeptOrCleared(t, UpdateStep(rev, t, p, id).0)
  {
    var c := Updated(rev, t[id], p);
    var t1 := t[id := c];
    assert c.outputs == [] || c.outputs == t[id].outputs;
    assert OutputsKeptOrCleared(t, t1);
    if p.cellIndex.Some? && p.cellIndex.value != c.index {
      var target := MoveTarget(p.cellIndex.value, MaxOf(Indexes(t1)));
      if target != c.index {
        MoveCellData(t1, id, target);
      }
    }
  }

  /**
   * A batch the POST route lets through (or any batch in assets/main.py,
   * which never writes outputs) leaves every cell's outputs empty or as
   * they were.
   */
  lemma {:induction false} SaveOutputs(rev: Revision, t: Table, ps: seq<Patch>, newIds: seq<string>)
    requires |newIds| == |ps|
    requires !Refused(rev, ps)
    requires SaveBatch(rev, t, ps, newIds).Success?
    ensures OutputsKeptOrCleared(t, SaveBatch(rev, t, ps, newIds).value.0)
    decreases |ps|
  {
    if ps != [] {
      var s := Step(rev, t, ps[0], newIds[0]);
      if rev != Assets {
        assert !SetsOutputs(ps);
        assert !(ps[0].outputs.Some? && |ps[0].outputs.value| > 0);
        forall i | 0 <= i < |ps[1..]|
          ensures !(ps[1..][i].outputs.Some? && |ps[1..][i].outputs.value| > 0)
        {
          assert ps[1..][i] == ps[i + 1];
        }
      }
      StepOutputs(rev, t, ps[0], newIds[0]);
      SaveOutputs(rev, s.value.0, ps[1..], newIds[1..]);
    }
  }

  // ---------------------------------------------------------------------
  // Stream coalescing (backend/main.py)
  // ---------------------------------------------------------------------

  /** No two stream records share a name. */
  ghost predicate OneRecordPerStream(outs: seq<Json>)
  {
    forall i, j :: 0 <= i < j < |outs| && outs[i].Obj? && "name" in outs[i].fields ==> !StreamNamed(outs[j], outs[i].fields["name"]) || !StreamNamed(outs[i], outs[i].fields["name"])
  }

  /** Output that is not a stream record is appended as it came. */
  lemma NonStreamAppended(rev: Revision, outs: seq<Json>, data: Object)
    requires !IsStream(data)
    ensures AppendedOutputs(rev, outs, data) == Success(outs + [Obj(data)])
  {
  }

  /**
   * Stream output for a stream that already has a record extends that
   * record: the array keeps its length, only that record changes, its text
   * becomes the normalised concatenation and holds no backspace.
   */
  lemma StreamMerged(outs: seq<Json>, data: Object, k: nat)
    requires IsStream(data) && "name" in data
    requires FirstStream(outs, data["name"]) == Some(k)
    requires Coalesced(outs, data).Success?
    ensures var n := Coalesced(outs, data).value;
            && |n| == |outs|
            && (forall j :: 0 <= j < |n| && j != k ==> n[j] == outs[j])
            && StreamNamed(n[k], data["name"])
            && "text" in n[k].fields && n[k].fields["text"].Str?
            && Some(n[k].fields["text"].s) == OutputNormalizer.FixedLines(outs[k].fields["text"].s + data["text"].s)
            && OutputNormalizer.BS !in n[k].fields["text"].s
  {
    var prior := outs[k].fields["text"].s;
    OutputNormalizer.FixedLinesFails(prior + data["text"].s);
    OutputNormalizer.FixedLinesHasNoBS(prior + data["text"].s);
  }

  /** Stream output for a stream without a record appends one record, whose text is normalised and holds no backspace. */
  lemma StreamAppended(outs: seq<Json>, data: Object)
    requires IsStream(data) && "name" in data
    requires FirstStream(outs, data["name"]).None?
    requires Coalesced(outs, data).Success?
    ensures var n := Coalesced(outs, data).value;
            && |n| == |outs| + 1
            && n[..|outs|] == outs
            && StreamNamed(n[|outs|], data["name"])
            && Some(n[|outs|].fields["text"].s) == OutputNormalizer.FixedLines(data["text"].s)
            && OutputNormalizer.BS !in n[|outs|].fields["text"].s
  {
    OutputNormalizer.FixedLinesFails(data["text"].s);
    OutputNormalizer.FixedLinesHasNoBS(data["text"].s);
  }

  /** Stream output with a name and string text fails only when there is no text at all to normalise. */
  lemma StreamFailsOnlyWhenEmpty(outs: seq<Json>, data: Object)
    requires IsStream(data) && "name" in data && "text" in data && data["text"].Str?
    requires FirstStream(outs, data["name"]).Some? ==>
               "text" in outs[FirstStream(outs, data["name"]).value].fields && outs[FirstStream(outs, data["name"]).value].fields["text"].Str?
    ensures Coalesced(outs, data).Failure? <==>
              (match FirstStream(outs, data["name"])
               case None => data["text"].s == ""
               case Some(k) => outs[k].fields["text"].s + data["text"].s == "")
    ensures Coalesced(outs, data).Failure? ==> Coalesced(outs, data).error == EmptyText
  {
    match FirstStream(outs, data["name"])
    case None =>
      OutputNormalizer.FixedLinesFails(data["text"].s);
    case Some(k) =>
      OutputNormalizer.FixedLinesFails(outs[k].fields["text"].s + data["text"].s);
  }

  /** Coalescing keeps at most one stream record per stream name. */
  lemma CoalescedKeepsOneRecordPerStream(outs: seq<Json>, data: Object)
    requires OneRecordPerStream(outs)
    requires Coalesced(outs, data).Success?
    requires IsStream(data)
    ensures OneRecordPerStream(Coalesced(outs, data).value)
  {
    var n := Coalesced(outs, data).value;
    var name := data["name"];
    match FirstStream(outs, name)
    case Some(k) =>
      StreamMerged(outs, data, k);
      forall i, j | 0 <= i < j < |n| && n[i].Obj? && "name" in n[i].fields && StreamNamed(n[i], n[i].fields["name"])
        ensures !StreamNamed(n[j], n[i].fields["name"])
      {
        if i == k {
          assert n[i].fields["name"] == outs[i].fields["name"];
          assert StreamNamed(outs[i], outs[i].fields["name"]);
        } else if j == k {
          assert StreamNamed(outs[j], name);
        }
      }
    case None =>
      StreamAppended(outs, data);
      forall i, j | 0 <= i < j < |n| && n[i].Obj? && "name" in n[i].fields && StreamNamed(n[i], n[i].fields["name"])
        ensures !StreamNamed(n[j], n[i].fields["name"])
      {
        if j == |outs| {
          assert n[i] == outs[i];
        } else {
          assert n[i] == outs[i] && n[j] == outs[j];
        }
      }
  }

  // ---------------------------------------------------------------------
  // Reading a dense notebook
  // ---------------------------------------------------------------------

  /** In a dense notebook the listing has one row per cell and row k is the cell at position k. */
  lemma ListingDense(t: Table, rows: seq<Row>)
    requires Listing(t, rows) && Dense(Indexes(t))
    ensures |rows| == |t|
    ensures forall k :: 0 <= k < |rows| ==> rows[k].cell.index == k
  {
    ListingLength(t, rows);
    forall i, j | 0 <= i < j < |rows|
      ensures rows[i].cell.index < rows[j].cell.index
    {
      var a, b := rows[i].cellId, rows[j].cellId;
      assert Indexes(t)[a] == rows[i].cell.index && Indexes(t)[b] == rows[j].cell.index;
    }
    forall k | 0 <= k < |rows|
      ensures 0 <= rows[k].cell.index < |rows|
    {
      assert Indexes(t)[rows[k].cellId] == rows[k].cell.index;
    }
    StrictlyIncreasingIsIdentity(rows);
  }

  /** Distinct ids covering the table: one row per cell. */
  lemma ListingLength(t: Table, rows: seq<Row>)
    requires Listing(t, rows)
    ensures |rows| == |t|
  {
    var ids := set k | 0 <= k < |rows| :: rows[k].cellId;
    assert ids == t.Keys;
    DistinctCard(rows);
  }

  lemma {:induction false} DistinctCard(rows: seq<Row>)
    requires forall i, j :: 0 <= i < j < |rows| ==> rows[i].cellId != rows[j].cellId
    ensures |set k | 0 <= k < |rows| :: rows[k].cellId| == |rows|
    decreases |rows|
  {
    if rows != [] {
      var init := rows[..|rows| - 1];
      assert forall i, j :: 0 <= i < j < |init| ==> init[i].cellId != init[j].cellId;
      DistinctCard(init);
      IdSetSnoc(rows);
    }
  }

  /** The ids of a list of rows are those of all but the last one plus the last one's, which is new when the ids are distinct. */
  lemma IdSetSnoc(rows: seq<Row>)
    requires rows != []
    requires forall i, j :: 0 <= i < j < |rows| ==> rows[i].cellId != rows[j].cellId
    ensures var init := rows[..|rows| - 1];
            && (set k | 0 <= k < |rows| :: rows[k].cellId) == (set k | 0 <= k < |init| :: init[k].cellId) + {rows[|rows| - 1].cellId}
            && rows[|rows| - 1].cellId !in (set k | 0 <= k < |init| :: init[k].cellId)
  {
    var init := rows[..|rows| - 1];
    var s := set k | 0 <= k < |rows| :: rows[k].cellId;
    var s0 := set k | 0 <= k < |init| :: init[k].cellId;
    forall x | x in s ensures x in s0 + {rows[|rows| - 1].cellId} {
      var k :| 0 <= k < |rows| && rows[k].cellId == x;
      if k < |init| {
        assert init[k] == rows[k];
      }
    }
    forall x | x in s0 ensures x in s {
      var k :| 0 <= k < |init| && init[k].cellId == x;
      assert rows[k] == init[k];
    }
    forall k | 0 <= k < |init|
      ensures init[k].cellId != rows[|rows| - 1].cellId
    {
      assert init[k] == rows[k];
    }
  }

  /** Positions strictly increasing within 0..|rows|-1 are 0, 1, 2, ... */
  lemma StrictlyIncreasingIsIdentity(rows: seq<Row>)
    requires forall i, j :: 0 <= i < j < |rows| ==> rows[i].cell.index < rows[j].cell.index
    requires forall k :: 0 <= k < |rows| ==> 0 <= rows[k].cell.index < |rows|
    ensures forall k :: 0 <= k < |rows| ==> rows[k].cell.index == k
  {
    forall k | 0 <= k < |rows|
      ensures rows[k].cell.index == k
    {
      AtLeastPosition(rows, k);
      AtMostPosition(rows, k);
    }
  }

  lemma {:induction false} AtLeastPosition(rows: seq<Row>, k: int)
    requires forall i, j :: 0 <= i < j < |rows| ==> rows[i].cell.index < rows[j].cell.index
    requires forall k :: 0 <= k < |rows| ==> 0 <= rows[k].cell.index
    requires 0 <= k < |rows|
    ensures rows[k].cell.index >= k
  {
    if k > 0 {
      AtLeastPosition(rows, k - 1);
    }
  }

  lemma {:induction false} AtMostPosition(rows: seq<Row>, k: int)
    requires forall i, j :: 0 <= i < j < |rows| ==> rows[i].cell.index < rows[j].cell.index
    requires forall k :: 0 <= k < |rows| ==> rows[k].cell.index < |rows|
    requires 0 <= k < |rows|
    ensures rows[k].cell.index <= k
    decreases |rows| - k
  {
    if k < |rows| - 1 {
      AtMostPosition(rows, k + 1);
    }
  }
}
