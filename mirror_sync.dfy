/**
 * The server and the client-side copy kept in step (frontend/src/main.js):
 * every event a committed save fires is turned into a change for
 * updateNotebook — a cell update event as it is, a delete event with
 * `delete: true` added — while an outputs event only triggers a fetch of
 * the cell's outputs and changes nothing. With the move target read as
 * intended, replaying a save's events on a copy that agrees with the
 * server's notebook yields a copy that agrees with the notebook the save
 * left behind; the client as written does so unless the save moves a cell
 * to position 0.
 */
module MirrorSync {
  import opened Wrappers
  import opened JsonValue
  import opened CellIndex
  import opened CellStore
  import StoreProperties
  import opened NotebookMirror
  import MirrorProperties

  /** The change the client applies for one event, None for an outputs event. */
  function EventChange(e: Event): (r: Option<Change>)
    ensures r.Some? <==> !e.OutputsChanged?
    ensures e.CellDeleted? ==> r.value.cellId == e.cellId && IsDelete(r.value)
    ensures e.CellUpdated? ==> r.value.cellId == e.cellId && !IsDelete(r.value) && r.value.cellIndex == Some(e.cellIndex)
  {
    match e
    case CellDeleted(id, i) => Some(Change(id, Some(i), map["delete" := Bool(true)]))
    case CellUpdated(id, src, md, ty, i) =>
      Some(Change(id, Some(i), map["source" := Str(src), "metadata" := Obj(md), "cell_type" := Str(ty)]))
    case OutputsChanged(_, _, _) => None
  }

  /** The changes for a list of events, in order. */
  function EventChanges(evs: seq<Event>): (r: seq<Change>)
    ensures |r| <= |evs|
    decreases |evs|
  {
    if evs == [] then []
    else
      var head := if EventChange(evs[0]).Some? then [EventChange(evs[0]).value] else [];
      head + EventChanges(evs[1..])
  }

  lemma {:induction false} EventChangesAppend(xs: seq<Event>, ys: seq<Event>)
    ensures EventChanges(xs + ys) == EventChanges(xs) + EventChanges(ys)
    decreases |xs|
  {
    if xs == [] {
      assert xs + ys == ys;
    } else {
      assert (xs + ys)[0] == xs[0] && (xs + ys)[1..] == xs[1..] + ys;
      EventChangesAppend(xs[1..], ys);
    }
  }

  /** Outputs events alone turn into no change at all. */
  lemma {:induction false} OutputsOnly(evs: seq<Event>)
    requires forall i :: 0 <= i < |evs| ==> evs[i].OutputsChanged?
    ensures EventChanges(evs) == []
    decreases |evs|
  {
    if evs != [] {
      OutputsOnly(evs[1..]);
    }
  }

  /** The fields the server sends for a cell, as the copy holds them. */
  ghost predicate Shows(rest: Object, c: Cell)
  {
    && "source" in rest && rest["source"] == Str(c.source)
    && "metadata" in rest && rest["metadata"] == Obj(c.metadata)
    && "cell_type" in rest && rest["cell_type"] == Str(c.cellType)
  }

  /** The copy holds the server's cells, at the server's positions, with the server's source, metadata and cell type. */
  ghost predicate Corresponds(nb: Mirror, t: Table)
  {
    && nb.Keys == t.Keys
    && MIndexes(nb) == Indexes(t)
    && forall k :: k in t ==> Shows(nb[k].rest, t[k])
  }

  /** A patch that goes through fires one cell event first and outputs events after it. */
  lemma StepEvents(rev: Revision, t: Table, p: Patch, newId: string)
    requires Step(rev, t, p, newId).Success?
    ensures var evs := Step(rev, t, p, newId).value.1;
            && |evs| >= 1
            && !evs[0].OutputsChanged?
            && forall i :: 1 <= i < |evs| ==> evs[i].OutputsChanged?
  {
    if p.delete {
    } else if p.cellId.Some? && p.cellId.value in t {
      UpdateEvents(rev, t, p, p.cellId.value);
    } else {
      CreateEvents(rev, t, p, p.cellId.GetOr(newId));
    }
  }

  /** A cell event followed by outputs events only. */
  ghost predicate CellEventFirst(evs: seq<Event>)
  {
    |evs| >= 1 && !evs[0].OutputsChanged? && forall i :: 1 <= i < |evs| ==> evs[i].OutputsChanged?
  }

  lemma OneThenOutputs(e: Event, outEv: seq<Event>)
    requires !e.OutputsChanged? && |outEv| <= 1 && (outEv != [] ==> outEv[0].OutputsChanged?)
    ensures CellEventFirst([e] + outEv)
  {
  }

  lemma UpdateEvents(rev: Revision, t: Table, p: Patch, id: string)
    requires id in t
    ensures CellEventFirst(UpdateStep(rev, t, p, id).1)
  {
    var c := Updated(rev, t[id], p);
    var ev := CellUpdated(id, c.source, c.metadata, c.cellType, c.index);
    var outEv := if StoresOutputs(rev) && p.outputs.Some? then [OutputsChanged(OutputsEventName(rev), id, false)] else [];
    OneThenOutputs(ev, outEv);
    if p.cellIndex.Some? && p.cellIndex.value != c.index {
      var target := MoveTarget(p.cellIndex.value, MaxOf(Indexes(t[id := c])));
      OneThenOutputs(ev.(cellIndex := target), outEv);
    }
  }

  lemma CreateEvents(rev: Revision, t: Table, p: Patch, id: string)
    ensures CellEventFirst(CreateStep(rev, t, p, id).1)
  {
    var ci := CreateIndex(p.cellIndex, MaxOf(Indexes(t)));
    var c := NewCell(rev, p, ci.0);
    var outEv := if StoresOutputs(rev) && p.outputs.Some? && |p.outputs.value| > 0
                 then [OutputsChanged(OutputsEventName(rev), id, false)] else [];
    OneThenOutputs(CellUpdated(id, c.source, c.metadata, c.cellType, c.index), outEv);
  }

  lemma StepChanges(rev: Revision, t: Table, p: Patch, newId: string)
    requires Step(rev, t, p, newId).Success?
    ensures var evs := Step(rev, t, p, newId).value.1;
            EventChanges(evs) == [EventChange(evs[0]).value]
  {
    var evs := Step(rev, t, p, newId).value.1;
    StepEvents(rev, t, p, newId);
    assert evs == [evs[0]] + evs[1..];
    EventChangesAppend([evs[0]], evs[1..]);
    OutputsOnly(evs[1..]);
    assert EventChanges([evs[0]]) == [EventChange(evs[0]).value] by {
      assert [evs[0]][1..] == [];
    }
  }

  /** Replaying the delete event removes the cell from the copy as the server removed it. */
  lemma DeleteSync(rev: Revision, t: Table, p: Patch, newId: string, nb: Mirror, markModified: bool)
    requires p.delete && Step(rev, t, p, newId).Success?
    requires Dense(Indexes(t)) && Corresponds(nb, t)
    ensures Corresponds(ApplyChange(nb, EventChange(Step(rev, t, p, newId).value.1[0]).value, markModified), Step(rev, t, p, newId).value.0)
  {
    StoreProperties.DeleteOutcome(rev, t, p, newId);
    StoreProperties.DeleteEffect(rev, t, p, newId);
    var id := p.cellId.value;
    DeleteCore(nb, t, Step(rev, t, p, newId).value.0, id, markModified);
  }

  lemma DeleteCore(nb: Mirror, t: Table, r: Table, id: string, markModified: bool)
    requires Dense(Indexes(t)) && Corresponds(nb, t) && id in t
    requires r.Keys == t.Keys - {id} && Indexes(r) == Removed(Indexes(t), id)
    requires forall k :: k in r ==> StoreProperties.SameData(r[k], t[k])
    ensures Corresponds(ApplyChange(nb, EventChange(CellDeleted(id, t[id].index)).value, markModified), r)
  {
    var c := EventChange(CellDeleted(id, t[id].index)).value;
    MirrorProperties.MirrorDelete(nb, c, markModified);
  }

  /** Replaying the update event of a create inserts the cell into the copy where the server inserted it. */
  lemma CreateSync(rev: Revision, t: Table, p: Patch, newId: string, nb: Mirror, markModified: bool)
    requires !p.delete && (p.cellId.None? || p.cellId.value !in t)
    requires Step(rev, t, p, newId).Success?
    requires Dense(Indexes(t)) && StoreProperties.PlaceableIndex(p) && Corresponds(nb, t)
    ensures Corresponds(ApplyChange(nb, EventChange(Step(rev, t, p, newId).value.1[0]).value, markModified), Step(rev, t, p, newId).value.0)
  {
    var id := p.cellId.GetOr(newId);
    assert id !in t;
    StoreProperties.CreateEffect(rev, t, p, newId);
    var r := Step(rev, t, p, newId).value.0;
    CreateCore(nb, t, r, id, r[id].index, markModified);
  }

  lemma CreateCore(nb: Mirror, t: Table, r: Table, id: string, pos: int, markModified: bool)
    requires Dense(Indexes(t)) && Corresponds(nb, t) && id !in t && 0 <= pos <= |t|
    requires r.Keys == t.Keys + {id} && Indexes(r) == Inserted(Indexes(t), id, pos)
    requires forall k :: k in t ==> StoreProperties.SameData(r[k], t[k])
    ensures var cell := r[id];
            Corresponds(ApplyChange(nb, EventChange(CellUpdated(id, cell.source, cell.metadata, cell.cellType, pos)).value, markModified), r)
  {
    var cell := r[id];
    var c := EventChange(CellUpdated(id, cell.source, cell.metadata, cell.cellType, pos)).value;
    MirrorProperties.MirrorCreate(nb, c, markModified);
    var nb2 := ApplyChange(nb, c, markModified);
    assert nb2.Keys == r.Keys by {
      assert MIndexes(nb2).Keys == r.Keys;
    }
    forall k | k in r
      ensures Shows(nb2[k].rest, r[k])
    {
      if k == id {
        CreateShows(cell, c, markModified);
      } else {
        assert Shows(nb[k].rest, t[k]);
      }
    }
  }

  lemma CreateShows(cell: Cell, c: Change, markModified: bool)
    requires c.rest == map["source" := Str(cell.source), "metadata" := Obj(cell.metadata), "cell_type" := Str(cell.cellType)]
    ensures Shows(MirrorProperties.Mark(Defaults(c.cellId) + c.rest, markModified), cell)
  {
  }

  /** Replaying the update event of an update spreads the server's fields over the copy's cell and moves it where the server moved it. */
  lemma UpdateSync(rev: Revision, t: Table, p: Patch, newId: string, nb: Mirror, markModified: bool)
    requires !p.delete && p.cellId.Some? && p.cellId.value in t
    requires Dense(Indexes(t)) && Corresponds(nb, t)
    ensures Step(rev, t, p, newId).Success?
    ensures Corresponds(ApplyChange(nb, EventChange(Step(rev, t, p, newId).value.1[0]).value, markModified), Step(rev, t, p, newId).value.0)
  {
    var id := p.cellId.value;
    StoreProperties.UpdateEffect(rev, t, p, newId);
    var r := Step(rev, t, p, newId).value.0;
    if p.cellIndex.Some? {
      UpdatedIndexes(Indexes(t), Indexes(r), id, r[id].index, MoveTarget(p.cellIndex.value, |t| - 1));
    } else {
      assert Indexes(r) == Moved(Indexes(t), id, r[id].index);
    }
    UpdateCore(nb, t, r, id, markModified);
  }

  /** A move ends with the cell at the position it was moved to. */
  lemma UpdatedIndexes(m: Indexing, after: Indexing, id: string, target: int, v: int)
    requires id in m && id in after && after[id] == target
    requires after == Moved(m, id, v)
    ensures after == Moved(m, id, target)
  {
    assert Moved(m, id, v)[id] == v;
  }

  lemma UpdateCore(nb: Mirror, t: Table, r: Table, id: string, markModified: bool)
    requires Dense(Indexes(t)) && Corresponds(nb, t) && id in t
    requires r.Keys == t.Keys && Indexes(r) == Moved(Indexes(t), id, r[id].index)
    requires forall k :: k in t && k != id ==> StoreProperties.SameData(r[k], t[k])
    requires Dense(Indexes(r))
    ensures var cell := r[id];
            Corresponds(ApplyChange(nb, EventChange(CellUpdated(id, cell.source, cell.metadata, cell.cellType, cell.index)).value, markModified), r)
  {
    var cell := r[id];
    var c := EventChange(CellUpdated(id, cell.source, cell.metadata, cell.cellType, cell.index)).value;
    assert 0 <= cell.index < |nb| by {
      assert Indexes(r)[id] == cell.index;
    }
    MirrorProperties.MirrorUpdate(nb, c, markModified);
    var nb2 := ApplyChange(nb, c, markModified);
    assert nb2.Keys == r.Keys by {
      assert MIndexes(nb2).Keys == r.Keys;
    }
    forall k | k in r
      ensures Shows(nb2[k].rest, r[k])
    {
      if k == id {
        UpdateShows(nb[id].rest, cell, c, markModified);
      } else {
        assert Shows(nb[k].rest, t[k]);
      }
    }
  }

  lemma UpdateShows(prior: Object, cell: Cell, c: Change, markModified: bool)
    requires c.rest == map["source" := Str(cell.source), "metadata" := Obj(cell.metadata), "cell_type" := Str(cell.cellType)]
    ensures Shows(MirrorProperties.Mark(prior + c.rest, markModified), cell)
  {
  }

  /** Replaying the events of one committed patch keeps the copy in step with the server. */
  lemma StepSync(rev: Revision, t: Table, p: Patch, newId: string, nb: Mirror, markModified: bool)
    requires Step(rev, t, p, newId).Success?
    requires Dense(Indexes(t)) && StoreProperties.Placeable(t, p) && Corresponds(nb, t)
    ensures Corresponds(ApplyAll(nb, EventChanges(Step(rev, t, p, newId).value.1), markModified), Step(rev, t, p, newId).value.0)
  {
    var s := Step(rev, t, p, newId).value;
    StepChanges(rev, t, p, newId);
    FirstEventSync(rev, t, p, newId, nb, markModified);
    OneChangeSync(nb, s.1, s.0, markModified);
  }

  /** A list of events that turns into its first event's change alone has that change's effect. */
  lemma OneChangeSync(nb: Mirror, evs: seq<Event>, r: Table, markModified: bool)
    requires evs != [] && EventChange(evs[0]).Some?
    requires EventChanges(evs) == [EventChange(evs[0]).value]
    requires Corresponds(ApplyChange(nb, EventChange(evs[0]).value, markModified), r)
    ensures Corresponds(ApplyAll(nb, EventChanges(evs), markModified), r)
  {
    MirrorProperties.ApplyOne(nb, EventChange(evs[0]).value, markModified);
  }

  lemma FirstEventSync(rev: Revision, t: Table, p: Patch, newId: string, nb: Mirror, markModified: bool)
    requires Step(rev, t, p, newId).Success?
    requires Dense(Indexes(t)) && StoreProperties.Placeable(t, p) && Corresponds(nb, t)
    ensures Step(rev, t, p, newId).value.1 != []
    ensures EventChange(Step(rev, t, p, newId).value.1[0]).Some?
    ensures Corresponds(ApplyChange(nb, EventChange(Step(rev, t, p, newId).value.1[0]).value, markModified), Step(rev, t, p, newId).value.0)
  {
    StepEvents(rev, t, p, newId);
    if p.delete {
      DeleteSync(rev, t, p, newId, nb, markModified);
    } else if p.cellId.Some? && p.cellId.value in t {
      UpdateSync(rev, t, p, newId, nb, markModified);
    } else {
      CreateSync(rev, t, p, newId, nb, markModified);
    }
  }

  /**
   * A client whose copy agrees with the server's notebook, replaying the
   * events of a committed save in the order they are fired, ends up with a
   * copy that agrees with the notebook the save left behind.
   */
  lemma {:induction false} SaveSync(rev: Revision, t: Table, ps: seq<Patch>, newIds: seq<string>, nb: Mirror, markModified: bool)
    requires |newIds| == |ps| && Dense(Indexes(t)) && Corresponds(nb, t)
    requires StoreProperties.AllPlaceable(rev, t, ps, newIds)
    requires SaveBatch(rev, t, ps, newIds).Success?
    ensures var r := SaveBatch(rev, t, ps, newIds).value;
            Corresponds(ApplyAll(nb, EventChanges(r.1), markModified), r.0)
    decreases |ps|
  {
    if ps != [] {
      var s := Step(rev, t, ps[0], newIds[0]).value;
      StepSync(rev, t, ps[0], newIds[0], nb, markModified);
      StoreProperties.StepKeepsDense(rev, t, ps[0], newIds[0]);
      var nb1 := ApplyAll(nb, EventChanges(s.1), markModified);
      SaveSync(rev, s.0, ps[1..], newIds[1..], nb1, markModified);
      var rest := SaveBatch(rev, s.0, ps[1..], newIds[1..]).value;
      assert SaveBatch(rev, t, ps, newIds).value == (rest.0, s.1 + rest.1);
      EventChangesAppend(s.1, rest.1);
      MirrorProperties.ApplyAllAppend(nb, EventChanges(s.1), EventChanges(rest.1), markModified);
    }
  }

  // ---------------------------------------------------------------------
  // The client as written: `c.cell_index || old`
  // ---------------------------------------------------------------------

  /** An update moving a cell to position 0 from another position: its event carries cell_index 0. */
  predicate ServerMovesToTop(t: Table, p: Patch)
  {
    !p.delete && p.cellId.Some? && p.cellId.value in t && p.cellIndex == Some(0) && t[p.cellId.value].index != 0
  }

  /** No patch of the batch moves a cell to the top, each judged against the table the patches before it left. */
  ghost predicate NoServerTopMoves(rev: Revision, t: Table, ps: seq<Patch>, newIds: seq<string>)
    requires |newIds| == |ps|
    decreases |ps|
  {
    ps == [] ||
    (!ServerMovesToTop(t, ps[0]) &&
     (Step(rev, t, ps[0], newIds[0]).Success? ==> NoServerTopMoves(rev, Step(rev, t, ps[0], newIds[0]).value.0, ps[1..], newIds[1..])))
  }

  /** Unless the patch moves a cell to the top, its event is no move to the top on a copy in step with the server. */
  lemma FirstEventNotTop(rev: Revision, t: Table, p: Patch, newId: string, nb: Mirror)
    requires Step(rev, t, p, newId).Success?
    requires Dense(Indexes(t)) && Corresponds(nb, t) && !ServerMovesToTop(t, p)
    ensures Step(rev, t, p, newId).value.1 != []
    ensures EventChange(Step(rev, t, p, newId).value.1[0]).Some?
    ensures !MirrorProperties.MovesToTop(nb, EventChange(Step(rev, t, p, newId).value.1[0]).value)
  {
    StepEvents(rev, t, p, newId);
    if !p.delete && p.cellId.Some? && p.cellId.value in t {
      UpdateEventNotTop(rev, t, p, newId);
      assert MIndexes(nb)[p.cellId.value] == Indexes(t)[p.cellId.value];
    }
  }

  /** The event of an update that is no move to the top reports position 0 only for a cell already there. */
  lemma UpdateEventNotTop(rev: Revision, t: Table, p: Patch, newId: string)
    requires !p.delete && p.cellId.Some? && p.cellId.value in t
    requires Dense(Indexes(t)) && !ServerMovesToTop(t, p)
    ensures Step(rev, t, p, newId).Success? && Step(rev, t, p, newId).value.1 != []
    ensures Step(rev, t, p, newId).value.1[0].CellUpdated? && Step(rev, t, p, newId).value.1[0].cellId == p.cellId.value
    ensures Step(rev, t, p, newId).value.1[0].cellIndex == 0 ==> t[p.cellId.value].index == 0
  {
    var id := p.cellId.value;
    assert Step(rev, t, p, newId) == Success(UpdateStep(rev, t, p, id));
    StoreProperties.UpdateStepEffect(rev, t, p, id);
    StoreProperties.IndexBounds(t, id);
  }

  /**
   * The client as written stays in step with the server over one patch,
   * unless the patch moves a cell to the top.
   */
  lemma StepSyncAsWritten(rev: Revision, t: Table, p: Patch, newId: string, nb: Mirror, markModified: bool)
    requires Step(rev, t, p, newId).Success?
    requires Dense(Indexes(t)) && StoreProperties.Placeable(t, p) && Corresponds(nb, t)
    requires !ServerMovesToTop(t, p)
    ensures Corresponds(ApplyAllAsWritten(nb, EventChanges(Step(rev, t, p, newId).value.1), markModified), Step(rev, t, p, newId).value.0)
  {
    var evs := Step(rev, t, p, newId).value.1;
    StepSync(rev, t, p, newId, nb, markModified);
    StepChanges(rev, t, p, newId);
    FirstEventNotTop(rev, t, p, newId, nb);
    var ch := EventChange(evs[0]).value;
    MirrorProperties.AsWrittenElsewhere(nb, ch, markModified);
    MirrorProperties.ApplyOne(nb, ch, markModified);
    MirrorProperties.ApplyOneAsWritten(nb, ch, markModified);
  }

  /**
   * A patch that moves a cell to the top puts the client as written out of
   * step: the cell lands at 0 without the cells before it moving up.
   */
  lemma TopMoveDesyncs(rev: Revision, t: Table, p: Patch, newId: string, nb: Mirror, markModified: bool)
    requires Dense(Indexes(t)) && Corresponds(nb, t) && ServerMovesToTop(t, p)
    ensures Step(rev, t, p, newId).Success?
    ensures !Corresponds(ApplyAllAsWritten(nb, EventChanges(Step(rev, t, p, newId).value.1), markModified), Step(rev, t, p, newId).value.0)
  {
    var id := p.cellId.value;
    StoreProperties.UpdateEffect(rev, t, p, newId);
    StoreProperties.IndexBounds(t, id);
    var s := Step(rev, t, p, newId).value;
    assert Moved(Indexes(t), id, 0)[id] == 0;
    assert s.0[id].index == Indexes(s.0)[id];
    StepChanges(rev, t, p, newId);
    var ch := EventChange(s.1[0]).value;
    assert ch.cellId == id && ch.cellIndex == Some(0);
    assert MIndexes(nb)[id] == Indexes(t)[id];
    MirrorProperties.MoveToTopBreaksDensity(nb, ch, markModified);
    MirrorProperties.ApplyOneAsWritten(nb, ch, markModified);
  }

  /**
   * The client as written, replaying the events of a committed save on a
   * copy in step with the server, stays in step unless some patch of the
   * save moves a cell to the top.
   */
  lemma {:induction false} SaveSyncAsWritten(rev: Revision, t: Table, ps: seq<Patch>, newIds: seq<string>, nb: Mirror, markModified: bool)
    requires |newIds| == |ps| && Dense(Indexes(t)) && Corresponds(nb, t)
    requires StoreProperties.AllPlaceable(rev, t, ps, newIds) && NoServerTopMoves(rev, t, ps, newIds)
    requires SaveBatch(rev, t, ps, newIds).Success?
    ensures var r := SaveBatch(rev, t, ps, newIds).value;
            Corresponds(ApplyAllAsWritten(nb, EventChanges(r.1), markModified), r.0)
    decreases |ps|
  {
    if ps != [] {
      var s := Step(rev, t, ps[0], newIds[0]).value;
      StepSyncAsWritten(rev, t, ps[0], newIds[0], nb, markModified);
      StoreProperties.StepKeepsDense(rev, t, ps[0], newIds[0]);
      var nb1 := ApplyAllAsWritten(nb, EventChanges(s.1), markModified);
      SaveSyncAsWritten(rev, s.0, ps[1..], newIds[1..], nb1, markModified);
      var rest := SaveBatch(rev, s.0, ps[1..], newIds[1..]).value;
      assert SaveBatch(rev, t, ps, newIds).value == (rest.0, s.1 + rest.1);
      EventChangesAppend(s.1, rest.1);
      MirrorProperties.ApplyAllAsWrittenAppend(nb, EventChanges(s.1), EventChanges(rest.1), markModified);
    }
  }
}
