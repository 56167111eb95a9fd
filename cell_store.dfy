/**
 * The ordered cell store of one notebook: the rows of the notebook_cells
 * table that belong to one object, keyed by cell id, and the batch save
 * (save_notebook_modifications) in the three revisions of the plugin:
 * backend/main.py (Backend), main.py (Main) and assets/main.py (Assets).
 * Also the output operations (notebook_cell_outputs,
 * notebook_cell_output_clear), the reads (read_notebook, read_cell) and the
 * outputs guard of the POST /notebook route.
 *
 * A batch runs inside one database transaction: every patch writes to the
 * working table, and the table is committed once at the end; an exception
 * in any patch leaves the stored table as it was and fires no event.
 */
module CellStore {
  import opened Wrappers
  import opened JsonValue
  import opened CellIndex
  import OutputNormalizer

  /** The three revisions of the server code. */
  datatype Revision = Backend | Main | Assets

  /** The assets/main.py revision neither stores `outputs` on save nor reports them. */
  predicate StoresOutputs(rev: Revision)
  {
    rev != Assets
  }

  /** Name of the outputs event: main.py and assets/main.py say "notebook_cell_output". */
  function OutputsEventName(rev: Revision): string
  {
    if rev == Backend then "notebook_cell_outputs" else "notebook_cell_output"
  }

  /** One row of notebook_cells (the object id is implicit). */
  datatype Cell = Cell(index: int, source: string, metadata: Object, cellType: string, outputs: seq<Json>)

  type Table = map<string, Cell>

  /** One element of the JSON array a client posts: each key may be absent. */
  datatype Patch = Patch(
    delete: bool,               // "delete" in cell and cell["delete"] is truthy
    cellId: Option<string>,
    cellIndex: Option<int>,
    source: Option<string>,
    metadata: Option<Object>,
    cellType: Option<string>,
    outputs: Option<seq<Json>>)

  /** The events fired after the commit (the object id they also carry is left implicit). */
  datatype Event =
    | CellDeleted(cellId: string, cellIndex: int)
    | CellUpdated(cellId: string, source: string, metadata: Object, cellType: string, cellIndex: int)
    | OutputsChanged(name: string, cellId: string, cleared: bool)

  /** Why a batch aborts: KeyError on a delete without cell_id, TypeError on a delete of an unknown cell, a primary-key clash on INSERT. */
  datatype SaveError = MissingCellId | UnknownCell(cellId: string) | DuplicateCell(cellId: string)

  /** The positions of the table's cells. */
  function Indexes(t: Table): (m: Indexing)
    ensures m.Keys == t.Keys
  {
    map k | k in t :: t[k].index
  }

  /** `UPDATE ... SET cell_index=cell_index+d WHERE cell_index>=lo`. */
  function ShiftCellsFrom(t: Table, lo: int, d: int): (r: Table)
    ensures r.Keys == t.Keys
    ensures Indexes(r) == ShiftFrom(Indexes(t), lo, d)
    ensures forall k :: k in t ==> r[k] == t[k].(index := r[k].index)
  {
    map k | k in t :: t[k].(index := From(t[k].index, lo, d))
  }

  /** `UPDATE ... SET cell_index=cell_index+d WHERE cell_index>=lo AND cell_index<hi`. */
  function ShiftCellsWithin(t: Table, lo: int, hi: int, d: int): (r: Table)
    ensures r.Keys == t.Keys
    ensures Indexes(r) == ShiftWithin(Indexes(t), lo, hi, d)
    ensures forall k :: k in t ==> r[k] == t[k].(index := r[k].index)
  {
    map k | k in t :: t[k].(index := Within(t[k].index, lo, hi, d))
  }

  // ---------------------------------------------------------------------
  // One patch
  // ---------------------------------------------------------------------

  /** Delete (backend/main.py:78-108): the row goes, later rows move down, the event carries the old index. */
  function DeleteStep(t: Table, p: Patch): Result<(Table, seq<Event>), SaveError>
  {
    if p.cellId.None? then Failure(MissingCellId)
    else if p.cellId.value !in t then Failure(UnknownCell(p.cellId.value))
    else
      var id := p.cellId.value;
      var index := t[id].index;
      Success((ShiftCellsFrom(t - {id}, index + 1, -1), [CellDeleted(id, index)]))
  }

  /**
   * The index a create resolves to given COALESCE(max(cell_index),-1), and
   * whether the cells from that index on first move up.
   */
  function CreateIndex(requested: Option<int>, maxIndex: int): (r: (int, bool))
  {
    var index := requested.GetOr(-1);
    if index == -1 || index > maxIndex + 1 then (maxIndex + 1, false)
    else if index <= maxIndex then (index, true)
    else (index, false)
  }

  /** The row a create inserts: the patch's fields over the defaults. */
  function NewCell(rev: Revision, p: Patch, index: int): Cell
  {
    Cell(index, p.source.GetOr(""), p.metadata.GetOr(map[]), p.cellType.GetOr("code"),
         if StoresOutputs(rev) then p.outputs.GetOr([]) else [])
  }

  /** Create (backend/main.py:112-195) under id, which the table does not hold. */
  ghost function CreateStep(rev: Revision, t: Table, p: Patch, id: string): (Table, seq<Event>)
  {
    var ci := CreateIndex(p.cellIndex, MaxOf(Indexes(t)));
    var t1 := if ci.1 then ShiftCellsFrom(t, ci.0, 1) else t;
    var c := NewCell(rev, p, ci.0);
    var ev := [CellUpdated(id, c.source, c.metadata, c.cellType, c.index)];
    var outEv := if StoresOutputs(rev) && p.outputs.Some? && |p.outputs.value| > 0
                 then [OutputsChanged(OutputsEventName(rev), id, false)] else [];
    (t1[id := c], ev + outEv)
  }

  /** The row after `UPDATE ... SET <present fields>`: only the fields present in the patch change. */
  function Updated(rev: Revision, c: Cell, p: Patch): Cell
  {
    c.(source := p.source.GetOr(c.source),
       metadata := p.metadata.GetOr(c.metadata),
       cellType := p.cellType.GetOr(c.cellType),
       outputs := if StoresOutputs(rev) && p.outputs.Some? then p.outputs.value else c.outputs)
  }

  /** A move target outside 0..max becomes max: the end of the notebook. */
  function MoveTarget(requested: int, maxIndex: int): int
  {
    if requested < 0 || requested > maxIndex then maxIndex else requested
  }

  /** Move the cell id to target: the range between its position and target shifts by one towards the gap. */
  function MoveCell(t: Table, id: string, target: int): Table
    requires id in t
  {
    var cur := t[id].index;
    var t1 := if target > cur then ShiftCellsWithin(t, cur + 1, target + 1, -1)
              else ShiftCellsWithin(t, target, cur, 1);
    t1[id := t[id].(index := target)]
  }

  /** Update and move of the known cell id (backend/main.py:196-294). */
  ghost function UpdateStep(rev: Revision, t: Table, p: Patch, id: string): (Table, seq<Event>)
    requires id in t
  {
    var c := Updated(rev, t[id], p);
    var t1 := t[id := c];
    var ev := CellUpdated(id, c.source, c.metadata, c.cellType, c.index);
    var outEv := if StoresOutputs(rev) && p.outputs.Some? then [OutputsChanged(OutputsEventName(rev), id, false)] else [];
    if p.cellIndex.Some? && p.cellIndex.value != c.index then
      var target := MoveTarget(p.cellIndex.value, MaxOf(Indexes(t1)));
      if target != c.index then (MoveCell(t1, id, target), [ev.(cellIndex := target)] + outEv)
      else (t1, [ev] + outEv)
    else (t1, [ev] + outEv)
  }

  /**
   * One patch of the batch. `newId` is the uuid4 hex the source draws for a
   * patch without cell_id.
   */
  ghost function Step(rev: Revision, t: Table, p: Patch, newId: string): Result<(Table, seq<Event>), SaveError>
  {
    if p.delete then DeleteStep(t, p)
    else if p.cellId.Some? && p.cellId.value in t then Success(UpdateStep(rev, t, p, p.cellId.value))
    else
      var id := p.cellId.GetOr(newId);
      if id in t then Failure(DuplicateCell(id))
      else Success(CreateStep(rev, t, p, id))
  }

  /** Prefix the events already collected to the outcome of the rest of the batch. */
  function After(events: seq<Event>, r: Result<(Table, seq<Event>), SaveError>): Result<(Table, seq<Event>), SaveError>
  {
    match r
    case Failure(e) => Failure(e)
    case Success(v) => Success((v.0, events + v.1))
  }

  /** The whole batch, patch by patch; the first failure aborts it. */
  ghost function SaveBatch(rev: Revision, t: Table, ps: seq<Patch>, newIds: seq<string>): Result<(Table, seq<Event>), SaveError>
    requires |newIds| == |ps|
    decreases |ps|
  {
    if ps == [] then Success((t, []))
    else
      match Step(rev, t, ps[0], newIds[0])
      case Failure(e) => Failure(e)
      case Success(v) => After(v.1, SaveBatch(rev, v.0, ps[1..], newIds[1..]))
  }

  lemma AfterAfter(e1: seq<Event>, e2: seq<Event>, r: Result<(Table, seq<Event>), SaveError>)
    ensures After(e1, After(e2, r)) == After(e1 + e2, r)
  {
    if r.Success? {
      assert e1 + (e2 + r.value.1) == (e1 + e2) + r.value.1;
    }
  }

  // ---------------------------------------------------------------------
  // Stream outputs
  // ---------------------------------------------------------------------

  /** Why notebook_cell_outputs raises: KeyError on name or text, TypeError on a non-string text, IndexError from fixlines(""). */
  datatype OutputError = MissingName | MissingText | NotText | EmptyText

  predicate IsStream(data: Object)
  {
    "output_type" in data && data["output_type"] == Str("stream")
  }

  /** An output record that the SELECT of notebook_cell_outputs finds for stream name `name`. */
  predicate StreamNamed(j: Json, name: Json)
  {
    && j.Obj?
    && "output_type" in j.fields && j.fields["output_type"] == Str("stream")
    && "name" in j.fields && j.fields["name"] == name
  }

  /** Position of the first stream record named `name`. */
  function FirstStream(outs: seq<Json>, name: Json): (r: Option<nat>)
    ensures r.Some? ==> r.value < |outs| && StreamNamed(outs[r.value], name)
                        && forall i :: 0 <= i < r.value ==> !StreamNamed(outs[i], name)
    ensures r.None? ==> forall i :: 0 <= i < |outs| ==> !StreamNamed(outs[i], name)
    decreases |outs|
  {
    if outs == [] then None
    else if StreamNamed(outs[0], name) then Some(0)
    else match FirstStream(outs[1..], name)
      case None => None
      case Some(k) => Some(k + 1)
  }

  /** The text of a JSON value when it is a string. */
  function TextOf(j: Option<Json>): Option<string>
  {
    if j.Some? && j.value.Str? then Some(j.value.s) else None
  }

  function Lookup(o: Object, key: string): Option<Json>
  {
    if key in o then Some(o[key]) else None
  }

  /**
   * The outputs array after notebook_cell_outputs of backend/main.py:
   * a stream record whose name already has a stream record extends that
   * record's text through fixlines; any other record is appended, a stream
   * record with its text passed through fixlines.
   */
  function Coalesced(outs: seq<Json>, data: Object): Result<seq<Json>, OutputError>
  {
    if !IsStream(data) then Success(outs + [Obj(data)])
    else if "name" !in data then Failure(MissingName)
    else if "text" !in data then Failure(MissingText)
    else
      var k := FirstStream(outs, data["name"]);
      var add := TextOf(Some(data["text"]));
      if k.Some? then
        var prior := TextOf(Lookup(outs[k.value].fields, "text"));
        if prior.None? || add.None? then Failure(NotText)
        else
          var full := OutputNormalizer.FixedLines(prior.value + add.value);
          if full.None? then Failure(EmptyText)
          else Success(outs[k.value := Obj(outs[k.value].fields["text" := Str(full.value)])])
      else if add.None? then Failure(NotText)
      else
        var full := OutputNormalizer.FixedLines(add.value);
        if full.None? then Failure(EmptyText)
        else Success(outs + [Obj(data["text" := Str(full.value)])])
  }

  /** What notebook_cell_outputs does to the outputs array in each revision. */
  function AppendedOutputs(rev: Revision, outs: seq<Json>, data: Object): Result<seq<Json>, OutputError>
  {
    if rev == Backend then Coalesced(outs, data) else Success(outs + [Obj(data)])
  }

  // ---------------------------------------------------------------------
  // Reading
  // ---------------------------------------------------------------------

  datatype Row = Row(cellId: string, cell: Cell)

  /** `rows` lists every cell of t exactly once, in ascending cell_index order. */
  ghost predicate Listing(t: Table, rows: seq<Row>)
  {
    && (forall k :: 0 <= k < |rows| ==> rows[k].cellId in t && t[rows[k].cellId] == rows[k].cell)
    && (forall i, j :: 0 <= i < j < |rows| ==> rows[i].cellId != rows[j].cellId)
    && (forall id :: id in t ==> exists k :: 0 <= k < |rows| && rows[k].cellId == id)
    && (forall i, j :: 0 <= i < j < |rows| ==> rows[i].cell.index <= rows[j].cell.index)
  }

  // ---------------------------------------------------------------------
  // The route guard
  // ---------------------------------------------------------------------

  datatype RouteError = OutputsNotPermitted | SaveFailed(error: SaveError)

  /** Some patch carries non-empty outputs. */
  predicate SetsOutputs(ps: seq<Patch>)
  {
    exists i :: 0 <= i < |ps| && ps[i].outputs.Some? && |ps[i].outputs.value| > 0
  }

  /** Whether the revision's POST /notebook refuses the batch (assets/main.py has no guard). */
  predicate Refused(rev: Revision, ps: seq<Patch>)
  {
    rev != Assets && SetsOutputs(ps)
  }

  // ---------------------------------------------------------------------
  // The store
  // ---------------------------------------------------------------------

  class NotebookStore {
    /** The committed rows of the notebook. */
    var cells: Table
    const rev: Revision

    constructor(rev: Revision)
      ensures this.rev == rev && cells == map[]
    {
      this.rev := rev;
      cells := map[];
    }

    /** SELECT COALESCE(max(cell_index),-1) over a working table. */
    static method MaxIndexOf(t: Table) returns (m: int)
      ensures m == MaxOf(Indexes(t))
    {
      m := -1;
      var keys := t.Keys;
      var found := false;
      while keys != {}
        invariant keys <= t.Keys
        invariant forall k :: k in t && k !in keys ==> t[k].index <= m
        invariant found ==> exists k :: k in t && k !in keys && t[k].index == m
        invariant !found ==> m == -1 && keys == t.Keys
        decreases |keys|
      {
        var k :| k in keys;
        if !found || t[k].index > m {
          m := t[k].index;
        }
        found := true;
        keys := keys - {k};
      }
      if found {
        MaxOfUnique(Indexes(t), m);
      } else {
        assert Indexes(t) == map[];
      }
    }

    /** One iteration of the batch loop of save_notebook_modifications on the working table t. */
    method ApplyPatch(t: Table, p: Patch, newId: string) returns (r: Result<(Table, seq<Event>), SaveError>)
      ensures r == Step(rev, t, p, newId)
    {
      if p.delete {
        r := DeletePatch(t, p);
      } else if p.cellId.Some? && p.cellId.value in t {
        var u := UpdatePatch(t, p, p.cellId.value);
        r := Success(u);
      } else {
        var id := if p.cellId.Some? then p.cellId.value else newId;
        r := CreatePatch(t, p, id);
      }
    }

    /** The delete branch: find the row's index, delete it, close the gap. */
    static method DeletePatch(t: Table, p: Patch) returns (r: Result<(Table, seq<Event>), SaveError>)
      ensures r == DeleteStep(t, p)
    {
      if p.cellId.None? {
        return Failure(MissingCellId);
      }
      var id := p.cellId.value;
      if id !in t {
        return Failure(UnknownCell(id));
      }
      var index := t[id].index;
      var t1 := ShiftCellsFrom(t - {id}, index + 1, -1);
      return Success((t1, [CellDeleted(id, index)]));
    }

    /** The create branch: resolve the index against the current maximum, open a gap if needed, insert. */
    method CreatePatch(t: Table, p: Patch, id: string) returns (r: Result<(Table, seq<Event>), SaveError>)
      ensures id in t ==> r == Failure(DuplicateCell(id))
      ensures id !in t ==> r == Success(CreateStep(rev, t, p, id))
    {
      var maxIndex := MaxIndexOf(t);
      var index := p.cellIndex.GetOr(-1);
      ghost var ci := CreateIndex(p.cellIndex, maxIndex);
      var t1 := t;
      if index == -1 || index > maxIndex + 1 {
        index := maxIndex + 1;
      } else if index <= maxIndex {
        t1 := ShiftCellsFrom(t, index, 1);
      }
      assert index == ci.0 && t1 == if ci.1 then ShiftCellsFrom(t, ci.0, 1) else t;
      if id in t1 {
        return Failure(DuplicateCell(id));
      }
      var c := NewCell(rev, p, index);
      var outEvents: seq<Event> := [];
      if StoresOutputs(rev) && p.outputs.Some? && |p.outputs.value| > 0 {
        outEvents := [OutputsChanged(OutputsEventName(rev), id, false)];
      }
      return Success((t1[id := c], [CellUpdated(id, c.source, c.metadata, c.cellType, index)] + outEvents));
    }

    /** The update branch: write the fields present, then move the cell if a new index was asked for. */
    /** The `SET` clause: each field the patch carries overwrites the row's. */
    method SetFields(c0: Cell, p: Patch) returns (c: Cell)
      ensures c == Updated(rev, c0, p)
    {
      c := c0;
      if p.source.Some? {
        c := c.(source := p.source.value);
      }
      if p.metadata.Some? {
        c := c.(metadata := p.metadata.value);
      }
      if p.cellType.Some? {
        c := c.(cellType := p.cellType.value);
      }
      if StoresOutputs(rev) && p.outputs.Some? {
        c := c.(outputs := p.outputs.value);
      }
    }

    method UpdatePatch(t: Table, p: Patch, id: string) returns (r: (Table, seq<Event>))
      requires id in t
      ensures r == UpdateStep(rev, t, p, id)
    {
      var c := SetFields(t[id], p);
      var t1 := t[id := c];
      var ev := CellUpdated(id, c.source, c.metadata, c.cellType, c.index);
      if p.cellIndex.Some? && p.cellIndex.value != c.index {
        var target := p.cellIndex.value;
        var maxIndex := MaxIndexOf(t1);
        if target < 0 || target > maxIndex {
          target := maxIndex;
        }
        if target != c.index {
          t1 := MoveCell(t1, id, target);
          ev := ev.(cellIndex := target);
        }
      }
      var outEvents: seq<Event> := [];
      if StoresOutputs(rev) && p.outputs.Some? {
        outEvents := [OutputsChanged(OutputsEventName(rev), id, false)];
      }
      return (t1, [ev] + outEvents);
    }

    /**
     * save_notebook_modifications (backend/main.py:63-301): the patches in
     * order on a working table, one commit at the end, the events only when
     * the whole batch went through.
     */
    method Save(ps: seq<Patch>, newIds: seq<string>) returns (r: Result<seq<Event>, SaveError>)
      requires |newIds| == |ps|
      modifies this
      ensures SaveBatch(rev, old(cells), ps, newIds).Failure? ==> r.Failure? && r.error == SaveBatch(rev, old(cells), ps, newIds).error
      ensures SaveBatch(rev, old(cells), ps, newIds).Success? ==> r == Success(SaveBatch(rev, old(cells), ps, newIds).value.1)
      ensures r.Success? ==> cells == SaveBatch(rev, old(cells), ps, newIds).value.0
      ensures r.Failure? ==> cells == old(cells)
    {
      var work := cells;
      var events: seq<Event> := [];
      var i := 0;
      assert ps[0..] == ps && newIds[0..] == newIds;
      AfterNothing(SaveBatch(rev, work, ps, newIds));
      while i < |ps|
        invariant 0 <= i <= |ps|
        invariant cells == old(cells)
        invariant SaveBatch(rev, cells, ps, newIds) == After(events, SaveBatch(rev, work, ps[i..], newIds[i..]))
      {
        var step := ApplyPatch(work, ps[i], newIds[i]);
        SaveBatchUnfold(rev, work, ps, newIds, i, events, step);
        if step.Failure? {
          return Failure(step.error);
        }
        work := step.value.0;
        events := events + step.value.1;
        i := i + 1;
      }
      assert events + [] == events;
      cells := work;
      return Success(events);
    }

    /**
     * POST /notebook: the revisions with the guard refuse the whole batch,
     * before any write, when a patch carries non-empty outputs
     * (backend/main.py:510-514, main.py:432-436).
     */
    method UpdateNotebook(ps: seq<Patch>, newIds: seq<string>) returns (r: Result<seq<Event>, RouteError>)
      requires |newIds| == |ps|
      modifies this
      ensures Refused(rev, ps) <==> r == Failure(OutputsNotPermitted)
      ensures Refused(rev, ps) ==> cells == old(cells)
      ensures !Refused(rev, ps) && SaveBatch(rev, old(cells), ps, newIds).Success? ==>
                r == Success(SaveBatch(rev, old(cells), ps, newIds).value.1) && cells == SaveBatch(rev, old(cells), ps, newIds).value.0
      ensures !Refused(rev, ps) && SaveBatch(rev, old(cells), ps, newIds).Failure? ==>
                r == Failure(SaveFailed(SaveBatch(rev, old(cells), ps, newIds).error)) && cells == old(cells)
    {
      if rev != Assets {
        var i := 0;
        while i < |ps|
          invariant 0 <= i <= |ps|
          invariant forall j :: 0 <= j < i ==> !(ps[j].outputs.Some? && |ps[j].outputs.value| > 0)
        {
          if ps[i].outputs.Some? && |ps[i].outputs.value| > 0 {
            return Failure(OutputsNotPermitted);
          }
          i := i + 1;
        }
      }
      var s := Save(ps, newIds);
      if s.Failure? {
        return Failure(SaveFailed(s.error));
      }
      return Success(s.value);
    }

    /** Scan for the first stream record named `name` (the SELECT over json_each). */
    static method FindStream(outs: seq<Json>, name: Json) returns (r: Option<nat>)
      ensures r == FirstStream(outs, name)
    {
      var i := 0;
      while i < |outs|
        invariant 0 <= i <= |outs|
        invariant forall j :: 0 <= j < i ==> !StreamNamed(outs[j], name)
      {
        if StreamNamed(outs[i], name) {
          FirstStreamAt(outs, name, i);
          return Some(i);
        }
        i := i + 1;
      }
      FirstStreamNone(outs, name);
      return None;
    }

    /**
     * notebook_cell_outputs: record `data` in the outputs of cell cellId.
     * A cell that does not exist is left alone, but the text checks still
     * run and the event is still fired.
     */
    method AppendOutput(cellId: string, data: Object) returns (r: Result<Event, OutputError>)
      modifies this
      ensures var outs := if cellId in old(cells) then old(cells)[cellId].outputs else [];
              match AppendedOutputs(rev, outs, data)
              case Failure(e) => r == Failure(e) && cells == old(cells)
              case Success(n) =>
                && r == Success(OutputsChanged(OutputsEventName(rev), cellId, false))
                && cells == if cellId in old(cells) then old(cells)[cellId := old(cells)[cellId].(outputs := n)] else old(cells)
    {
      var outs := if cellId in cells then cells[cellId].outputs else [];
      var n: seq<Json>;
      if rev == Backend && IsStream(data) {
        if "name" !in data {
          return Failure(MissingName);
        }
        var k := FindStream(outs, data["name"]);
        if k.Some? {
          if "text" !in data {
            return Failure(MissingText);
          }
          var prior := TextOf(Lookup(outs[k.value].fields, "text"));
          var add := TextOf(Some(data["text"]));
          if prior.None? || add.None? {
            return Failure(NotText);
          }
          var full := OutputNormalizer.FixLines(prior.value + add.value);
          if full.None? {
            return Failure(EmptyText);
          }
          n := outs[k.value := Obj(outs[k.value].fields["text" := Str(full.value)])];
        } else {
          if "text" !in data {
            return Failure(MissingText);
          }
          var add := TextOf(Some(data["text"]));
          if add.None? {
            return Failure(NotText);
          }
          var full := OutputNormalizer.FixLines(add.value);
          if full.None? {
            return Failure(EmptyText);
          }
          n := outs + [Obj(data["text" := Str(full.value)])];
        }
      } else {
        n := outs + [Obj(data)];
      }
      if cellId in cells {
        cells := cells[cellId := cells[cellId].(outputs := n)];
      }
      return Success(OutputsChanged(OutputsEventName(rev), cellId, false));
    }

    /** notebook_cell_output_clear: outputs become [] and nothing else changes; backend/main.py's event also carries the empty list. */
    method ClearOutputs(cellId: string) returns (e: Event)
      modifies this
      ensures cellId in old(cells) ==> cells == old(cells)[cellId := old(cells)[cellId].(outputs := [])]
      ensures cellId !in old(cells) ==> cells == old(cells)
      ensures e == OutputsChanged(OutputsEventName(rev), cellId, rev == Backend)
    {
      if cellId in cells {
        cells := cells[cellId := cells[cellId].(outputs := [])];
      }
      e := OutputsChanged(OutputsEventName(rev), cellId, rev == Backend);
    }

    /** read_cell: the row of cellId, None when there is none. */
    function ReadCell(cellId: string): (r: Option<Row>)
      reads this
      ensures r.Some? <==> cellId in cells
      ensures r.Some? ==> r.value.cellId == cellId && r.value.cell == cells[cellId]
    {
      if cellId in cells then Some(Row(cellId, cells[cellId])) else None
    }

    /** The cell of least index among the ids in `keys`. */
    static method LeastIndex(t: Table, keys: set<string>) returns (id: string)
      requires keys != {} && keys <= t.Keys
      ensures id in keys && forall k :: k in keys ==> t[id].index <= t[k].index
    {
      var rest := keys;
      id :| id in rest;
      rest := rest - {id};
      while rest != {}
        invariant rest <= keys && id in keys
        invariant forall k :: k in keys && k !in rest ==> t[id].index <= t[k].index
        decreases |rest|
      {
        var k :| k in rest;
        if t[k].index < t[id].index {
          id := k;
        }
        rest := rest - {k};
      }
    }

    /** read_notebook: every row of the notebook, ORDER BY cell_index ASC. */
    method ReadNotebook() returns (rows: seq<Row>)
      ensures Listing(cells, rows)
    {
      rows := OrderedRows(cells);
    }
  }

  /** The rows of t by ascending cell_index: repeatedly take the least remaining one. */
  method OrderedRows(t: Table) returns (rows: seq<Row>)
    ensures Listing(t, rows)
  {
    rows := [];
    var remaining := t.Keys;
    while remaining != {}
      invariant Taken(t, rows, remaining)
      decreases |remaining|
    {
      var id := NotebookStore.LeastIndex(t, remaining);
      TakeLeast(t, rows, remaining, id);
      rows := rows + [Row(id, t[id])];
      remaining := remaining - {id};
    }
  }

  /** rows lists, in order, the cells of t outside `remaining`, none of them after a remaining one. */
  ghost predicate Taken(t: Table, rows: seq<Row>, remaining: set<string>)
  {
    && remaining <= t.Keys
    && Drawn(t, rows, remaining)
    && (forall i, j :: 0 <= i < j < |rows| ==> rows[i].cellId != rows[j].cellId)
    && Covers(t, rows, remaining)
    && (forall i, j :: 0 <= i < j < |rows| ==> rows[i].cell.index <= rows[j].cell.index)
    && Below(t, rows, remaining)
  }

  /** Every row is a cell of t, no longer remaining, with its content. */
  ghost predicate Drawn(t: Table, rows: seq<Row>, remaining: set<string>)
  {
    forall k :: 0 <= k < |rows| ==> rows[k].cellId in t && rows[k].cellId !in remaining && t[rows[k].cellId] == rows[k].cell
  }

  /** Every cell of t that is no longer remaining has a row. */
  ghost predicate Covers(t: Table, rows: seq<Row>, remaining: set<string>)
  {
    forall id :: id in t && id !in remaining ==> exists k :: 0 <= k < |rows| && rows[k].cellId == id
  }

  /** No row comes after a remaining cell. */
  ghost predicate Below(t: Table, rows: seq<Row>, remaining: set<string>)
    requires remaining <= t.Keys
  {
    forall k, id :: 0 <= k < |rows| && id in remaining ==> rows[k].cell.index <= t[id].index
  }

  lemma TakeLeast(t: Table, rows: seq<Row>, remaining: set<string>, id: string)
    requires Taken(t, rows, remaining)
    requires id in remaining && forall k :: k in remaining ==> t[id].index <= t[k].index
    ensures Taken(t, rows + [Row(id, t[id])], remaining - {id})
  {
    var rows' := rows + [Row(id, t[id])];
    var n := |rows|;
    TakeDrawn(t, rows, remaining, id);
    TakeCovers(t, rows, remaining, id);
    TakeBelow(t, rows, remaining, id);
    forall i, j | 0 <= i < j < |rows'|
      ensures rows'[i].cellId != rows'[j].cellId && rows'[i].cell.index <= rows'[j].cell.index
    {
      assert rows'[i] == rows[i];
      if j < n {
        assert rows'[j] == rows[j];
      } else {
        assert rows'[j] == Row(id, t[id]);
      }
    }
  }

  lemma TakeDrawn(t: Table, rows: seq<Row>, remaining: set<string>, id: string)
    requires Drawn(t, rows, remaining) && id in remaining && id in t
    ensures Drawn(t, rows + [Row(id, t[id])], remaining - {id})
  {
    var rows' := rows + [Row(id, t[id])];
    forall k | 0 <= k < |rows'|
      ensures rows'[k].cellId in t && rows'[k].cellId !in remaining - {id} && t[rows'[k].cellId] == rows'[k].cell
    {
      if k < |rows| {
        assert rows'[k] == rows[k];
      }
    }
  }

  lemma TakeCovers(t: Table, rows: seq<Row>, remaining: set<string>, id: string)
    requires Covers(t, rows, remaining) && id in t
    ensures Covers(t, rows + [Row(id, t[id])], remaining - {id})
  {
    var rows' := rows + [Row(id, t[id])];
    forall x | x in t && x !in remaining - {id}
      ensures exists k :: 0 <= k < |rows'| && rows'[k].cellId == x
    {
      if x == id {
        assert rows'[|rows|].cellId == x;
      } else {
        var k :| 0 <= k < |rows| && rows[k].cellId == x;
        assert rows'[k] == rows[k];
      }
    }
  }

  lemma TakeBelow(t: Table, rows: seq<Row>, remaining: set<string>, id: string)
    requires remaining <= t.Keys && Below(t, rows, remaining)
    requires id in remaining && forall k :: k in remaining ==> t[id].index <= t[k].index
    ensures Below(t, rows + [Row(id, t[id])], remaining - {id})
  {
    var rows' := rows + [Row(id, t[id])];
    forall k, x | 0 <= k < |rows'| && x in remaining - {id}
      ensures rows'[k].cell.index <= t[x].index
    {
      if k < |rows| {
        assert rows'[k] == rows[k];
      } else {
        assert rows'[k] == Row(id, t[id]);
      }
    }
  }

  lemma FirstStreamAt(outs: seq<Json>, name: Json, i: int)
    requires 0 <= i < |outs| && StreamNamed(outs[i], name)
    requires forall j :: 0 <= j < i ==> !StreamNamed(outs[j], name)
    ensures FirstStream(outs, name) == Some(i)
  {
  }

  lemma FirstStreamNone(outs: seq<Json>, name: Json)
    requires forall j :: 0 <= j < |outs| ==> !StreamNamed(outs[j], name)
    ensures FirstStream(outs, name) == None
  {
  }

  /** One more patch of the batch: its failure is the batch's, its success continues with the rest. */
  lemma SaveBatchUnfold(rev: Revision, work: Table, ps: seq<Patch>, newIds: seq<string>, i: int, events: seq<Event>,
                        step: Result<(Table, seq<Event>), SaveError>)
    requires |newIds| == |ps| && 0 <= i < |ps|
    requires step == Step(rev, work, ps[i], newIds[i])
    ensures step.Failure? ==> After(events, SaveBatch(rev, work, ps[i..], newIds[i..])) == Failure(step.error)
    ensures step.Success? ==> After(events, SaveBatch(rev, work, ps[i..], newIds[i..]))
                              == After(events + step.value.1, SaveBatch(rev, step.value.0, ps[i + 1..], newIds[i + 1..]))
  {
    assert ps[i..][0] == ps[i] && newIds[i..][0] == newIds[i];
    assert ps[i..][1..] == ps[i + 1..] && newIds[i..][1..] == newIds[i + 1..];
    if step.Success? {
      AfterAfter(events, step.value.1, SaveBatch(rev, step.value.0, ps[i + 1..], newIds[i + 1..]));
    }
  }

  lemma AfterNothing(r: Result<(Table, seq<Event>), SaveError>)
    ensures After([], r) == r
  {
    if r.Success? {
      assert [] + r.value.1 == r.value.1;
    }
  }
}
