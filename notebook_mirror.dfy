/**
 * The client-side copy of a notebook (frontend/src/main/updateNotebook.js):
 * a map from cell id to cell object, the list of local changes not yet
 * saved (addUpdate), the pruning of that list once the server echoes
 * changes back (deduplicateUpdate), and the application of a list of
 * changes to the map (updateNotebook), as written (`ApplyAllAsWritten`)
 * and with the move target read as intended (`ApplyAll`), which mirrors
 * the server's index shifts.
 */
module NotebookMirror {
  import opened Wrappers
  import opened JsonValue
  import opened CellIndex

  /**
   * One change object. `cell_id` and `cell_index` are broken out; `rest`
   * holds every other key as it came (source, metadata, cell_type,
   * outputs, delete, modified, ...).
   */
  datatype Change = Change(cellId: string, cellIndex: Option<int>, rest: Object)

  /** One cell object of the mirror: `cell_index` and every other key. */
  datatype MCell = MCell(cellIndex: int, rest: Object)

  type Mirror = map<string, MCell>

  /** JavaScript truthiness of a JSON value. */
  predicate Truthy(j: Json)
  {
    match j
    case Null => false
    case Bool(b) => b
    case Num(n) => n != 0
    case Str(s) => s != ""
    case Arr(_) => true
    case Obj(_) => true
  }

  /** `c.hasOwnProperty("delete") && c["delete"]`. */
  predicate IsDelete(c: Change)
  {
    "delete" in c.rest && Truthy(c.rest["delete"])
  }

  /** `x.length > 0` for the values that have a length. */
  predicate NonEmpty(j: Json)
  {
    (j.Arr? && |j.items| > 0) || (j.Str? && |j.s| > 0)
  }

  /** A change that would set non-empty outputs. */
  predicate SetsOutputs(c: Change)
  {
    "outputs" in c.rest && NonEmpty(c.rest["outputs"])
  }

  // ---------------------------------------------------------------------
  // addUpdate
  // ---------------------------------------------------------------------

  /** The change without `modified`, and without `outputs` when those are non-empty. */
  function Cleaned(c: Change): (r: Change)
    ensures r.cellId == c.cellId && r.cellIndex == c.cellIndex
    ensures "modified" !in r.rest && !SetsOutputs(r)
    ensures forall k :: k in r.rest ==> k in c.rest && r.rest[k] == c.rest[k]
    ensures forall k :: k in c.rest && k != "modified" && !(k == "outputs" && SetsOutputs(c)) ==> k in r.rest
  {
    var c1 := if "modified" in c.rest then c.(rest := c.rest - {"modified"}) else c;
    if SetsOutputs(c1) then c1.(rest := c1.rest - {"outputs"}) else c1
  }

  /** `{...a, ...b}` on two changes of the same cell: b's keys win. */
  function Merge(a: Change, b: Change): Change
  {
    Change(b.cellId, if b.cellIndex.Some? then b.cellIndex else a.cellIndex, a.rest + b.rest)
  }

  /** Record a local change: merged into the last pending change when that one is for the same cell, appended otherwise. */
  function AddUpdate(changeList: seq<Change>, change: Change): (r: seq<Change>)
    ensures changeList == [] ==> r == [Cleaned(change)]
    ensures changeList != [] && changeList[|changeList| - 1].cellId == change.cellId ==>
              && |r| == |changeList|
              && r[..|r| - 1] == changeList[..|changeList| - 1]
              && r[|r| - 1].cellId == change.cellId
              && r[|r| - 1].cellIndex == (if change.cellIndex.Some? then change.cellIndex else changeList[|changeList| - 1].cellIndex)
              && r[|r| - 1].rest == changeList[|changeList| - 1].rest + Cleaned(change).rest
    ensures changeList != [] && changeList[|changeList| - 1].cellId != change.cellId ==> r == changeList + [Cleaned(change)]
  {
    var c := Cleaned(change);
    if changeList == [] then [c]
    else if changeList[|changeList| - 1].cellId == c.cellId then
      changeList[|changeList| - 1 := Merge(changeList[|changeList| - 1], c)]
    else changeList + [c]
  }

  // ---------------------------------------------------------------------
  // deduplicateUpdate
  // ---------------------------------------------------------------------

  /** The change as the JSON object it is. */
  function AsObject(c: Change): (o: Object)
    ensures "cell_id" in o && o["cell_id"] == Str(c.cellId)
    ensures c.cellIndex.Some? ==> "cell_index" in o && o["cell_index"] == Num(c.cellIndex.value)
  {
    var o := c.rest["cell_id" := Str(c.cellId)];
    if c.cellIndex.Some? then o["cell_index" := Num(c.cellIndex.value)] else o
  }

  /**
   * The applied change carries every key of the pending one except
   * `outputs`, with a value `same` accepts (`same` stands for cmpobj).
   */
  ghost predicate Agrees(applied: Object, pending: Object, same: (Json, Json) -> bool)
  {
    forall key :: key in pending && key != "outputs" ==> key in applied && same(applied[key], pending[key])
  }

  /** The pending changes left once `applied` came back from the server: those from the first disagreement on. */
  ghost function Deduplicated(changeList: seq<Change>, applied: seq<Object>, same: (Json, Json) -> bool): (r: seq<Change>)
    decreases |changeList|
  {
    if changeList == [] || applied == [] then changeList
    else if !Agrees(applied[0], AsObject(changeList[0]), same) then changeList
    else Deduplicated(changeList[1..], applied[1..], same)
  }

  /** One pending change against one applied change, key by key. */
  method AgreesOn(applied: Object, pending: Object, same: (Json, Json) -> bool) returns (ok: bool)
    ensures ok <==> Agrees(applied, pending, same)
  {
    var keys := pending.Keys;
    while keys != {}
      invariant keys <= pending.Keys
      invariant forall key :: key in pending && key !in keys && key != "outputs" ==> key in applied && same(applied[key], pending[key])
      decreases |keys|
    {
      var key :| key in keys;
      if key != "outputs" {
        if key !in applied {
          return false;
        }
        if !same(applied[key], pending[key]) {
          return false;
        }
      }
      keys := keys - {key};
    }
    return true;
  }

  /** deduplicateUpdate: drop the pending changes that the applied ones echo, up to the first that differs. */
  method DeduplicateUpdate(changeList: seq<Change>, applied: seq<Object>, same: (Json, Json) -> bool) returns (r: seq<Change>)
    ensures r == Deduplicated(changeList, applied, same)
  {
    var i := 0;
    while i < |applied| && i < |changeList|
      invariant 0 <= i <= |applied| && i <= |changeList|
      invariant Deduplicated(changeList, applied, same) == Deduplicated(changeList[i..], applied[i..], same)
    {
      var ok := AgreesOn(applied[i], AsObject(changeList[i]), same);
      DeduplicatedAt(changeList, applied, same, i);
      if !ok {
        return changeList[i..];
      }
      i := i + 1;
    }
    DeduplicatedEnd(changeList, applied, same, i);
    if |changeList| < |applied| {
      return [];
    }
    return changeList[|applied|..];
  }

  lemma DeduplicatedAt(changeList: seq<Change>, applied: seq<Object>, same: (Json, Json) -> bool, i: int)
    requires 0 <= i < |applied| && i < |changeList|
    ensures Deduplicated(changeList[i..], applied[i..], same)
            == if Agrees(applied[i], AsObject(changeList[i]), same) then Deduplicated(changeList[i + 1..], applied[i + 1..], same) else changeList[i..]
  {
    assert changeList[i..][0] == changeList[i] && applied[i..][0] == applied[i];
    assert changeList[i..][1..] == changeList[i + 1..] && applied[i..][1..] == applied[i + 1..];
  }

  lemma DeduplicatedEnd(changeList: seq<Change>, applied: seq<Object>, same: (Json, Json) -> bool, i: int)
    requires 0 <= i <= |applied| && i <= |changeList|
    requires i == |applied| || i == |changeList|
    ensures Deduplicated(changeList[i..], applied[i..], same) == if |changeList| < |applied| then [] else changeList[|applied|..]
  {
  }

  // ---------------------------------------------------------------------
  // updateNotebook
  // ---------------------------------------------------------------------

  /** The positions of the mirror's cells. */
  function MIndexes(nb: Mirror): (m: Indexing)
    ensures m.Keys == nb.Keys
  {
    map k | k in nb :: nb[k].cellIndex
  }

  /** `lo <= cell_index` and, when given, `cell_index < hi`. */
  predicate InRange(i: int, lo: int, hi: Option<int>)
  {
    lo <= i && (hi.None? || i < hi.value)
  }

  /** The forEach loops: every cell but `skip` whose position is in range moves by d. */
  function Shift(nb: Mirror, skip: string, lo: int, hi: Option<int>, d: int): (r: Mirror)
    ensures r.Keys == nb.Keys
  {
    map k | k in nb :: ShiftedCell(nb[k], k, skip, lo, hi, d)
  }

  /** One cell as the forEach leaves it. */
  function ShiftedCell(cell: MCell, k: string, skip: string, lo: int, hi: Option<int>, d: int): MCell
  {
    if k != skip && InRange(cell.cellIndex, lo, hi) then MCell(cell.cellIndex + d, cell.rest) else cell
  }

  /** `{...cell, ...c}`: the change's keys over the cell's, its `cell_index` when it has one. */
  function Spread(cell: MCell, c: Change): MCell
  {
    MCell(c.cellIndex.GetOr(cell.cellIndex), cell.rest + c.rest)
  }

  /** The keys of a new cell before the change's own. */
  function Defaults(cellId: string): Object
  {
    map["cell_id" := Str(cellId), "source" := Str(""), "metadata" := Obj(map[]), "outputs" := Arr([]), "cell_type" := Str("code")]
  }

  /** `notebook[cell_id].modified = true` when asked to. */
  function Marked(nb: Mirror, cellId: string, markModified: bool): Mirror
    requires cellId in nb
  {
    if markModified then nb[cellId := nb[cellId].(rest := nb[cellId].rest["modified" := Bool(true)])] else nb
  }

  /** The position an update moves its cell to (evidently meant: the change's cell_index whenever it has one). */
  function MoveIndex(c: Change, from: int): int
  {
    c.cellIndex.GetOr(from)
  }

  /** Shifts that make room for a cell moving from old to target. */
  function MoveShift(nb: Mirror, cellId: string, from: int, target: int): Mirror
  {
    if from > target then Shift(nb, cellId, target, Some(from), 1)
    else if from < target then Shift(nb, cellId, from + 1, Some(target + 1), -1)
    else nb
  }

  /** One iteration of updateNotebook's loop, with the move target read correctly. */
  function ApplyChange(nb: Mirror, c: Change, markModified: bool): Mirror
  {
    var id := c.cellId;
    if IsDelete(c) then
      if id in nb then Shift(nb - {id}, id, nb[id].cellIndex, None, -1) else nb
    else if id in nb then
      var from := nb[id].cellIndex;
      var nb1 := nb[id := Spread(nb[id], c)];
      Marked(MoveShift(nb1, id, from, MoveIndex(c, from)), id, markModified)
    else
      var cell := MCell(c.cellIndex.GetOr(|nb|), Defaults(id) + c.rest);
      var nb1 := nb[id := cell];
      var nb2 := if cell.cellIndex < |nb| then Shift(nb1, id, cell.cellIndex, None, 1) else nb1;
      Marked(nb2, id, markModified)
  }

  /** `c.cell_index || old`: a cell_index of 0 is falsy, so the move target falls back to the old position. */
  function MoveIndexAsWritten(c: Change, from: int): int
  {
    if c.cellIndex.Some? && c.cellIndex.value != 0 then c.cellIndex.value else from
  }

  /** One iteration of updateNotebook's loop as the code reads it. */
  function ApplyChangeAsWritten(nb: Mirror, c: Change, markModified: bool): Mirror
  {
    var id := c.cellId;
    if !IsDelete(c) && id in nb then
      var from := nb[id].cellIndex;
      var nb1 := nb[id := Spread(nb[id], c)];
      Marked(MoveShift(nb1, id, from, MoveIndexAsWritten(c, from)), id, markModified)
    else ApplyChange(nb, c, markModified)
  }

  /** The changes applied in order, as updateNotebook's loop does. */
  function ApplyAllAsWritten(nb: Mirror, changes: seq<Change>, markModified: bool): Mirror
    decreases |changes|
  {
    if changes == [] then nb else ApplyAllAsWritten(ApplyChangeAsWritten(nb, changes[0], markModified), changes[1..], markModified)
  }

  lemma ApplyAllAsWrittenFrom(nb: Mirror, changes: seq<Change>, i: int, markModified: bool)
    requires 0 <= i < |changes|
    ensures ApplyAllAsWritten(nb, changes[i..], markModified) == ApplyAllAsWritten(ApplyChangeAsWritten(nb, changes[i], markModified), changes[i + 1..], markModified)
  {
    assert changes[i..][0] == changes[i] && changes[i..][1..] == changes[i + 1..];
  }

  /** The changes applied in order, with the move target read as intended. */
  function ApplyAll(nb: Mirror, changes: seq<Change>, markModified: bool): Mirror
    decreases |changes|
  {
    if changes == [] then nb else ApplyAll(ApplyChange(nb, changes[0], markModified), changes[1..], markModified)
  }

  /** A forEach over the keys: move by d every cell but skip whose position is in range. */
  method ShiftCells(nb: Mirror, skip: string, lo: int, hi: Option<int>, d: int) returns (r: Mirror)
    ensures r == Shift(nb, skip, lo, hi, d)
  {
    r := nb;
    var keys := nb.Keys;
    while keys != {}
      invariant keys <= nb.Keys && r.Keys == nb.Keys
      invariant forall k :: k in keys ==> r[k] == nb[k]
      invariant forall k :: k in nb && k !in keys ==> r[k] == ShiftedCell(nb[k], k, skip, lo, hi, d)
      decreases |keys|
    {
      var k :| k in keys;
      if k != skip && InRange(r[k].cellIndex, lo, hi) {
        r := r[k := MCell(r[k].cellIndex + d, r[k].rest)];
      }
      keys := keys - {k};
    }
    ShiftEq(nb, r, skip, lo, hi, d);
  }

  lemma ShiftEq(nb: Mirror, r: Mirror, skip: string, lo: int, hi: Option<int>, d: int)
    requires r.Keys == nb.Keys
    requires forall k :: k in nb ==> r[k] == ShiftedCell(nb[k], k, skip, lo, hi, d)
    ensures r == Shift(nb, skip, lo, hi, d)
  {
  }

  /**
   * updateNotebook: apply the changes in order to a copy of the notebook,
   * keeping cellNumber, the number of cells, up to date as it goes.
   */
  method UpdateNotebook(notebook: Mirror, changeList: seq<Change>, markModified: bool) returns (nb: Mirror)
    ensures nb == ApplyAllAsWritten(notebook, changeList, markModified)
  {
    if |changeList| == 0 {
      return notebook;
    }
    var cellNumber := |notebook|;
    nb := notebook;
    var i := 0;
    while i < |changeList|
      invariant 0 <= i <= |changeList|
      invariant cellNumber == |nb|
      invariant ApplyAllAsWritten(notebook, changeList, markModified) == ApplyAllAsWritten(nb, changeList[i..], markModified)
    {
      var c := changeList[i];
      ApplyAllAsWrittenFrom(nb, changeList, i, markModified);
      if IsDelete(c) {
        nb, cellNumber := DeleteCell(nb, cellNumber, c, markModified);
      } else if c.cellId in nb {
        nb := UpdateCell(nb, c, markModified);
      } else {
        nb, cellNumber := CreateCell(nb, cellNumber, c, markModified);
      }
      i := i + 1;
    }
  }

  /** The delete branch: drop the cell and pull the cells at or after its position one down (a delete marks nothing). */
  method DeleteCell(nb: Mirror, cellNumber: int, c: Change, markModified: bool) returns (r: Mirror, n: int)
    requires IsDelete(c) && cellNumber == |nb|
    ensures r == ApplyChangeAsWritten(nb, c, markModified) && n == |r|
  {
    var id := c.cellId;
    r, n := nb, cellNumber;
    if id in nb {
      var cellIndex := nb[id].cellIndex;
      r := nb - {id};
      n := n - 1;
      r := ShiftCells(r, id, cellIndex, None, -1);
    }
  }

  /**
   * The update branch: spread the change over the cell, then shift the cells
   * between its old and new position, the new one being `c.cell_index || old`.
   */
  method UpdateCell(nb: Mirror, c: Change, markModified: bool) returns (r: Mirror)
    requires !IsDelete(c) && c.cellId in nb
    ensures r == ApplyChangeAsWritten(nb, c, markModified)
  {
    var id := c.cellId;
    var oldIndex := nb[id].cellIndex;
    var newIndex := MoveIndexAsWritten(c, oldIndex);
    r := nb[id := Spread(nb[id], c)];
    if oldIndex > newIndex {
      r := ShiftCells(r, id, newIndex, Some(oldIndex), 1);
    } else if oldIndex < newIndex {
      r := ShiftCells(r, id, oldIndex + 1, Some(newIndex + 1), -1);
    }
    if markModified {
      r := r[id := r[id].(rest := r[id].rest["modified" := Bool(true)])];
    }
  }

  /** The create branch: the defaults under the change's keys, at the end unless the change names a position. */
  method CreateCell(nb: Mirror, cellNumber: int, c: Change, markModified: bool) returns (r: Mirror, n: int)
    requires !IsDelete(c) && c.cellId !in nb && cellNumber == |nb|
    ensures r == ApplyChangeAsWritten(nb, c, markModified) && n == |r|
  {
    var id := c.cellId;
    r := nb[id := MCell(c.cellIndex.GetOr(cellNumber), Defaults(id) + c.rest)];
    if r[id].cellIndex < cellNumber {
      r := ShiftCells(r, id, r[id].cellIndex, None, 1);
    }
    n := cellNumber + 1;
    if markModified {
      r := r[id := r[id].(rest := r[id].rest["modified" := Bool(true)])];
    }
  }
}
