/**
 * What the client-side copy promises: addUpdate keeps the pending list
 * short without changing what it means, deduplicateUpdate drops exactly
 * the echoed prefix, and updateNotebook, with the move target read as
 * intended, moves positions exactly as the server's shifts do (CellIndex),
 * as long as the positions it is given are in range. As written it agrees
 * with that everywhere but on a move to position 0.
 */
module MirrorProperties {
  import opened Wrappers
  import opened JsonValue
  import opened CellIndex
  import opened NotebookMirror

  // ---------------------------------------------------------------------
  // addUpdate
  // ---------------------------------------------------------------------

  /** No two neighbouring pending changes are for the same cell. */
  ghost predicate NoRepeats(changeList: seq<Change>)
  {
    forall i :: 0 <= i < |changeList| - 1 ==> changeList[i].cellId != changeList[i + 1].cellId
  }

  /** Pending changes carry neither `modified` nor non-empty outputs. */
  ghost predicate Clean(changeList: seq<Change>)
  {
    forall i :: 0 <= i < |changeList| ==> "modified" !in changeList[i].rest && !SetsOutputs(changeList[i])
  }

  /**
   * A list built by addUpdate never holds two neighbouring changes for one
   * cell, and never holds `modified` or non-empty outputs, so the server's
   * outputs guard never refuses it.
   */
  lemma AddUpdateInvariant(changeList: seq<Change>, change: Change)
    requires NoRepeats(changeList) && Clean(changeList)
    ensures NoRepeats(AddUpdate(changeList, change))
    ensures Clean(AddUpdate(changeList, change))
  {
    var r := AddUpdate(changeList, change);
    var c := Cleaned(change);
    if changeList != [] && changeList[|changeList| - 1].cellId == c.cellId {
      var last := changeList[|changeList| - 1];
      var m := Merge(last, c);
      assert "modified" !in m.rest;
      assert !SetsOutputs(m) by {
        if "outputs" in c.rest {
          assert m.rest["outputs"] == c.rest["outputs"];
        } else {
          assert "outputs" in m.rest ==> m.rest["outputs"] == last.rest["outputs"];
        }
      }
    }
  }

  /**
   * Merging a field edit into the pending change of the same cell means the
   * same as sending the two changes one after the other.
   */
  lemma AddUpdateKeepsMeaning(nb: Mirror, changeList: seq<Change>, change: Change, markModified: bool)
    requires changeList != [] && Clean(changeList)
    requires changeList[|changeList| - 1].cellId == change.cellId
    requires !IsDelete(changeList[|changeList| - 1]) && !IsDelete(Cleaned(change))
    requires change.cellIndex.None?
    ensures ApplyAll(nb, AddUpdate(changeList, change), markModified) == ApplyAll(nb, changeList + [Cleaned(change)], markModified)
  {
    var n := |changeList| - 1;
    var a := changeList[n];
    var b := Cleaned(change);
    var before := changeList[..n];
    AddUpdateMerges(changeList, change);
    assert changeList + [b] == before + [a, b];
    ApplyAllAppend(nb, before, [Merge(a, b)], markModified);
    ApplyAllAppend(nb, before, [a, b], markModified);
    var mid := ApplyAll(nb, before, markModified);
    ApplyTwo(mid, a, b, markModified);
    ApplyOne(mid, Merge(a, b), markModified);
    MergeApplies(mid, a, b, markModified);
  }

  lemma AddUpdateMerges(changeList: seq<Change>, change: Change)
    requires changeList != [] && changeList[|changeList| - 1].cellId == change.cellId
    ensures AddUpdate(changeList, change) == changeList[..|changeList| - 1] + [Merge(changeList[|changeList| - 1], Cleaned(change))]
  {
  }

  lemma ApplyOne(nb: Mirror, a: Change, markModified: bool)
    ensures ApplyAll(nb, [a], markModified) == ApplyChange(nb, a, markModified)
  {
    assert [a][1..] == [];
  }

  lemma ApplyTwo(nb: Mirror, a: Change, b: Change, markModified: bool)
    ensures ApplyAll(nb, [a, b], markModified) == ApplyChange(ApplyChange(nb, a, markModified), b, markModified)
  {
    assert [a, b][1..] == [b];
    ApplyOne(ApplyChange(nb, a, markModified), b, markModified);
  }

  lemma {:induction false} ApplyAllAppend(nb: Mirror, xs: seq<Change>, ys: seq<Change>, markModified: bool)
    ensures ApplyAll(nb, xs + ys, markModified) == ApplyAll(ApplyAll(nb, xs, markModified), ys, markModified)
    decreases |xs|
  {
    if xs == [] {
      assert xs + ys == ys;
    } else {
      assert (xs + ys)[0] == xs[0] && (xs + ys)[1..] == xs[1..] + ys;
      ApplyAllAppend(ApplyChange(nb, xs[0], markModified), xs[1..], ys, markModified);
    }
  }

  /** `modified` set when marking is asked for. */
  function Mark(rest: Object, markModified: bool): Object
  {
    if markModified then rest["modified" := Bool(true)] else rest
  }

  lemma MarkedCell(nb: Mirror, id: string, i: int, rest: Object, markModified: bool)
    ensures Marked(nb[id := MCell(i, rest)], id, markModified) == nb[id := MCell(i, Mark(rest, markModified))]
  {
  }

  /** The shifts skip the cell they make room for, whatever it holds. */
  lemma ShiftSkip(nb: Mirror, skip: string, lo: int, hi: Option<int>, d: int, x: MCell)
    ensures Shift(nb[skip := x], skip, lo, hi, d) == Shift(nb, skip, lo, hi, d)[skip := x]
  {
  }

  lemma MoveShiftSkip(nb: Mirror, id: string, from: int, target: int, x: MCell)
    ensures MoveShift(nb[id := x], id, from, target) == MoveShift(nb, id, from, target)[id := x]
  {
    if from > target {
      ShiftSkip(nb, id, target, Some(from), 1, x);
    } else if from < target {
      ShiftSkip(nb, id, from + 1, Some(target + 1), -1, x);
    }
  }

  /** Two non-delete changes of one cell, the second without a position, applied one by one or merged. */
  lemma MergeApplies(nb: Mirror, a: Change, b: Change, markModified: bool)
    requires a.cellId == b.cellId && !IsDelete(a) && !IsDelete(b) && b.cellIndex.None?
    requires "modified" !in b.rest
    ensures ApplyChange(ApplyChange(nb, a, markModified), b, markModified) == ApplyChange(nb, Merge(a, b), markModified)
  {
    var id := a.cellId;
    var m := Merge(a, b);
    assert !IsDelete(m) by {
      if "delete" in b.rest {
        assert m.rest["delete"] == b.rest["delete"];
      } else if "delete" in m.rest {
        assert m.rest["delete"] == a.rest["delete"];
      }
    }
    if id in nb {
      var from := nb[id].cellIndex;
      var pos := MoveIndex(a, from);
      var base := MoveShift(nb, id, from, pos);
      var rest := nb[id].rest + a.rest;
      ApplyUpdate(nb, a, markModified);
      ApplyUpdate(nb, m, markModified);
      assert MoveIndex(m, from) == pos;
      MarkedCell(base, id, pos, rest, markModified);
      MarkedCell(base, id, pos, nb[id].rest + m.rest, markModified);
      UnionAssoc(nb[id].rest, a.rest, b.rest);
      MergeTail(base, b, pos, rest, markModified);
    } else {
      var pos := a.cellIndex.GetOr(|nb|);
      var base := if pos < |nb| then Shift(nb, id, pos, None, 1) else nb;
      var rest := Defaults(id) + a.rest;
      ApplyCreate(nb, a, markModified);
      ApplyCreate(nb, m, markModified);
      MarkedCell(base, id, pos, rest, markModified);
      MarkedCell(base, id, pos, Defaults(id) + m.rest, markModified);
      UnionAssoc(Defaults(id), a.rest, b.rest);
      MergeTail(base, b, pos, rest, markModified);
    }
  }

  /** The second change of a merge moves nothing: it only spreads its keys over the marked cell. */
  lemma MergeTail(base: Mirror, b: Change, pos: int, rest: Object, markModified: bool)
    requires !IsDelete(b) && b.cellIndex.None? && "modified" !in b.rest
    ensures ApplyChange(base[b.cellId := MCell(pos, Mark(rest, markModified))], b, markModified)
            == base[b.cellId := MCell(pos, Mark(rest + b.rest, markModified))]
  {
    var id := b.cellId;
    var x := MCell(pos, Mark(rest, markModified));
    var nb1 := base[id := x];
    ApplyUpdate(nb1, b, markModified);
    assert MoveShift(nb1, id, pos, pos) == nb1;
    assert Spread(x, b) == MCell(pos, Mark(rest, markModified) + b.rest);
    UpdateTwice(base, id, x, Spread(x, b));
    MarkedCell(base, id, pos, Mark(rest, markModified) + b.rest, markModified);
    MarkTwice(rest, b.rest, markModified);
  }

  /** A create: the new cell over the shifted notebook, then the mark. */
  lemma ApplyCreate(nb: Mirror, c: Change, markModified: bool)
    requires !IsDelete(c) && c.cellId !in nb
    ensures var pos := c.cellIndex.GetOr(|nb|);
            var base := if pos < |nb| then Shift(nb, c.cellId, pos, None, 1) else nb;
            ApplyChange(nb, c, markModified) == Marked(base[c.cellId := MCell(pos, Defaults(c.cellId) + c.rest)], c.cellId, markModified)
  {
    var pos := c.cellIndex.GetOr(|nb|);
    ShiftSkip(nb, c.cellId, pos, None, 1, MCell(pos, Defaults(c.cellId) + c.rest));
  }

  lemma UnionAssoc(x: Object, y: Object, z: Object)
    ensures x + (y + z) == (x + y) + z
  {
  }

  lemma UpdateTwice(nb: Mirror, id: string, x: MCell, y: MCell)
    ensures nb[id := x][id := y] == nb[id := y]
  {
  }

  /** Marking before or after spreading keys without `modified` gives the same keys. */
  lemma MarkTwice(rest: Object, extra: Object, markModified: bool)
    requires "modified" !in extra
    ensures Mark(Mark(rest, markModified) + extra, markModified) == Mark(rest + extra, markModified)
  {
  }

  // ---------------------------------------------------------------------
  // deduplicateUpdate
  // ---------------------------------------------------------------------

  /**
   * deduplicateUpdate drops a prefix of the pending list no longer than the
   * applied list, every dropped change agrees with the applied change at its
   * position, and it stops early only at a change that does not agree.
   */
  lemma {:induction false} DeduplicatedPrefix(changeList: seq<Change>, applied: seq<Object>, same: (Json, Json) -> bool)
    ensures var r := Deduplicated(changeList, applied, same);
            var j := |changeList| - |r|;
            && |r| <= |changeList|
            && r == changeList[j..]
            && j <= |applied|
            && (forall i :: 0 <= i < j ==> Agrees(applied[i], AsObject(changeList[i]), same))
            && (j < |changeList| && j < |applied| ==> !Agrees(applied[j], AsObject(changeList[j]), same))
    decreases |changeList|
  {
    if changeList != [] && applied != [] && Agrees(applied[0], AsObject(changeList[0]), same) {
      DeduplicatedPrefix(changeList[1..], applied[1..], same);
      var r := Deduplicated(changeList, applied, same);
      var j := |changeList| - |r|;
      assert changeList[1..][j - 1..] == changeList[j..];
      forall i | 0 <= i < j
        ensures Agrees(applied[i], AsObject(changeList[i]), same)
      {
        if i > 0 {
          assert applied[1..][i - 1] == applied[i] && changeList[1..][i - 1] == changeList[i];
        }
      }
      if j < |changeList| && j < |applied| {
        assert applied[1..][j - 1] == applied[j] && changeList[1..][j - 1] == changeList[j];
      }
    }
  }

  /** When the server echoes the pending changes (as objects) and cmpobj accepts equal values, all of them are dropped. */
  lemma {:induction false} DeduplicateEcho(changeList: seq<Change>, applied: seq<Object>, same: (Json, Json) -> bool)
    requires |applied| <= |changeList|
    requires forall i :: 0 <= i < |applied| ==> applied[i] == AsObject(changeList[i])
    requires forall x :: same(x, x)
    ensures Deduplicated(changeList, applied, same) == changeList[|applied|..]
    decreases |applied|
  {
    if applied != [] {
      assert Agrees(applied[0], AsObject(changeList[0]), same);
      forall i | 0 <= i < |applied[1..]|
        ensures applied[1..][i] == AsObject(changeList[1..][i])
      {
        assert applied[1..][i] == applied[i + 1] && changeList[1..][i] == changeList[i + 1];
      }
      DeduplicateEcho(changeList[1..], applied[1..], same);
      assert changeList[1..][|applied| - 1..] == changeList[|applied|..];
    }
  }

  // ---------------------------------------------------------------------
  // updateNotebook moves positions as the server does
  // ---------------------------------------------------------------------

  lemma MIndexesUpdate(nb: Mirror, id: string, x: MCell)
    ensures MIndexes(nb[id := x]) == MIndexes(nb)[id := x.cellIndex]
  {
  }

  lemma MIndexesRemove(nb: Mirror, id: string)
    ensures MIndexes(nb - {id}) == MIndexes(nb) - {id}
  {
  }

  lemma MarkedIndexes(nb: Mirror, id: string, markModified: bool)
    requires id in nb
    ensures MIndexes(Marked(nb, id, markModified)) == MIndexes(nb)
    ensures Marked(nb, id, markModified).Keys == nb.Keys
    ensures forall k :: k in nb && k != id ==> Marked(nb, id, markModified)[k] == nb[k]
  {
  }

  lemma MarkedAt(nb: Mirror, id: string, markModified: bool)
    requires id in nb
    ensures Marked(nb, id, markModified)[id] == MCell(nb[id].cellIndex, Mark(nb[id].rest, markModified))
  {
  }

  /** The open-ended forEach shifts the positions as `WHERE cell_index >= lo` does. */
  lemma ShiftFromIndexes(nb: Mirror, skip: string, lo: int, d: int, v: int)
    ensures MIndexes(Shift(nb, skip, lo, None, d))[skip := v] == ShiftFrom(MIndexes(nb), lo, d)[skip := v]
  {
  }

  /** The bounded forEach shifts the positions as `WHERE cell_index >= lo AND cell_index < hi` does. */
  lemma ShiftWithinIndexes(nb: Mirror, skip: string, lo: int, hi: int, d: int, v: int)
    ensures MIndexes(Shift(nb, skip, lo, Some(hi), d))[skip := v] == ShiftWithin(MIndexes(nb), lo, hi, d)[skip := v]
  {
  }

  lemma ShiftFromAbsent(nb: Mirror, skip: string, lo: int, d: int)
    requires skip !in nb
    ensures MIndexes(Shift(nb, skip, lo, None, d)) == ShiftFrom(MIndexes(nb), lo, d)
  {
  }

  /** The shifts change positions only. */
  lemma ShiftRest(nb: Mirror, skip: string, lo: int, hi: Option<int>, d: int)
    ensures forall k :: k in nb ==> Shift(nb, skip, lo, hi, d)[k].rest == nb[k].rest
  {
  }

  /** In a dense notebook no cell sits at N or later, so shifting from N moves nothing. */
  lemma ShiftFromEnd(m: Indexing, d: int)
    requires Dense(m)
    ensures ShiftFrom(m, |m|, d) == m
  {
  }

  /** An update: the shifts around the cell, then the spread cell, then the mark. */
  lemma ApplyUpdate(nb: Mirror, c: Change, markModified: bool)
    requires !IsDelete(c) && c.cellId in nb
    ensures var from := nb[c.cellId].cellIndex;
            ApplyChange(nb, c, markModified)
            == Marked(MoveShift(nb, c.cellId, from, MoveIndex(c, from))[c.cellId := Spread(nb[c.cellId], c)], c.cellId, markModified)
  {
    var from := nb[c.cellId].cellIndex;
    MoveShiftSkip(nb, c.cellId, from, MoveIndex(c, from), Spread(nb[c.cellId], c));
  }

  /** The shifts of a move, then the moved cell's new position, give the server's move. */
  lemma MoveShiftIndexes(nb: Mirror, id: string, target: int)
    requires id in nb
    ensures MIndexes(MoveShift(nb, id, nb[id].cellIndex, target))[id := target] == Moved(MIndexes(nb), id, target)
  {
    var m := MIndexes(nb);
    var from := nb[id].cellIndex;
    if target > from {
      ShiftWithinIndexes(nb, id, from + 1, target + 1, -1, target);
    } else if target < from {
      ShiftWithinIndexes(nb, id, target, from, 1, target);
    } else {
      assert m[id := target] == m;
    }
  }

  lemma MoveShiftRest(nb: Mirror, id: string, from: int, target: int)
    ensures MoveShift(nb, id, from, target).Keys == nb.Keys
    ensures forall k :: k in nb ==> MoveShift(nb, id, from, target)[k].rest == nb[k].rest
  {
    if target > from {
      ShiftRest(nb, id, from + 1, Some(target + 1), -1);
    } else if target < from {
      ShiftRest(nb, id, target, Some(from), 1);
    }
  }

  /** Deleting a cell of the mirror removes it and pulls the later cells down, like the server's delete. */
  lemma MirrorDelete(nb: Mirror, c: Change, markModified: bool)
    requires IsDelete(c) && Dense(MIndexes(nb))
    ensures c.cellId !in nb ==> ApplyChange(nb, c, markModified) == nb
    ensures c.cellId in nb ==> MIndexes(ApplyChange(nb, c, markModified)) == Removed(MIndexes(nb), c.cellId)
    ensures c.cellId in nb ==> Dense(MIndexes(ApplyChange(nb, c, markModified)))
    ensures forall k :: k in ApplyChange(nb, c, markModified) ==> k in nb && ApplyChange(nb, c, markModified)[k].rest == nb[k].rest
  {
    var id := c.cellId;
    if id in nb {
      DeletedIndexes(nb, id);
      ShiftRest(nb - {id}, id, nb[id].cellIndex, None, -1);
    }
  }

  /** Dropping a cell and shifting the later ones down is CellIndex.Removed. */
  lemma DeletedIndexes(nb: Mirror, id: string)
    requires id in nb && Dense(MIndexes(nb))
    ensures MIndexes(Shift(nb - {id}, id, nb[id].cellIndex, None, -1)) == Removed(MIndexes(nb), id)
    ensures Dense(Removed(MIndexes(nb), id))
  {
    var m := MIndexes(nb);
    assert m[id] == nb[id].cellIndex;
    MIndexesRemove(nb, id);
    ShiftFromAbsent(nb - {id}, id, m[id], -1);
    var s := ShiftFrom(m - {id}, m[id], -1);
    forall k | k in s
      ensures s[k] == Removed(m, id)[k]
    {
      assert m[k] != m[id];
    }
    assert s == Removed(m, id);
    RemovedDense(m, id);
  }

  /** A new cell at a position in 0..N (the end when none is given) shifts the cells from there up, like the server's create. */
  lemma MirrorCreate(nb: Mirror, c: Change, markModified: bool)
    requires !IsDelete(c) && c.cellId !in nb && Dense(MIndexes(nb))
    requires c.cellIndex.None? || 0 <= c.cellIndex.value <= |nb|
    ensures MIndexes(ApplyChange(nb, c, markModified)) == Inserted(MIndexes(nb), c.cellId, c.cellIndex.GetOr(|nb|))
    ensures Dense(MIndexes(ApplyChange(nb, c, markModified)))
    ensures ApplyChange(nb, c, markModified)[c.cellId].rest == Mark(Defaults(c.cellId) + c.rest, markModified)
    ensures forall k :: k in nb ==> ApplyChange(nb, c, markModified)[k].rest == nb[k].rest
  {
    var pos := c.cellIndex.GetOr(|nb|);
    var x := MCell(pos, Defaults(c.cellId) + c.rest);
    var base := if pos < |nb| then Shift(nb, c.cellId, pos, None, 1) else nb;
    ApplyCreate(nb, c, markModified);
    CreateIndexes(nb, c.cellId, x);
    CreatedCell(nb, c.cellId, x, markModified, base);
    CreatedRest(nb, c.cellId, x, markModified, base);
  }

  /** The new cell x placed over base, the other cells already moved, and marked: where the cells end up. */
  lemma CreatedCell(nb: Mirror, id: string, x: MCell, markModified: bool, base: Mirror)
    requires id !in nb && Dense(MIndexes(nb)) && 0 <= x.cellIndex <= |nb|
    requires MIndexes(base[id := x]) == Inserted(MIndexes(nb), id, x.cellIndex)
    ensures MIndexes(Marked(base[id := x], id, markModified)) == Inserted(MIndexes(nb), id, x.cellIndex)
    ensures Dense(MIndexes(Marked(base[id := x], id, markModified)))
  {
    var y := MCell(x.cellIndex, Mark(x.rest, markModified));
    MarkedCell(base, id, x.cellIndex, x.rest, markModified);
    SameIndexAt(base, id, x, y);
    InsertedDense(MIndexes(nb), id, x.cellIndex);
  }

  /** The same, for what the cells hold: the new cell its marked fields, every other cell its own. */
  lemma CreatedRest(nb: Mirror, id: string, x: MCell, markModified: bool, base: Mirror)
    requires id !in nb && base.Keys == nb.Keys
    requires forall k :: k in nb ==> base[k].rest == nb[k].rest
    ensures Marked(base[id := x], id, markModified)[id].rest == Mark(x.rest, markModified)
    ensures forall k :: k in nb ==> Marked(base[id := x], id, markModified)[k].rest == nb[k].rest
  {
    var y := MCell(x.cellIndex, Mark(x.rest, markModified));
    MarkedCell(base, id, x.cellIndex, x.rest, markModified);
    assert base[id := y][id] == y;
    forall k | k in nb
      ensures Marked(base[id := x], id, markModified)[k].rest == nb[k].rest
    {
      assert base[id := y][k] == base[k];
    }
  }

  /** Two cells at the same position give the same positions when stored under id. */
  lemma SameIndexAt(base: Mirror, id: string, x: MCell, y: MCell)
    requires x.cellIndex == y.cellIndex
    ensures MIndexes(base[id := x]) == MIndexes(base[id := y])
  {
  }

  lemma CreateIndexes(nb: Mirror, id: string, x: MCell)
    requires id !in nb && Dense(MIndexes(nb)) && 0 <= x.cellIndex <= |nb|
    ensures var base := if x.cellIndex < |nb| then Shift(nb, id, x.cellIndex, None, 1) else nb;
            && MIndexes(base[id := x]) == Inserted(MIndexes(nb), id, x.cellIndex)
            && base.Keys == nb.Keys
            && forall k :: k in nb ==> base[k].rest == nb[k].rest
  {
    var pos := x.cellIndex;
    var base := if pos < |nb| then Shift(nb, id, pos, None, 1) else nb;
    if pos < |nb| {
      ShiftRest(nb, id, pos, None, 1);
      ShiftFromIndexes(nb, id, pos, 1, pos);
    } else {
      ShiftFromEnd(MIndexes(nb), 1);
    }
    MIndexesUpdate(base, id, x);
  }

  /**
   * An update of a cell of the mirror spreads the change's keys over the
   * cell and moves it to the position the change names (0..N-1), shifting
   * the cells in between, like the server's move.
   */
  lemma MirrorUpdate(nb: Mirror, c: Change, markModified: bool)
    requires !IsDelete(c) && c.cellId in nb && Dense(MIndexes(nb))
    requires c.cellIndex.None? || 0 <= c.cellIndex.value < |nb|
    ensures MIndexes(ApplyChange(nb, c, markModified)) == Moved(MIndexes(nb), c.cellId, c.cellIndex.GetOr(nb[c.cellId].cellIndex))
    ensures Dense(MIndexes(ApplyChange(nb, c, markModified)))
    ensures ApplyChange(nb, c, markModified)[c.cellId].rest == Mark(nb[c.cellId].rest + c.rest, markModified)
    ensures forall k :: k in nb && k != c.cellId ==> ApplyChange(nb, c, markModified)[k].rest == nb[k].rest
  {
    var id := c.cellId;
    var m := MIndexes(nb);
    var from := nb[id].cellIndex;
    var target := MoveIndex(c, from);
    var x := Spread(nb[id], c);
    var base := MoveShift(nb, id, from, target);
    ApplyUpdate(nb, c, markModified);
    MoveShiftIndexes(nb, id, target);
    MoveShiftRest(nb, id, from, target);
    MIndexesUpdate(base, id, x);
    MarkedIndexes(base[id := x], id, markModified);
    MarkedAt(base[id := x], id, markModified);
    MovedDense(m, id, target);
  }

  // ---------------------------------------------------------------------
  // Finding: a move to position 0
  // ---------------------------------------------------------------------

  /**
   * As written, a change moving cell "b" of {a: 0, b: 1} to position 0 sets
   * b's position to 0 without moving a: both cells end at position 0.
   */
  lemma MoveToTopAsWritten()
    ensures var nb := map["a" := MCell(0, map[]), "b" := MCell(1, map[])];
            var r := ApplyChangeAsWritten(nb, Change("b", Some(0), map[]), false);
            && Dense(MIndexes(nb))
            && r["a"].cellIndex == 0 && r["b"].cellIndex == 0
            && !Dense(MIndexes(r))
  {
    var nb := map["a" := MCell(0, map[]), "b" := MCell(1, map[])];
    var r := ApplyChangeAsWritten(nb, Change("b", Some(0), map[]), false);
    assert r == map["a" := MCell(0, map[]), "b" := MCell(0, map[])];
    assert MIndexes(r)["a"] == MIndexes(r)["b"];
  }

  /** An update asking to move a cell of the copy from another position to position 0: the one case `||` misreads. */
  predicate MovesToTop(nb: Mirror, c: Change)
  {
    !IsDelete(c) && c.cellId in nb && c.cellIndex == Some(0) && nb[c.cellId].cellIndex != 0
  }

  /** The code as written agrees with the corrected move everywhere except on a move of a cell to position 0. */
  lemma AsWrittenElsewhere(nb: Mirror, c: Change, markModified: bool)
    requires !MovesToTop(nb, c)
    ensures ApplyChangeAsWritten(nb, c, markModified) == ApplyChange(nb, c, markModified)
  {
    if !IsDelete(c) && c.cellId in nb {
      var from := nb[c.cellId].cellIndex;
      assert MoveIndexAsWritten(c, from) == MoveIndex(c, from);
    }
  }

  /** No change of the list moves a cell to the top, each judged against the copy the changes before it left. */
  ghost predicate NoTopMoves(nb: Mirror, changes: seq<Change>, markModified: bool)
    decreases |changes|
  {
    changes == [] || (!MovesToTop(nb, changes[0]) && NoTopMoves(ApplyChange(nb, changes[0], markModified), changes[1..], markModified))
  }

  /** updateNotebook as written equals the corrected fold on every list without a move to the top. */
  lemma {:induction false} AllAsWrittenElsewhere(nb: Mirror, changes: seq<Change>, markModified: bool)
    requires NoTopMoves(nb, changes, markModified)
    ensures ApplyAllAsWritten(nb, changes, markModified) == ApplyAll(nb, changes, markModified)
    decreases |changes|
  {
    if changes != [] {
      AsWrittenElsewhere(nb, changes[0], markModified);
      AllAsWrittenElsewhere(ApplyChange(nb, changes[0], markModified), changes[1..], markModified);
    }
  }

  lemma ApplyOneAsWritten(nb: Mirror, a: Change, markModified: bool)
    ensures ApplyAllAsWritten(nb, [a], markModified) == ApplyChangeAsWritten(nb, a, markModified)
  {
    assert [a][1..] == [];
  }

  lemma {:induction false} ApplyAllAsWrittenAppend(nb: Mirror, xs: seq<Change>, ys: seq<Change>, markModified: bool)
    ensures ApplyAllAsWritten(nb, xs + ys, markModified) == ApplyAllAsWritten(ApplyAllAsWritten(nb, xs, markModified), ys, markModified)
    decreases |xs|
  {
    if xs == [] {
      assert xs + ys == ys;
    } else {
      assert (xs + ys)[0] == xs[0] && (xs + ys)[1..] == xs[1..] + ys;
      ApplyAllAsWrittenAppend(ApplyChangeAsWritten(nb, xs[0], markModified), xs[1..], ys, markModified);
    }
  }

  /**
   * As written, moving a cell of a dense copy to the top leaves it at 0
   * beside the cell already there, for every copy and not only the example
   * above.
   */
  lemma MoveToTopBreaksDensity(nb: Mirror, c: Change, markModified: bool)
    requires Dense(MIndexes(nb)) && MovesToTop(nb, c)
    ensures exists k :: k in nb && k != c.cellId && MIndexes(ApplyChangeAsWritten(nb, c, markModified))[k] == 0
    ensures ApplyChangeAsWritten(nb, c, markModified)[c.cellId].cellIndex == 0
    ensures !Dense(MIndexes(ApplyChangeAsWritten(nb, c, markModified)))
  {
    var id := c.cellId;
    var r := ApplyChangeAsWritten(nb, c, markModified);
    var from := nb[id].cellIndex;
    assert MoveIndexAsWritten(c, from) == from;
    assert r == Marked(nb[id := Spread(nb[id], c)], id, markModified);
    DenseHasEvery(MIndexes(nb), 0);
    var k :| k in nb && MIndexes(nb)[k] == 0;
    assert k != id;
    assert r[k] == nb[k];
    assert MIndexes(r)[k] == 0 == MIndexes(r)[id];
  }

  /** With the move read correctly, every in-range change keeps the mirror's positions 0..N-1. */
  lemma ApplyChangeKeepsDense(nb: Mirror, c: Change, markModified: bool)
    requires Dense(MIndexes(nb))
    requires c.cellIndex.None? || 0 <= c.cellIndex.value < |nb| || (c.cellId !in nb && c.cellIndex.value == |nb|)
    ensures Dense(MIndexes(ApplyChange(nb, c, markModified)))
  {
    if IsDelete(c) {
      MirrorDelete(nb, c, markModified);
    } else if c.cellId in nb {
      MirrorUpdate(nb, c, markModified);
    } else {
      MirrorCreate(nb, c, markModified);
    }
  }
}
