/**
 * The progress invariant of the task hierarchy: every task with children
 * holds the rounded mean of its direct children's progress.  A walk up the
 * ancestor chain restores it after a change below, and creation, deletion and
 * a leaf's update keep it; a progress report does not.
 */
module Aggregation {
  import opened Wrappers
  import opened Schema
  import opened Rounding
  import opened TaskTable

  /** A task with children holds the rounded mean of their progress; a leaf may hold anything. */
  ghost predicate HoldsMean(rows: seq<Task>, t: Task) {
    |ChildRows(rows, t.id)| > 0 ==> t.progress == ChildMean(rows, t.id)
  }

  ghost predicate Consistent(rows: seq<Task>) {
    forall t :: t in rows ==> HoldsMean(rows, t)
  }

  /** Every task holds the mean except possibly those whose ids are in `skip`. */
  ghost predicate ConsistentOutside(rows: seq<Task>, skip: seq<TaskId>) {
    forall t :: t in rows && t.id !in skip ==> HoldsMean(rows, t)
  }

  // ---------------------------------------------------------------- frames

  /** `calculateTaskProgress(p)` writes no row other than `p`'s. */
  lemma RecalcFrame(rows: seq<Task>, p: TaskId)
    ensures forall i :: 0 <= i < |rows| && rows[i].id != p ==> Recalc(rows, p)[i] == rows[i]
  {
  }

  /**
   * `updateParentProgress(s)` writes only the ancestors it visits; in
   * particular `s` itself, its descendants (ids above `s`) and its siblings
   * keep their rows.
   */
  lemma {:induction false} PropagateFrame(rows: seq<Task>, s: TaskId)
    requires ParentsBelow(rows)
    ensures forall i :: 0 <= i < |rows| && rows[i].id !in AncestorIds(rows, s) ==> Propagate(rows, s)[i] == rows[i]
    ensures forall i :: 0 <= i < |rows| && rows[i].id >= s ==> Propagate(rows, s)[i] == rows[i]
    decreases s
  {
    if s != 0 {
      match Lookup(rows, s)
      case None =>
      case Some(i) =>
        match rows[i].parentId
        case None =>
        case Some(p) =>
          assert ParentBelow(rows[i]);
          var next := Recalc(rows, p);
          SameShapeIsSameTree(next, rows);
          AncestorIdsSameTree(next, rows, p);
          PropagateFrame(next, p);
          RecalcFrame(rows, p);
    }
  }

  /** A sibling of `s` (another child of its parent) is not written by `updateParentProgress(s)`. */
  lemma PropagateSkipsSiblings(rows: seq<Task>, s: TaskId, i: nat, j: nat)
    requires ParentsBelow(rows)
    requires i < |rows| && rows[i].id == s && s != 0 && rows[i].parentId.Some?
    requires j < |rows| && rows[j].parentId == rows[i].parentId
    requires Lookup(rows, s) == Some(i)
    ensures Propagate(rows, s)[j] == rows[j]
  {
    var p := rows[i].parentId.value;
    AncestorsUpToParent(rows, s, i);
    assert ParentBelow(rows[j]);
    assert rows[j].id !in AncestorIds(rows, s);
    PropagateFrame(rows, s);
  }

  /** Every id the walk from `s` visits is at most `s`'s parent. */
  lemma AncestorsUpToParent(rows: seq<Task>, s: TaskId, i: nat)
    requires ParentsBelow(rows)
    requires i < |rows| && rows[i].id == s && s != 0 && rows[i].parentId.Some?
    requires Lookup(rows, s) == Some(i)
    ensures forall k :: 0 <= k < |AncestorIds(rows, s)| ==> AncestorIds(rows, s)[k] <= rows[i].parentId.value
  {
    var p := rows[i].parentId.value;
    assert AncestorIds(rows, s) == [p] + AncestorIds(rows, p);
  }

  // ---------------------------------------------------------------- restoring the invariant

  lemma SameStatsSameMean(a: seq<Task>, b: seq<Task>, q: TaskId)
    requires |ChildRows(a, q)| == |ChildRows(b, q)| > 0
    requires SumProgress(ChildRows(a, q)) == SumProgress(ChildRows(b, q))
    ensures ChildMean(a, q) == ChildMean(b, q)
  {
  }

  /** The child statistics of `q` survive `calculateTaskProgress(p)` unless `p`'s row is a child of `q`. */
  lemma RecalcKeepsStats(rows: seq<Task>, p: TaskId, q: TaskId)
    requires DistinctIds(rows) && ParentsBelow(rows)
    requires forall i :: 0 <= i < |rows| && rows[i].id == p ==> rows[i].parentId != Some(q)
    ensures |ChildRows(Recalc(rows, p), q)| == |ChildRows(rows, q)|
    ensures SumProgress(ChildRows(Recalc(rows, p), q)) == SumProgress(ChildRows(rows, q))
  {
    var next := Recalc(rows, p);
    SameShapeIsSameTree(next, rows);
    RecalcFrame(rows, p);
    ChildStatsFrame(next, rows, q);
  }

  /**
   * Recalculating `p` makes it hold its mean, and disturbs no task outside
   * `p`'s own ancestors.
   */
  lemma RecalcRestoresOutside(rows: seq<Task>, p: TaskId)
    requires DistinctIds(rows) && ParentsBelow(rows)
    requires ConsistentOutside(rows, [p] + AncestorIds(rows, p))
    ensures ConsistentOutside(Recalc(rows, p), AncestorIds(rows, p))
  {
    var next := Recalc(rows, p);
    SameShapeIsSameTree(next, rows);
    RecalcFrame(rows, p);
    forall t | t in next && t.id !in AncestorIds(rows, p)
      ensures HoldsMean(next, t)
    {
      var i :| 0 <= i < |next| && next[i] == t;
      if t.id == p {
        forall j | 0 <= j < |rows| && rows[j].id == p
          ensures rows[j].parentId != Some(p)
        {
          assert ParentBelow(rows[j]);
        }
        RecalcKeepsStats(rows, p, p);
      } else {
        assert t == rows[i];
        forall j | 0 <= j < |rows| && rows[j].id == p
          ensures rows[j].parentId != Some(t.id)
        {
          if rows[j].parentId == Some(t.id) {
            assert ParentBelow(rows[j]);
            LookupDistinct(rows, j);
          }
        }
        RecalcKeepsStats(rows, p, t.id);
        if |ChildRows(rows, t.id)| > 0 {
          SameStatsSameMean(next, rows, t.id);
        }
      }
    }
  }

  /**
   * The walk restores the invariant: if every task off the ancestor chain of
   * `s` holds its mean, then after `updateParentProgress(s)` every task does.
   */
  lemma {:induction false} PropagateRestores(rows: seq<Task>, s: TaskId)
    requires DistinctIds(rows) && ParentsBelow(rows)
    requires ConsistentOutside(rows, AncestorIds(rows, s))
    ensures Consistent(Propagate(rows, s))
    decreases s
  {
    if s != 0 {
      match Lookup(rows, s)
      case None =>
      case Some(i) =>
        match rows[i].parentId
        case None =>
        case Some(p) =>
          assert ParentBelow(rows[i]);
          assert AncestorIds(rows, s) == [p] + AncestorIds(rows, p);
          var next := Recalc(rows, p);
          SameShapeIsSameTree(next, rows);
          SameTreeKeepsWellFormed(next, rows, 0);
          AncestorIdsSameTree(next, rows, p);
          RecalcRestoresOutside(rows, p);
          PropagateRestores(next, p);
    }
  }

  // ---------------------------------------------------------------- the operations

  lemma {:induction false} ChildRowsConcat(a: seq<Task>, b: seq<Task>, q: TaskId)
    ensures ChildRows(a + b, q) == ChildRows(a, q) + ChildRows(b, q)
    decreases |b|
  {
    if |b| == 0 {
      assert a + b == a;
    } else {
      var c, b' := a + b, b[..|b| - 1];
      var last := b[|b| - 1];
      assert c[..|c| - 1] == a + b';
      assert c[|c| - 1] == last;
      var tail := if last.parentId == Some(q) then [last] else [];
      ChildRowsConcat(a, b', q);
      ChildRowsSnoc(c, q);
      ChildRowsSnoc(b, q);
      calc {
        ChildRows(c, q);
        ChildRows(a + b', q) + tail;
        (ChildRows(a, q) + ChildRows(b', q)) + tail;
        ChildRows(a, q) + (ChildRows(b', q) + tail);
        ChildRows(a, q) + ChildRows(b, q);
      }
    }
  }

  /** Deleting rows that are not children of `q` leaves `q`'s children as they were. */
  lemma {:induction false} RemoveKeepsChildren(rows: seq<Task>, id: TaskId, q: TaskId)
    requires forall i :: 0 <= i < |rows| && rows[i].id == id ==> rows[i].parentId != Some(q)
    ensures ChildRows(RemoveRow(rows, id), q) == ChildRows(rows, q)
  {
    if |rows| > 0 {
      var pre, last := rows[..|rows| - 1], rows[|rows| - 1];
      RemoveKeepsChildren(pre, id, q);
      ChildRowsSnoc(rows, q);
      var kept := if last.id == id then [] else [last];
      ChildRowsConcat(RemoveRow(pre, id), kept, q);
      if last.id == id {
        assert ChildRows(rows, q) == ChildRows(pre, q) + [];
      } else {
        assert kept[..0] == [];
        ChildRowsSnoc(kept, q);
      }
    }
  }

  lemma {:induction false} NoChildRows(rows: seq<Task>, q: TaskId)
    requires forall i :: 0 <= i < |rows| ==> rows[i].parentId != Some(q)
    ensures ChildRows(rows, q) == []
  {
    if |rows| > 0 {
      NoChildRows(rows[..|rows| - 1], q);
      ChildRowsSnoc(rows, q);
    }
  }

  /** A task just inserted with a fresh, largest id has no children. */
  lemma FreshIdIsLeaf(rows: seq<Task>, nextId: nat, t: Task)
    requires WellFormed(rows, nextId) && t.id == nextId && ParentBelow(t)
    ensures ChildRows(rows + [t], t.id) == []
  {
    var added := rows + [t];
    forall i | 0 <= i < |added|
      ensures added[i].parentId != Some(t.id)
    {
      if i < |rows| {
        assert added[i] == rows[i];
        assert ParentBelow(rows[i]);
      }
    }
    NoChildRows(added, t.id);
  }

  /** `createTask` keeps every task holding the mean of its children. */
  lemma CreateKeepsConsistent(rows: seq<Task>, nextId: nat, t: Task)
    requires WellFormed(rows, nextId) && Consistent(rows)
    requires t.id == nextId >= 1 && ParentBelow(t)
    ensures Consistent(AfterCreate(rows, t))
  {
    var added := rows + [t];
    AppendKeepsWellFormed(rows, nextId, t);
    FreshIdIsLeaf(rows, nextId, t);
    ChildRowsConcat(rows, [t], t.id);
    forall u | u in added && Some(u.id) != t.parentId
      ensures HoldsMean(added, u)
    {
      if u != t {
        assert u in rows;
        ChildRowsConcat(rows, [t], u.id);
        assert ChildRows([t], u.id) == [];
        assert ChildRows(rows, u.id) + [] == ChildRows(rows, u.id);
      }
    }
    if t.parentId.Some? {
      var p := t.parentId.value;
      LookupDistinct(added, |rows|);
      assert AncestorIds(added, t.id) == [p] + AncestorIds(added, p);
      PropagateRestores(added, t.id);
    }
  }

  /** After the UPDATE of `updateTask`, the only task that may miss its mean is an ancestor of the updated one. */
  lemma PatchedHoldsMean(rows: seq<Task>, nextId: nat, id: TaskId, dto: UpdateTaskDto, u: Task)
    requires WellFormed(rows, nextId) && Consistent(rows)
    requires dto.progress.None? || |ChildRows(rows, id)| == 0
    requires u in ApplyFields(rows, id, dto)
    requires dto.progress.None? || u.id !in AncestorIds(rows, id)
    ensures HoldsMean(ApplyFields(rows, id, dto), u)
  {
    var patched := ApplyFields(rows, id, dto);
    var i :| 0 <= i < |patched| && patched[i] == u;
    forall j | 0 <= j < |rows| && rows[j].parentId == Some(u.id)
      ensures patched[j].progress == rows[j].progress
    {
      if rows[j].id == id && dto.progress.Some? {
        assert ParentBelow(rows[j]);
        LookupDistinct(rows, j);
      }
    }
    ChildStatsFrame(patched, rows, u.id);
    if |ChildRows(patched, u.id)| > 0 {
      var w := rows[i];
      assert w.id == u.id && w in rows;
      assert HoldsMean(rows, w);
      if w.id == id {
        assert dto.progress.None?;
        assert u == Patched(w, dto);
      } else {
        assert u == w;
      }
      assert u.progress == w.progress;
      SameStatsSameMean(patched, rows, u.id);
    }
  }

  /**
   * `updateTask` keeps the invariant when it does not overwrite the progress
   * of a task that has children.
   */
  lemma UpdateKeepsConsistent(rows: seq<Task>, nextId: nat, id: TaskId, dto: UpdateTaskDto)
    requires WellFormed(rows, nextId) && Consistent(rows)
    requires dto.progress.None? || |ChildRows(rows, id)| == 0
    ensures Consistent(AfterUpdate(rows, id, dto))
  {
    if !dto.IsEmpty() {
      var patched := ApplyFields(rows, id, dto);
      SameTreeKeepsWellFormed(patched, rows, nextId);
      AncestorIdsSameTree(patched, rows, id);
      forall u | u in patched && (dto.progress.None? || u.id !in AncestorIds(rows, id))
        ensures HoldsMean(patched, u)
      {
        PatchedHoldsMean(rows, nextId, id, dto, u);
      }
      if dto.progress.Some? || dto.status.Some? {
        PropagateRestores(patched, id);
      }
    }
  }

  /** `deleteTask` keeps every task holding the mean of its remaining children. */
  lemma DeleteKeepsConsistent(rows: seq<Task>, nextId: nat, id: TaskId)
    requires WellFormed(rows, nextId) && Consistent(rows)
    ensures Consistent(AfterDelete(rows, id))
  {
    if |ChildRows(rows, id)| == 0 && Find(rows, id).Some? {
      var t := Find(rows, id).value;
      var removed := RemoveRow(rows, id);
      RemoveRowKeepsShape(rows, id);
      RemoveRowMembers(rows, id);
      forall u | u in removed && Some(u.id) != t.parentId
        ensures HoldsMean(removed, u)
      {
        forall i | 0 <= i < |rows| && rows[i].id == id
          ensures rows[i].parentId != Some(u.id)
        {
          var k :| 0 <= k < |rows| && rows[k] == t;
        }
        RemoveKeepsChildren(rows, id, u.id);
      }
      if t.parentId.Some? {
        var p := t.parentId.value;
        var recalculated := Recalc(removed, p);
        assert AfterDelete(rows, id) == RecalcUp(removed, p);
        RecalcRestoresOutside(removed, p);
        SameShapeIsSameTree(recalculated, removed);
        AncestorIdsSameTree(recalculated, removed, p);
        SameTreeKeepsWellFormed(recalculated, removed, 0);
        PropagateRestores(recalculated, p);
      }
    }
  }

  /** The row `calculateTaskProgress(p)` leaves for a task `w` with id `p`. */
  lemma RecalcRowOf(rows: seq<Task>, p: TaskId, k: nat)
    requires k < |rows| && rows[k].id == p
    ensures Recalc(rows, p)[k] ==
      rows[k].(progress := if |ChildRows(rows, p)| > 0 then ChildMean(rows, p) else rows[k].progress)
  {
  }

  /** `w` is the one row with id `w.id`. */
  ghost predicate RowIs(rows: seq<Task>, w: Task) {
    w in rows && forall u :: u in rows && u.id == w.id ==> u == w
  }

  lemma DistinctRowIs(rows: seq<Task>, k: nat)
    requires DistinctIds(rows) && k < |rows|
    ensures RowIs(rows, rows[k])
  {
    forall u | u in rows && u.id == rows[k].id
      ensures u == rows[k]
    {
      var i :| 0 <= i < |rows| && rows[i] == u;
    }
  }

  lemma RowIsFound(rows: seq<Task>, w: Task)
    requires RowIs(rows, w)
    ensures Find(rows, w.id) == Some(w)
  {
  }

  /** Recalculating `w` and walking up from it leaves one row for `w`, holding the recalculated value. */
  lemma RecalcThenPropagateRow(rows: seq<Task>, w: Task)
    requires ParentsBelow(rows) && RowIs(rows, w)
    ensures var p := w.id;
      var v := if |ChildRows(rows, p)| > 0 then ChildMean(rows, p) else w.progress;
      RowIs(RecalcUp(rows, p), w.(progress := v))
  {
    var p := w.id;
    var v := if |ChildRows(rows, p)| > 0 then ChildMean(rows, p) else w.progress;
    var rec := Recalc(rows, p);
    SameShapeIsSameTree(rec, rows);
    SameTreeKeepsWellFormed(rec, rows, 0);
    var after := Propagate(rec, p);
    PropagateFrame(rec, p);
    forall k | 0 <= k < |after| && after[k].id == p
      ensures after[k] == w.(progress := v)
    {
      assert rows[k] in rows;
      RecalcRowOf(rows, p, k);
    }
    var k :| 0 <= k < |rows| && rows[k] == w;
    RecalcRowOf(rows, p, k);
    assert after[k] in after;
  }

  /** Deleting another row keeps the one row of `w`. */
  lemma RemoveKeepsRow(rows: seq<Task>, id: TaskId, w: Task)
    requires RowIs(rows, w) && w.id != id
    ensures RowIs(RemoveRow(rows, id), w)
  {
    RemoveRowMembers(rows, id);
  }

  /**
   * `deleteTask` on a leaf recalculates its parent from the remaining
   * children; when the deleted task was the only child, the parent keeps the
   * value it had, which nothing recomputes afterwards.
   */
  lemma DeleteRecalculatesParent(rows: seq<Task>, id: TaskId, j: nat)
    requires DistinctIds(rows) && ParentsBelow(rows)
    requires |ChildRows(rows, id)| == 0
    requires j < |rows| && Find(rows, id).Some? && Find(rows, id).value.parentId == Some(rows[j].id)
    ensures var p, removed := rows[j].id, RemoveRow(rows, id);
      Find(AfterDelete(rows, id), p) ==
        Some(rows[j].(progress := if |ChildRows(removed, p)| > 0 then ChildMean(removed, p) else rows[j].progress))
  {
    var w, t := rows[j], Find(rows, id).value;
    var ti :| 0 <= ti < |rows| && rows[ti] == t;
    assert ParentBelow(rows[ti]);
    DistinctRowIs(rows, j);
    var removed := RemoveRow(rows, id);
    LeafDeleteIsRecalcUp(rows, id, w.id);
    RemoveKeepsRow(rows, id, w);
    RecalcUpFinds(removed, w);
  }

  /** Deleting a leaf with a parent is removing its row, then recalculating and walking up from the parent. */
  lemma LeafDeleteIsRecalcUp(rows: seq<Task>, id: TaskId, p: TaskId)
    requires DistinctIds(rows) && ParentsBelow(rows)
    requires |ChildRows(rows, id)| == 0
    requires Find(rows, id).Some? && Find(rows, id).value.parentId == Some(p)
    ensures ParentsBelow(RemoveRow(rows, id))
    ensures AfterDelete(rows, id) == RecalcUp(RemoveRow(rows, id), p)
  {
    RemoveRowKeepsShape(rows, id);
  }

  /** After recalculating `w` and walking up from it, looking `w` up finds the recalculated row. */
  lemma RecalcUpFinds(rows: seq<Task>, w: Task)
    requires ParentsBelow(rows) && RowIs(rows, w)
    ensures var v := if |ChildRows(rows, w.id)| > 0 then ChildMean(rows, w.id) else w.progress;
      Find(RecalcUp(rows, w.id), w.id) == Some(w.(progress := v))
  {
    RecalcThenPropagateRow(rows, w);
    var v := if |ChildRows(rows, w.id)| > 0 then ChildMean(rows, w.id) else w.progress;
    RowIsFound(RecalcUp(rows, w.id), w.(progress := v));
  }

  /** A task that is the only child of a parent with a given id */
  ghost predicate OnlyChild(rows: seq<Task>, id: TaskId, p: TaskId) {
    forall t :: t in rows && t.parentId == Some(p) ==> t.id == id
  }

  /** Deleting the last child of a task leaves that task's progress as it was. */
  lemma DeleteLastChildKeepsParent(rows: seq<Task>, id: TaskId, j: nat)
    requires DistinctIds(rows) && ParentsBelow(rows)
    requires |ChildRows(rows, id)| == 0
    requires j < |rows| && Find(rows, id).Some? && Find(rows, id).value.parentId == Some(rows[j].id)
    requires OnlyChild(rows, id, rows[j].id)
    ensures Find(AfterDelete(rows, id), rows[j].id) == Some(rows[j])
  {
    DeleteRecalculatesParent(rows, id, j);
    RemoveRowMembers(rows, id);
    var removed := RemoveRow(rows, id);
    forall i | 0 <= i < |removed|
      ensures removed[i].parentId != Some(rows[j].id)
    {
      assert removed[i] in removed;
    }
    NoChildRows(removed, rows[j].id);
  }
}
