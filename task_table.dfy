/**
 * The `tasks` table as a sequence of rows, the queries the task service
 * issues against it, and the effect on the table of each service operation.
 * Row order is insertion order; ids are auto-increment, so they are distinct,
 * and because a parent must be issued before its child (see `CreateTask`) a
 * stored parent id is smaller than the row's own id, which makes every
 * ancestor chain finite.
 */
module TaskTable {
  import opened Wrappers
  import opened Schema
  import opened Rounding

  // ---------------------------------------------------------------- shape

  ghost predicate DistinctIds(rows: seq<Task>) {
    forall i, j :: 0 <= i < |rows| && 0 <= j < |rows| && i != j ==> rows[i].id != rows[j].id
  }

  predicate ParentBelow(t: Task) {
    t.parentId.Some? ==> t.parentId.value < t.id
  }

  ghost predicate ParentsBelow(rows: seq<Task>) {
    forall i :: 0 <= i < |rows| ==> ParentBelow(rows[i])
  }

  /** The table invariant: distinct ids in `[1, nextId)`, parents issued before children. */
  ghost predicate WellFormed(rows: seq<Task>, nextId: nat) {
    && DistinctIds(rows)
    && ParentsBelow(rows)
    && forall i :: 0 <= i < |rows| ==> 1 <= rows[i].id < nextId
  }

  /** `a` and `b` have the same rows in the same places, with the same ids and parents. */
  ghost predicate SameTree(a: seq<Task>, b: seq<Task>) {
    |a| == |b| && forall i :: 0 <= i < |a| ==> a[i].id == b[i].id && a[i].parentId == b[i].parentId
  }

  /** `a` is `b` with at most the `progress` column changed. */
  ghost predicate SameShape(a: seq<Task>, b: seq<Task>) {
    |a| == |b| && forall i :: 0 <= i < |a| ==> a[i] == b[i].(progress := a[i].progress)
  }

  lemma SameShapeTransitive(a: seq<Task>, b: seq<Task>, c: seq<Task>)
    requires SameShape(a, b) && SameShape(b, c)
    ensures SameShape(a, c)
  {
  }

  lemma SameShapeIsSameTree(a: seq<Task>, b: seq<Task>)
    requires SameShape(a, b)
    ensures SameTree(a, b)
  {
    assert forall i :: 0 <= i < |a| ==> a[i].id == b[i].id && a[i].parentId == b[i].parentId;
  }

  lemma SameTreeKeepsWellFormed(a: seq<Task>, b: seq<Task>, nextId: nat)
    requires SameTree(a, b)
    ensures ParentsBelow(b) ==> ParentsBelow(a)
    ensures DistinctIds(b) ==> DistinctIds(a)
    ensures WellFormed(b, nextId) ==> WellFormed(a, nextId)
  {
  }

  // ---------------------------------------------------------------- queries

  /** `SELECT ... WHERE task_id = ?`: the position of the row with that id. */
  function Lookup(rows: seq<Task>, id: TaskId): (r: Option<nat>)
    ensures r.Some? ==> r.value < |rows| && rows[r.value].id == id
    ensures r.None? <==> forall i :: 0 <= i < |rows| ==> rows[i].id != id
  {
    if |rows| == 0 then None
    else if rows[|rows| - 1].id == id then Some(|rows| - 1)
    else Lookup(rows[..|rows| - 1], id)
  }

  /** `getTaskById`: the row with that id, if any. */
  function Find(rows: seq<Task>, id: TaskId): (r: Option<Task>)
    ensures r.Some? ==> r.value in rows && r.value.id == id
    ensures r.None? <==> forall t :: t in rows ==> t.id != id
  {
    match Lookup(rows, id)
    case None => None
    case Some(i) => Some(rows[i])
  }

  lemma LookupDistinct(rows: seq<Task>, i: nat)
    requires DistinctIds(rows) && i < |rows|
    ensures Lookup(rows, rows[i].id) == Some(i)
  {
  }

  lemma LookupSameTree(a: seq<Task>, b: seq<Task>, id: TaskId)
    requires SameTree(a, b)
    ensures Lookup(a, id) == Lookup(b, id)
  {
    if |a| > 0 {
      assert SameTree(a[..|a| - 1], b[..|b| - 1]);
      LookupSameTree(a[..|a| - 1], b[..|b| - 1], id);
    }
  }

  /** `WHERE parent_id = ?`: the direct children of `p`, in table order. */
  function ChildRows(rows: seq<Task>, p: TaskId): (r: seq<Task>)
    ensures |r| <= |rows|
    ensures forall t :: t in r <==> t in rows && t.parentId == Some(p)
  {
    if |rows| == 0 then []
    else
      var last := rows[|rows| - 1];
      assert rows == rows[..|rows| - 1] + [last];
      ChildRows(rows[..|rows| - 1], p) + (if last.parentId == Some(p) then [last] else [])
  }

  /** `sum(progress)` over some rows. */
  function SumProgress(s: seq<Task>): nat {
    if |s| == 0 then 0 else SumProgress(s[..|s| - 1]) + s[|s| - 1].progress
  }

  /** `Math.round(AVG(progress))` over the direct children of `p`. */
  function ChildMean(rows: seq<Task>, p: TaskId): nat
    requires |ChildRows(rows, p)| > 0
  {
    RoundedMean(SumProgress(ChildRows(rows, p)), |ChildRows(rows, p)|)
  }

  /**
   * Two tables with the same parents, agreeing on the progress of every child
   * of `q`, give `q` the same number of children and the same progress sum.
   */
  lemma ChildStatsFrame(a: seq<Task>, b: seq<Task>, q: TaskId)
    requires |a| == |b|
    requires forall i :: 0 <= i < |a| ==> a[i].parentId == b[i].parentId
    requires forall i :: 0 <= i < |a| && a[i].parentId == Some(q) ==> a[i].progress == b[i].progress
    ensures |ChildRows(a, q)| == |ChildRows(b, q)|
    ensures SumProgress(ChildRows(a, q)) == SumProgress(ChildRows(b, q))
  {
    if |a| > 0 {
      var a', b' := a[..|a| - 1], b[..|b| - 1];
      ChildStatsFrame(a', b', q);
      ChildRowsSnoc(a, q);
      ChildRowsSnoc(b, q);
      var x, y := a[|a| - 1], b[|b| - 1];
      assert x.parentId == y.parentId;
      if x.parentId == Some(q) {
        assert x.progress == y.progress;
        SumProgressAppend(ChildRows(a', q), x);
        SumProgressAppend(ChildRows(b', q), y);
      } else {
        assert ChildRows(a, q) == ChildRows(a', q) + [];
        assert ChildRows(a', q) + [] == ChildRows(a', q);
        assert ChildRows(b, q) == ChildRows(b', q) + [];
        assert ChildRows(b', q) + [] == ChildRows(b', q);
      }
    }
  }

  /** One step of ChildRows' definition, as a fact. */
  lemma ChildRowsSnoc(rows: seq<Task>, q: TaskId)
    requires |rows| > 0
    ensures ChildRows(rows, q) == ChildRows(rows[..|rows| - 1], q) +
      (if rows[|rows| - 1].parentId == Some(q) then [rows[|rows| - 1]] else [])
  {
  }

  lemma SumProgressAppend(s: seq<Task>, t: Task)
    ensures SumProgress(s + [t]) == SumProgress(s) + t.progress
  {
    assert (s + [t])[..|s|] == s;
  }

  // ---------------------------------------------------------------- writes

  /** `UPDATE tasks SET progress = v WHERE task_id = id` (no row: no change). */
  function SetProgress(rows: seq<Task>, id: TaskId, v: nat): (r: seq<Task>)
    ensures SameShape(r, rows)
    ensures forall i :: 0 <= i < |rows| ==> r[i].progress == if rows[i].id == id then v else rows[i].progress
  {
    seq(|rows|, i requires 0 <= i < |rows| => if rows[i].id == id then rows[i].(progress := v) else rows[i])
  }

  /** `DELETE FROM tasks WHERE task_id = id`. */
  function RemoveRow(rows: seq<Task>, id: TaskId): (r: seq<Task>)
    ensures |r| <= |rows|
  {
    if |rows| == 0 then []
    else RemoveRow(rows[..|rows| - 1], id) + (if rows[|rows| - 1].id == id then [] else [rows[|rows| - 1]])
  }

  /** Deleting keeps exactly the rows with another id. */
  lemma {:induction false} RemoveRowMembers(rows: seq<Task>, id: TaskId)
    ensures forall t :: t in RemoveRow(rows, id) <==> t in rows && t.id != id
  {
    if |rows| > 0 {
      RemoveRowMembers(rows[..|rows| - 1], id);
      assert rows == rows[..|rows| - 1] + [rows[|rows| - 1]];
    }
  }

  /** With distinct ids, deleting removes one row when the id is present and none otherwise. */
  lemma {:induction false} RemoveRowCount(rows: seq<Task>, id: TaskId)
    requires DistinctIds(rows)
    ensures Find(rows, id).None? ==> RemoveRow(rows, id) == rows
    ensures Find(rows, id).Some? ==> |RemoveRow(rows, id)| == |rows| - 1
  {
    if |rows| > 0 {
      var pre, last := rows[..|rows| - 1], rows[|rows| - 1];
      assert rows == pre + [last];
      RemoveRowCount(pre, id);
      if last.id == id {
        assert forall t :: t in pre ==> t.id != id;
      } else {
        assert Find(rows, id).Some? ==> Find(pre, id).Some?;
      }
    }
  }

  // ---------------------------------------------------------------- aggregation

  /**
   * The table after `calculateTaskProgress(id)`: a task without children is
   * not written; otherwise it is set to the rounded mean of its children.
   */
  function Recalc(rows: seq<Task>, id: TaskId): (r: seq<Task>)
    ensures SameShape(r, rows)
  {
    if |ChildRows(rows, id)| == 0 then rows else SetProgress(rows, id, ChildMean(rows, id))
  }

  /** The value `calculateTaskProgress(id)` returns. */
  function RecalcValue(rows: seq<Task>, id: TaskId): nat {
    if |ChildRows(rows, id)| == 0 then
      match Find(rows, id)
      case None => 0
      case Some(t) => t.progress
    else ChildMean(rows, id)
  }

  /** Every row's progress is at most `bound`. */
  ghost predicate ProgressAtMost(rows: seq<Task>, bound: nat) {
    forall i :: 0 <= i < |rows| ==> rows[i].progress <= bound
  }

  lemma {:induction false} SumProgressAtMost(s: seq<Task>, bound: nat)
    requires ProgressAtMost(s, bound)
    ensures SumProgress(s) <= |s| * bound
  {
    if |s| > 0 {
      SumProgressAtMost(s[..|s| - 1], bound);
      assert |s| * bound == (|s| - 1) * bound + bound;
    }
  }

  /** The rounded mean of the children never exceeds a bound on every row's progress. */
  lemma ChildMeanAtMost(rows: seq<Task>, p: TaskId, bound: nat)
    requires |ChildRows(rows, p)| > 0 && ProgressAtMost(rows, bound)
    ensures ChildMean(rows, p) <= bound
  {
    var c := ChildRows(rows, p);
    forall i | 0 <= i < |c| ensures c[i].progress <= bound {
      assert c[i] in rows;
    }
    SumProgressAtMost(c, bound);
    RoundedMeanAtMost(SumProgress(c), |c|, bound);
  }

  /** `calculateTaskProgress` returns a value within any bound that holds for every row. */
  lemma RecalcValueAtMost(rows: seq<Task>, id: TaskId, bound: nat)
    requires ProgressAtMost(rows, bound)
    ensures RecalcValue(rows, id) <= bound
  {
    if |ChildRows(rows, id)| > 0 {
      ChildMeanAtMost(rows, id, bound);
    } else if Find(rows, id).Some? {
      assert Find(rows, id).value in rows;
    }
  }

  /**
   * The ids `updateParentProgress(id)` passes to `calculateTaskProgress`,
   * nearest first: the walk stops at id 0, at a missing row and at a root.
   */
  function AncestorIds(rows: seq<Task>, id: TaskId): (r: seq<TaskId>)
    requires ParentsBelow(rows)
    ensures forall k :: 0 <= k < |r| ==> r[k] < id
    ensures forall j, k :: 0 <= j < k < |r| ==> r[k] < r[j]
    decreases id
  {
    if id == 0 then []
    else
      match Lookup(rows, id)
      case None => []
      case Some(i) =>
        match rows[i].parentId
        case None => []
        case Some(p) =>
          assert ParentBelow(rows[i]);
          [p] + AncestorIds(rows, p)
  }

  /** The table after `updateParentProgress(id)`. */
  function Propagate(rows: seq<Task>, id: TaskId): (r: seq<Task>)
    requires ParentsBelow(rows)
    ensures SameShape(r, rows)
    decreases id
  {
    if id == 0 then rows
    else
      match Lookup(rows, id)
      case None => rows
      case Some(i) =>
        match rows[i].parentId
        case None => rows
        case Some(p) =>
          assert ParentBelow(rows[i]);
          var next := Recalc(rows, p);
          SameShapeIsSameTree(next, rows);
          SameTreeKeepsWellFormed(next, rows, 0);
          var r := Propagate(next, p);
          SameShapeTransitive(r, next, rows);
          r
  }

  lemma AncestorIdsSameTree(a: seq<Task>, b: seq<Task>, id: TaskId)
    requires SameTree(a, b) && ParentsBelow(b)
    ensures ParentsBelow(a)
    ensures AncestorIds(a, id) == AncestorIds(b, id)
    decreases id
  {
    SameTreeKeepsWellFormed(a, b, 0);
    LookupSameTree(a, b, id);
    if id != 0 {
      match Lookup(b, id)
      case None =>
      case Some(i) =>
        assert a[i].parentId == b[i].parentId;
        match b[i].parentId
        case None =>
        case Some(p) =>
          assert ParentBelow(b[i]);
          AncestorIdsSameTree(a, b, p);
    }
  }

  // ---------------------------------------------------------------- creation

  /** `level` of a new task: one below its parent when the parent id is truthy and its row exists. */
  function NewLevel(rows: seq<Task>, parent: Option<TaskId>): (r: nat)
    ensures r > 0 <==> parent.Some? && parent.value != 0 && Find(rows, parent.value).Some?
    ensures r > 0 ==> r == Find(rows, parent.value).value.level + 1
  {
    if parent.Some? && parent.value != 0 then
      match Find(rows, parent.value)
      case Some(t) => t.level + 1
      case None => 0
    else 0
  }

  /** `MAX(sort_order)` over the rows whose `parent_id` is `parent` (NULL compares with IS NULL). */
  function MaxSortOrder(rows: seq<Task>, parent: Option<TaskId>): (m: Option<int>)
    ensures m.None? <==> forall i :: 0 <= i < |rows| ==> rows[i].parentId != parent
    ensures m.Some? ==> exists i :: 0 <= i < |rows| && rows[i].parentId == parent && rows[i].sortOrder == m.value
    ensures m.Some? ==> forall i :: 0 <= i < |rows| && rows[i].parentId == parent ==> rows[i].sortOrder <= m.value
  {
    if |rows| == 0 then None
    else
      var rest := MaxSortOrder(rows[..|rows| - 1], parent);
      var last := rows[|rows| - 1];
      if last.parentId != parent then rest
      else
        match rest
        case None => Some(last.sortOrder)
        case Some(m) => Some(if last.sortOrder > m then last.sortOrder else m)
  }

  /** `COALESCE(MAX(sort_order), 0) + 1` over the new task's siblings. */
  function NextSortOrder(rows: seq<Task>, parent: Option<TaskId>): (r: int)
    ensures forall i :: 0 <= i < |rows| && rows[i].parentId == parent ==> rows[i].sortOrder < r
    ensures (forall i :: 0 <= i < |rows| ==> rows[i].parentId != parent) ==> r == 1
    ensures (exists i :: 0 <= i < |rows| && rows[i].parentId == parent) ==>
      exists i :: 0 <= i < |rows| && rows[i].parentId == parent && rows[i].sortOrder == r - 1
  {
    MaxSortOrder(rows, parent).GetOr(0) + 1
  }

  /** The row `createTask` inserts, with the DTO's defaults filled in. */
  function NewTaskRow(rows: seq<Task>, id: TaskId, dto: CreateTaskDto, userId: UserId): (r: Task)
    ensures r.id == id && r.projectId == dto.projectId && r.parentId == dto.parentId && r.createdBy == userId
    ensures r.actualHours == 0 && r.level == NewLevel(rows, dto.parentId)
    ensures dto.progress.None? ==> r.progress == 0
    ensures dto.status.None? ==> r.status == Pending
    ensures dto.priority.None? ==> r.priority == Medium
    ensures forall i :: 0 <= i < |rows| && rows[i].parentId == dto.parentId ==> rows[i].sortOrder < r.sortOrder
  {
    Task(id, dto.projectId, dto.parentId, dto.name, dto.desc, dto.assignedTo, dto.startDate, dto.endDate,
         dto.estimatedHours.GetOr(0), 0, dto.priority.GetOr(Medium), dto.status.GetOr(Pending),
         dto.progress.GetOr(0), NewLevel(rows, dto.parentId), NextSortOrder(rows, dto.parentId), userId)
  }

  lemma AppendKeepsWellFormed(rows: seq<Task>, nextId: nat, t: Task)
    requires WellFormed(rows, nextId) && t.id == nextId >= 1 && ParentBelow(t)
    ensures WellFormed(rows + [t], nextId + 1)
  {
  }

  /** The table after `createTask` inserted `t`. */
  function AfterCreate(rows: seq<Task>, t: Task): (r: seq<Task>)
    requires ParentsBelow(rows) && ParentBelow(t)
    ensures SameShape(r, rows + [t])
  {
    var added := rows + [t];
    assert ParentsBelow(added) by {
      assert forall i :: 0 <= i < |rows| ==> added[i] == rows[i];
    }
    if t.parentId.Some? then Propagate(added, t.id) else added
  }

  // ---------------------------------------------------------------- updates

  /** A row after `UPDATE tasks SET <supplied fields>`. */
  function Patched(t: Task, dto: UpdateTaskDto): (r: Task)
    ensures r.id == t.id && r.projectId == t.projectId && r.parentId == t.parentId
    ensures r.level == t.level && r.sortOrder == t.sortOrder && r.createdBy == t.createdBy
    ensures dto.progress.None? ==> r.progress == t.progress
    ensures dto.IsEmpty() ==> r == t
  {
    t.(name := dto.name.GetOr(t.name),
       desc := if dto.desc.Some? then dto.desc else t.desc,
       assignedTo := dto.assignedTo.GetOr(t.assignedTo),
       startDate := if dto.startDate.Some? then dto.startDate else t.startDate,
       endDate := if dto.endDate.Some? then dto.endDate else t.endDate,
       estimatedHours := dto.estimatedHours.GetOr(t.estimatedHours),
       actualHours := dto.actualHours.GetOr(t.actualHours),
       priority := dto.priority.GetOr(t.priority),
       status := dto.status.GetOr(t.status),
       progress := dto.progress.GetOr(t.progress))
  }

  function ApplyFields(rows: seq<Task>, id: TaskId, dto: UpdateTaskDto): (r: seq<Task>)
    ensures SameTree(r, rows)
  {
    seq(|rows|, i requires 0 <= i < |rows| => if rows[i].id == id then Patched(rows[i], dto) else rows[i])
  }

  /** The table after `updateTask(id, dto)`; propagation only when progress or status is supplied. */
  function AfterUpdate(rows: seq<Task>, id: TaskId, dto: UpdateTaskDto): (r: seq<Task>)
    requires ParentsBelow(rows)
    ensures SameTree(r, rows)
  {
    if dto.IsEmpty() then rows
    else
      var patched := ApplyFields(rows, id, dto);
      SameTreeKeepsWellFormed(patched, rows, 0);
      if dto.progress.Some? || dto.status.Some? then
        var r := Propagate(patched, id);
        SameShapeIsSameTree(r, patched);
        r
      else patched
  }

  /** A row after the UPDATE of `createTaskUpdate`. */
  function Reported(t: Task, dto: CreateTaskUpdateDto): (r: Task)
    ensures r == t.(progress := r.progress, status := r.status, actualHours := r.actualHours)
    ensures r.actualHours >= t.actualHours
    ensures dto.newProgress.None? ==> r.progress == t.progress
    ensures dto.newStatus.None? ==> r.status == t.status
  {
    var hours := dto.hoursSpent.GetOr(0);
    t.(progress := dto.newProgress.GetOr(t.progress),
       status := dto.newStatus.GetOr(t.status),
       actualHours := if hours > 0 then t.actualHours + hours else t.actualHours)
  }

  /** The table after `createTaskUpdate(id, ...)`: the one row is rewritten and nothing is propagated. */
  function AfterReport(rows: seq<Task>, id: TaskId, dto: CreateTaskUpdateDto): (r: seq<Task>)
    ensures SameTree(r, rows)
  {
    seq(|rows|, i requires 0 <= i < |rows| => if rows[i].id == id then Reported(rows[i], dto) else rows[i])
  }

  // ---------------------------------------------------------------- deletion

  lemma {:induction false} RemoveRowKeepsShape(rows: seq<Task>, id: TaskId)
    requires DistinctIds(rows) && ParentsBelow(rows)
    ensures DistinctIds(RemoveRow(rows, id)) && ParentsBelow(RemoveRow(rows, id))
  {
    if |rows| > 0 {
      var pre := rows[..|rows| - 1];
      RemoveRowKeepsShape(pre, id);
      RemoveRowMembers(pre, id);
      var last := rows[|rows| - 1];
      assert forall t :: t in pre ==> t.id != last.id;
    }
  }

  lemma RemoveRowKeepsWellFormed(rows: seq<Task>, id: TaskId, nextId: nat)
    requires WellFormed(rows, nextId)
    ensures WellFormed(RemoveRow(rows, id), nextId)
  {
    RemoveRowKeepsShape(rows, id);
    RemoveRowMembers(rows, id);
    var r := RemoveRow(rows, id);
    assert forall i :: 0 <= i < |r| ==> r[i] in rows;
  }

  /**
   * The table after `deleteTask(id)`: unchanged when the task has children or
   * does not exist; otherwise the row is gone and, when it had a parent, the
   * parent is recalculated and then its ancestors.
   */
  function AfterDelete(rows: seq<Task>, id: TaskId): (r: seq<Task>)
    requires ParentsBelow(rows) && DistinctIds(rows)
  {
    if |ChildRows(rows, id)| > 0 then rows
    else
      match Find(rows, id)
      case None => rows
      case Some(t) =>
        var removed := RemoveRow(rows, id);
        RemoveRowKeepsShape(rows, id);
        match t.parentId
        case None => removed
        case Some(p) => RecalcUp(removed, p)
  }

  /** `calculateTaskProgress(p)` followed by `updateParentProgress(p)`, as `deleteTask` does for the parent. */
  function RecalcUp(rows: seq<Task>, p: TaskId): (r: seq<Task>)
    requires ParentsBelow(rows)
    ensures SameShape(r, rows)
  {
    var recalculated := Recalc(rows, p);
    SameShapeIsSameTree(recalculated, rows);
    SameTreeKeepsWellFormed(recalculated, rows, 0);
    var r := Propagate(recalculated, p);
    SameShapeTransitive(r, recalculated, rows);
    r
  }

  /**
   * What `deleteTask` leaves: the table itself when the task has children or
   * is missing; otherwise one row fewer, no row with that id, and every other
   * row as before apart from its progress.
   */
  lemma DeleteEffect(rows: seq<Task>, id: TaskId)
    requires ParentsBelow(rows) && DistinctIds(rows)
    ensures |ChildRows(rows, id)| > 0 || Find(rows, id).None? ==> AfterDelete(rows, id) == rows
    ensures |ChildRows(rows, id)| == 0 && Find(rows, id).Some? ==>
      && |AfterDelete(rows, id)| == |rows| - 1
      && SameShape(AfterDelete(rows, id), RemoveRow(rows, id))
      && forall t :: t in AfterDelete(rows, id) ==> t.id != id
  {
    if |ChildRows(rows, id)| == 0 && Find(rows, id).Some? {
      DeleteRemovesRow(rows, id);
    }
  }

  lemma DeleteRemovesRow(rows: seq<Task>, id: TaskId)
    requires ParentsBelow(rows) && DistinctIds(rows)
    requires |ChildRows(rows, id)| == 0 && Find(rows, id).Some?
    ensures |AfterDelete(rows, id)| == |rows| - 1
    ensures SameShape(AfterDelete(rows, id), RemoveRow(rows, id))
    ensures forall t :: t in AfterDelete(rows, id) ==> t.id != id
  {
    RemoveRowCount(rows, id);
    RemoveRowMembers(rows, id);
    var r, removed := AfterDelete(rows, id), RemoveRow(rows, id);
    assert SameShape(r, removed);
    forall t | t in r ensures t.id != id {
      var i :| 0 <= i < |r| && r[i] == t;
      assert removed[i] in removed;
    }
  }

  // ---------------------------------------------------------------- projects

  /** `WHERE project_id = ?`: every task of the project, at every depth. */
  function ProjectRows(rows: seq<Task>, pid: ProjectId): (r: seq<Task>)
    ensures forall t :: t in r <==> t in rows && t.projectId == pid
  {
    if |rows| == 0 then []
    else
      var last := rows[|rows| - 1];
      assert rows == rows[..|rows| - 1] + [last];
      ProjectRows(rows[..|rows| - 1], pid) + (if last.projectId == pid then [last] else [])
  }

  /**
   * `calculateProjectProgress`: `Math.round(AVG(progress))` over all of the
   * project's tasks, and 0 when `AVG` is NULL because there are none.
   */
  function ProjectProgress(rows: seq<Task>, pid: ProjectId): (r: nat)
    ensures |ProjectRows(rows, pid)| == 0 ==> r == 0
    ensures |ProjectRows(rows, pid)| > 0 ==>
      var n, sum := |ProjectRows(rows, pid)|, SumProgress(ProjectRows(rows, pid));
      2 * n * r <= 2 * sum + n < 2 * n * r + 2 * n
  {
    var tasks := ProjectRows(rows, pid);
    if |tasks| == 0 then 0 else RoundedMean(SumProgress(tasks), |tasks|)
  }
}
