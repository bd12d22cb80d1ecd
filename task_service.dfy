/**
 * The task service over its store: the `tasks` table, the append-only
 * `task_updates` log and the `projects` table.  Every SQL statement the
 * modelled code issues becomes a read of, or an assignment to, one of the
 * fields; the resulting tables are the functions of TaskTable, whose
 * properties are proved there and in Aggregation.
 */
module TaskService {
  import opened Wrappers
  import opened Schema
  import opened TaskTable
  import opened Aggregation
  import opened TaskTree

  /** `UPDATE projects SET progress = ? WHERE project_id = ?`. */
  function SetProjectProgress(projects: seq<Project>, id: ProjectId, v: nat): (r: seq<Project>)
    ensures |r| == |projects|
    ensures forall i :: 0 <= i < |projects| ==>
      r[i] == if projects[i].id == id then projects[i].(progress := v) else projects[i]
  {
    seq(|projects|, i requires 0 <= i < |projects| =>
      if projects[i].id == id then projects[i].(progress := v) else projects[i])
  }

  ghost predicate DistinctProjectIds(projects: seq<Project>) {
    forall i, j :: 0 <= i < |projects| && 0 <= j < |projects| && i != j ==> projects[i].id != projects[j].id
  }

  /** The delete statement leaves the table alone when no row has the id. */
  lemma {:induction false} RemoveAbsentRow(rows: seq<Task>, id: TaskId)
    requires forall i :: 0 <= i < |rows| ==> rows[i].id != id
    ensures RemoveRow(rows, id) == rows
  {
    if |rows| > 0 {
      RemoveAbsentRow(rows[..|rows| - 1], id);
      assert rows == rows[..|rows| - 1] + [rows[|rows| - 1]];
    }
  }

  /** The nodes of the project view once the recompute pass has gone through `fetched[..i]`. */
  ghost predicate NodesSoFar(fetched: seq<Task>, i: nat, nodes: map<TaskId, Task>) {
    nodes.Keys == IdSet(fetched) &&
    forall k :: 0 <= k < |fetched| ==> nodes[fetched[k].id] == if k < i then Refreshed(fetched, fetched[k]) else fetched[k]
  }

  lemma NodeOf(fetched: seq<Task>, i: nat, nodes: map<TaskId, Task>)
    requires i < |fetched| && NodesSoFar(fetched, i, nodes)
    ensures fetched[i].id in nodes && nodes[fetched[i].id] == fetched[i]
  {
  }

  /** Writing the mean into the node of `fetched[i]`, when it has fetched children, advances the pass by one row. */
  lemma NodesStep(fetched: seq<Task>, i: nat, before: map<TaskId, Task>, after: map<TaskId, Task>)
    requires DistinctIds(fetched) && i < |fetched| && NodesSoFar(fetched, i, before)
    requires var t := fetched[i];
      after == if |ChildRows(fetched, t.id)| > 0 then before[t.id := before[t.id].(progress := ChildMean(fetched, t.id))] else before
    ensures NodesSoFar(fetched, i + 1, after)
  {
    var t := fetched[i];
    NodeOf(fetched, i, before);
    assert after.Keys == before.Keys;
  }

  class TaskStore {
    /** The `tasks` table in insertion order. */
    var rows: seq<Task>
    /** The next `AUTO_INCREMENT` value of `tasks`. */
    var nextId: nat
    /** The `task_updates` table. */
    var log: seq<TaskUpdate>
    /** The next `AUTO_INCREMENT` value of `task_updates`. */
    var nextUpdateId: nat
    /** The `projects` table. */
    var projects: seq<Project>

    /** Ids are issued from 1 up, stored parents precede their children, and project ids are a key. */
    ghost predicate Valid()
      reads this
    {
      WellFormed(rows, nextId) && 1 <= nextId && DistinctProjectIds(projects)
    }

    constructor (projects: seq<Project>)
      requires DistinctProjectIds(projects)
      ensures Valid()
      ensures this.rows == [] && this.log == [] && this.projects == projects
    {
      this.rows := [];
      this.nextId := 1;
      this.log := [];
      this.nextUpdateId := 1;
      this.projects := projects;
    }

    /**
     * `calculateTaskProgress(taskId)`: a task without children is left alone
     * and its stored progress (0 when the row is missing) is returned; a task
     * with children is set to the rounded mean of their progress, which is
     * returned.
     */
    method CalculateTaskProgress(taskId: TaskId) returns (v: nat)
      requires Valid()
      modifies this
      ensures Valid()
      ensures rows == Recalc(old(rows), taskId) && v == RecalcValue(old(rows), taskId)
      ensures nextId == old(nextId) && log == old(log) && nextUpdateId == old(nextUpdateId) && projects == old(projects)
    {
      var childCount := |ChildRows(rows, taskId)|;
      if childCount == 0 {
        var task := Find(rows, taskId);
        v := if task.Some? then task.value.progress else 0;
        return;
      }
      v := ChildMean(rows, taskId);
      var before := rows;
      rows := SetProgress(rows, taskId, v);
      SameShapeIsSameTree(rows, before);
      SameTreeKeepsWellFormed(rows, before, nextId);
    }

    /**
     * `updateParentProgress(taskId)`: walks from the task to its root,
     * recalculating each parent on the way; it stops at id 0, at a missing
     * row and at a task without parent.
     */
    method UpdateParentProgress(taskId: TaskId)
      requires Valid()
      modifies this
      ensures Valid()
      ensures rows == Propagate(old(rows), taskId)
      ensures nextId == old(nextId) && log == old(log) && nextUpdateId == old(nextUpdateId) && projects == old(projects)
    {
      var current := taskId;
      while current != 0
        invariant Valid()
        invariant Propagate(rows, current) == Propagate(old(rows), taskId)
        invariant nextId == old(nextId) && log == old(log) && nextUpdateId == old(nextUpdateId) && projects == old(projects)
        decreases current
      {
        var found := Lookup(rows, current);
        if found.None? || rows[found.value].parentId.None? {
          break;
        }
        var parentId := rows[found.value].parentId.value;
        assert ParentBelow(rows[found.value]);
        var progress := CalculateTaskProgress(parentId);
        current := parentId;
      }
    }

    /**
     * `createTask(dto, userId)`: inserts the row with the next id, its level
     * and sort order derived from the table, and the defaults for the fields
     * the request leaves out; a task with a parent then propagates upward.
     * The returned row is the one read back right after the insert.
     */
    method CreateTask(dto: CreateTaskDto, userId: UserId) returns (task: Task)
      requires Valid()
      requires dto.parentId.None? || dto.parentId.value < nextId
      modifies this
      ensures Valid()
      ensures task == NewTaskRow(old(rows), old(nextId), dto, userId)
      ensures rows == AfterCreate(old(rows), task)
      ensures Consistent(old(rows)) ==> Consistent(rows)
      ensures nextId == old(nextId) + 1
      ensures log == old(log) && nextUpdateId == old(nextUpdateId) && projects == old(projects)
    {
      var level := NewLevel(rows, dto.parentId);
      var sortOrder := NextSortOrder(rows, dto.parentId);
      task := Task(nextId, dto.projectId, dto.parentId, dto.name, dto.desc, dto.assignedTo, dto.startDate,
                   dto.endDate, dto.estimatedHours.GetOr(0), 0, dto.priority.GetOr(Medium),
                   dto.status.GetOr(Pending), dto.progress.GetOr(0), level, sortOrder, userId);
      AppendKeepsWellFormed(rows, nextId, task);
      var added := rows + [task];
      assert ParentsBelow(added);
      rows := added;
      nextId := nextId + 1;
      if dto.parentId.Some? {
        UpdateParentProgress(task.id);
      }
      if Consistent(old(rows)) {
        CreateKeepsConsistent(old(rows), old(nextId), task);
      }
    }

    /**
     * `updateTask(id, dto)`: with no field supplied nothing is written and the
     * task is read back (missing: "task does not exist"); otherwise the
     * supplied fields are written, a change of progress or status propagates,
     * and the task is read back (missing: "cannot read the task after the update").
     */
    method UpdateTask(id: TaskId, dto: UpdateTaskDto) returns (r: Result<Task, TaskError>)
      requires Valid()
      modifies this
      ensures Valid()
      ensures rows == AfterUpdate(old(rows), id, dto)
      ensures Consistent(old(rows)) && (dto.progress.None? || |ChildRows(old(rows), id)| == 0) ==> Consistent(rows)
      ensures r == match Find(rows, id)
        case Some(t) => Ok(t)
        case None => Err(if dto.IsEmpty() then TaskNotFound else ReloadFailed)
      ensures nextId == old(nextId) && log == old(log) && nextUpdateId == old(nextUpdateId) && projects == old(projects)
    {
      if dto.IsEmpty() {
        var found := Find(rows, id);
        r := if found.Some? then Ok(found.value) else Err(TaskNotFound);
        return;
      }
      var before := rows;
      rows := ApplyFields(rows, id, dto);
      SameTreeKeepsWellFormed(rows, before, nextId);
      if dto.progress.Some? || dto.status.Some? {
        UpdateParentProgress(id);
      }
      var updated := Find(rows, id);
      r := if updated.Some? then Ok(updated.value) else Err(ReloadFailed);
      if Consistent(old(rows)) && (dto.progress.None? || |ChildRows(old(rows), id)| == 0) {
        UpdateKeepsConsistent(old(rows), nextId, id, dto);
      }
    }

    /**
     * `deleteTask(id)`: refused while any row names the task as its parent;
     * otherwise the row is deleted and, when one was deleted and it had a
     * parent, the parent is recalculated and the walk continues above it.
     * The result says whether a row was deleted.
     */
    method DeleteTask(id: TaskId) returns (r: Result<bool, TaskError>)
      requires Valid()
      modifies this
      ensures Valid()
      ensures rows == AfterDelete(old(rows), id)
      ensures Consistent(old(rows)) ==> Consistent(rows)
      ensures r == if |ChildRows(old(rows), id)| > 0 then Err(HasSubtasks) else Ok(Find(old(rows), id).Some?)
      ensures nextId == old(nextId) && log == old(log) && nextUpdateId == old(nextUpdateId) && projects == old(projects)
    {
      var found := Find(rows, id);
      var parentId := if found.Some? then found.value.parentId else None;
      var childCount := |ChildRows(rows, id)|;
      if childCount > 0 {
        r := Err(HasSubtasks);
        return;
      }
      var affected := found.Some?;
      if !affected {
        RemoveAbsentRow(rows, id);
      }
      RemoveRowKeepsWellFormed(rows, id, nextId);
      rows := RemoveRow(rows, id);
      if affected && parentId.Some? {
        var progress := CalculateTaskProgress(parentId.value);
        UpdateParentProgress(parentId.value);
      }
      r := Ok(affected);
      if Consistent(old(rows)) {
        DeleteKeepsConsistent(old(rows), nextId, id);
      }
    }

    /**
     * `createTaskUpdate(taskId, userId, dto)`: a missing task is an error and
     * nothing is written; otherwise the log gains an entry holding the task's
     * progress and status before the change, then the supplied progress and
     * status overwrite the task's and a positive hour count is added to its
     * actual hours.  No other task is recalculated.
     */
    method CreateTaskUpdate(taskId: TaskId, userId: UserId, dto: CreateTaskUpdateDto)
      returns (r: Result<TaskUpdate, TaskError>)
      requires Valid()
      modifies this
      ensures Valid()
      ensures Find(old(rows), taskId).None? ==>
        r == Err(TaskNotFound) && rows == old(rows) && log == old(log) && nextUpdateId == old(nextUpdateId)
      ensures Find(old(rows), taskId).Some? ==>
        var t := Find(old(rows), taskId).value;
        && r == Ok(TaskUpdate(old(nextUpdateId), taskId, userId, t.progress, dto.newProgress, t.status,
                              dto.newStatus, dto.hoursSpent.GetOr(0), dto.note))
        && log == old(log) + [r.value]
        && nextUpdateId == old(nextUpdateId) + 1
        && rows == AfterReport(old(rows), taskId, dto)
      ensures nextId == old(nextId) && projects == old(projects)
    {
      var found := Find(rows, taskId);
      if found.None? {
        r := Err(TaskNotFound);
        return;
      }
      var task := found.value;
      var hoursSpent := dto.hoursSpent.GetOr(0);
      var entry := TaskUpdate(nextUpdateId, taskId, userId, task.progress, dto.newProgress, task.status,
                              dto.newStatus, hoursSpent, dto.note);
      log := log + [entry];
      nextUpdateId := nextUpdateId + 1;
      var before := rows;
      if dto.newProgress.Some? || dto.newStatus.Some? || hoursSpent > 0 {
        rows := AfterReport(rows, taskId, dto);
      } else {
        assert AfterReport(rows, taskId, dto) == rows;
      }
      SameTreeKeepsWellFormed(rows, before, nextId);
      r := Ok(entry);
    }

    /**
     * One iteration of the recompute pass of `getProjectTasks`: when
     * `fetched[i]` has fetched children, the rounded mean of those children as
     * fetched goes into its node and into the table.
     */
    method RecomputeOne(fetched: seq<Task>, i: nat, before: map<TaskId, Task>) returns (nodes: map<TaskId, Task>)
      requires DistinctIds(fetched) && i < |fetched| && NodesSoFar(fetched, i, before)
      modifies this`rows
      ensures NodesSoFar(fetched, i + 1, nodes)
      ensures rows == if |ChildRows(fetched, fetched[i].id)| > 0
        then SetProgress(old(rows), fetched[i].id, ChildMean(fetched, fetched[i].id)) else old(rows)
    {
      var task := fetched[i];
      nodes := before;
      if |ChildRows(fetched, task.id)| > 0 {
        var avgProgress := ChildMean(fetched, task.id);
        assert task.id in nodes by { NodeOf(fetched, i, nodes); }
        nodes := nodes[task.id := nodes[task.id].(progress := avgProgress)];
        rows := SetProgress(rows, task.id, avgProgress);
      }
      NodesStep(fetched, i, before, nodes);
    }

    /** The recompute pass of `getProjectTasks` over all fetched rows, in query order. */
    method RecomputeFetched(fetched: seq<Task>, prefilled: map<TaskId, Task>) returns (nodes: map<TaskId, Task>)
      requires DistinctIds(fetched)
      requires prefilled.Keys == IdSet(fetched)
      requires forall k :: 0 <= k < |fetched| ==> prefilled[fetched[k].id] == fetched[k]
      modifies this`rows
      ensures nodes.Keys == IdSet(fetched)
      ensures forall k :: 0 <= k < |fetched| ==> nodes[fetched[k].id] == Refreshed(fetched, fetched[k])
      ensures rows == WrittenBack(old(rows), fetched, fetched)
    {
      nodes := prefilled;
      var i := 0;
      assert fetched[..0] == [];
      while i < |fetched|
        invariant 0 <= i <= |fetched|
        invariant rows == WrittenBack(old(rows), fetched[..i], fetched)
        invariant NodesSoFar(fetched, i, nodes)
      {
        WrittenBackStep(old(rows), fetched, i);
        nodes := RecomputeOne(fetched, i, nodes);
        i := i + 1;
      }
      assert fetched[..i] == fetched;
    }

    /**
     * `getProjectTasks(projectId)` given the rows its query returned: every
     * fetched row becomes a node; every fetched row with fetched children gets
     * the rounded mean of those children as fetched, in its node and in the
     * table; then each node is attached under its parent's node, or at the top
     * level when it has no parent or its parent was not fetched.
     */
    method GetProjectTasks(projectId: ProjectId, fetched: seq<Task>) returns (f: Forest)
      requires Valid()
      requires forall t :: t in fetched <==> t in rows && t.projectId == projectId
      requires DistinctIds(fetched) && SortedByKey(fetched)
      modifies this
      ensures Valid()
      ensures Builds(f, fetched, Refresh(fetched), true)
      ensures rows == WrittenBack(old(rows), fetched, fetched)
      ensures nextId == old(nextId) && log == old(log) && nextUpdateId == old(nextUpdateId) && projects == old(projects)
    {
      var prefilled, empty := Prefill(fetched);
      var nodes := RecomputeFetched(fetched, prefilled);
      SameShapeIsSameTree(rows, old(rows));
      SameTreeKeepsWellFormed(rows, old(rows), nextId);
      var roots, children := Attach(fetched, empty, true);
      f := Forest(roots, children, nodes);
    }

    /**
     * `calculateAllProjectsProgress()`: for every project in table order, the
     * project's progress figure is computed, reported and stored.
     */
    method CalculateAllProjectsProgress() returns (results: seq<(ProjectId, nat)>)
      requires Valid()
      modifies this
      ensures Valid()
      ensures |results| == |projects| == |old(projects)|
      ensures forall i :: 0 <= i < |projects| ==>
        && results[i] == (old(projects)[i].id, ProjectProgress(rows, old(projects)[i].id))
        && projects[i] == old(projects)[i].(progress := results[i].1)
      ensures rows == old(rows) && nextId == old(nextId) && log == old(log) && nextUpdateId == old(nextUpdateId)
    {
      results := [];
      var i := 0;
      while i < |projects|
        invariant 0 <= i <= |projects| == |old(projects)|
        invariant Valid()
        invariant |results| == i
        invariant forall k :: 0 <= k < i ==> results[k] == (old(projects)[k].id, ProjectProgress(rows, old(projects)[k].id))
        invariant forall k :: 0 <= k < |projects| ==>
          projects[k] == if k < i then old(projects)[k].(progress := results[k].1) else old(projects)[k]
        invariant rows == old(rows) && nextId == old(nextId) && log == old(log) && nextUpdateId == old(nextUpdateId)
      {
        var id := projects[i].id;
        var progress := ProjectProgress(rows, id);
        results := results + [(id, progress)];
        projects := SetProjectProgress(projects, id, progress);
        i := i + 1;
      }
    }
  }
}
