/**
 * The in-memory tree the task service builds from one query result: every
 * fetched row becomes a node with an initially empty list of children, and a
 * second pass attaches each row under its parent's node or at the top level.
 * The project view (`getProjectTasks`) promotes a row whose parent was not
 * fetched to the top level; the filtered list view (`getTasks` with
 * `include_children`) drops it.
 */
module TaskTree {
  import opened Wrappers
  import opened Schema
  import opened Rounding
  import opened TaskTable
  import opened Aggregation

  /**
   * The built tree: the top-level ids in order, each node's children ids in
   * order, and each node's row (what the node shows besides its children).
   */
  datatype Forest = Forest(roots: seq<TaskId>, children: map<TaskId, seq<TaskId>>, nodes: map<TaskId, Task>)

  function Ids(s: seq<Task>): (r: seq<TaskId>)
    ensures |r| == |s| && forall i :: 0 <= i < |s| ==> r[i] == s[i].id
  {
    seq(|s|, i requires 0 <= i < |s| => s[i].id)
  }

  function IdSet(s: seq<Task>): (r: set<TaskId>)
    ensures forall id :: id in r <==> exists t :: t in s && t.id == id
  {
    set t | t in s :: t.id
  }

  /** A row goes to the top level when its parent is NULL, or, when orphans are promoted, its parent was not fetched. */
  predicate AtTopLevel(t: Task, present: set<TaskId>, promote: bool) {
    t.parentId.None? || (promote && t.parentId.value !in present)
  }

  /** The rows placed at the top level, in query order. */
  function RootRows(s: seq<Task>, present: set<TaskId>, promote: bool): seq<Task> {
    if |s| == 0 then []
    else
      var last := s[|s| - 1];
      RootRows(s[..|s| - 1], present, promote) + (if AtTopLevel(last, present, promote) then [last] else [])
  }

  /** The top level holds exactly the fetched rows that belong there. */
  lemma {:induction false} RootRowsMembers(s: seq<Task>, present: set<TaskId>, promote: bool)
    ensures forall t :: t in RootRows(s, present, promote) <==> t in s && AtTopLevel(t, present, promote)
  {
    if |s| > 0 {
      RootRowsMembers(s[..|s| - 1], present, promote);
      assert s == s[..|s| - 1] + [s[|s| - 1]];
    }
  }

  /** The ids the builder puts at the top level, in query order. */
  function RootIds(s: seq<Task>, present: set<TaskId>, promote: bool): seq<TaskId> {
    if |s| == 0 then []
    else
      var last := s[|s| - 1];
      RootIds(s[..|s| - 1], present, promote) + (if AtTopLevel(last, present, promote) then [last.id] else [])
  }

  /** The ids the builder puts in `q`'s list of children, in query order. */
  function ChildIds(s: seq<Task>, q: TaskId): seq<TaskId> {
    if |s| == 0 then []
    else
      var last := s[|s| - 1];
      ChildIds(s[..|s| - 1], q) + (if last.parentId == Some(q) then [last.id] else [])
  }

  lemma {:induction false} RootIdsOfRows(s: seq<Task>, present: set<TaskId>, promote: bool)
    ensures RootIds(s, present, promote) == Ids(RootRows(s, present, promote))
  {
    if |s| > 0 {
      var pre, last := s[..|s| - 1], s[|s| - 1];
      RootIdsOfRows(pre, present, promote);
      IdsSnoc(RootRows(pre, present, promote), last);
      if !AtTopLevel(last, present, promote) {
        assert RootRows(pre, present, promote) + [] == RootRows(pre, present, promote);
        assert RootIds(pre, present, promote) + [] == RootIds(pre, present, promote);
      }
    }
  }

  lemma {:induction false} ChildIdsOfRows(s: seq<Task>, q: TaskId)
    ensures ChildIds(s, q) == Ids(ChildRows(s, q))
  {
    if |s| > 0 {
      var pre, last := s[..|s| - 1], s[|s| - 1];
      ChildIdsOfRows(pre, q);
      ChildRowsSnoc(s, q);
      IdsSnoc(ChildRows(pre, q), last);
      if last.parentId != Some(q) {
        assert ChildRows(pre, q) + [] == ChildRows(pre, q);
        assert ChildIds(pre, q) + [] == ChildIds(pre, q);
      }
    }
  }

  /** The forest `f` is what the builders produce for `tasks`, each node showing the row in `shown` at the same position. */
  ghost predicate Builds(f: Forest, tasks: seq<Task>, shown: seq<Task>, promote: bool) {
    |shown| == |tasks| &&
    f.roots == RootIds(tasks, IdSet(tasks), promote) &&
    f.children.Keys == IdSet(tasks) &&
    (forall q :: q in f.children ==> f.children[q] == ChildIds(tasks, q)) &&
    f.nodes.Keys == IdSet(tasks) &&
    (forall i :: 0 <= i < |tasks| ==> f.nodes[tasks[i].id] == shown[i])
  }

  // ---------------------------------------------------------------- the builder

  lemma IdsSnoc(s: seq<Task>, t: Task)
    ensures Ids(s + [t]) == Ids(s) + [t.id]
  {
  }

  lemma IdSetSnoc(s: seq<Task>, t: Task)
    ensures IdSet(s + [t]) == IdSet(s) + {t.id}
  {
    forall id | id in IdSet(s + [t])
      ensures id in IdSet(s) + {t.id}
    {
      var u :| u in s + [t] && u.id == id;
    }
    forall id | id in IdSet(s) + {t.id}
      ensures id in IdSet(s + [t])
    {
      if id != t.id {
        var u :| u in s && u.id == id;
        assert u in s + [t];
      } else {
        assert t in s + [t];
      }
    }
  }

  /**
   * The first pass: a map entry per fetched row, holding the row and an empty
   * list of children.
   */
  method Prefill(tasks: seq<Task>) returns (nodes: map<TaskId, Task>, children: map<TaskId, seq<TaskId>>)
    requires DistinctIds(tasks)
    ensures nodes.Keys == IdSet(tasks) && children.Keys == IdSet(tasks)
    ensures forall i :: 0 <= i < |tasks| ==> nodes[tasks[i].id] == tasks[i]
    ensures forall q :: q in children ==> children[q] == []
  {
    nodes, children := map[], map[];
    var i := 0;
    while i < |tasks|
      invariant 0 <= i <= |tasks|
      invariant nodes.Keys == IdSet(tasks[..i]) && children.Keys == IdSet(tasks[..i])
      invariant forall k :: 0 <= k < i ==> tasks[k].id in nodes && nodes[tasks[k].id] == tasks[k]
      invariant forall q :: q in children ==> children[q] == []
    {
      assert tasks[..i + 1] == tasks[..i] + [tasks[i]];
      IdSetSnoc(tasks[..i], tasks[i]);
      nodes := nodes[tasks[i].id := tasks[i]];
      children := children[tasks[i].id := []];
      i := i + 1;
    }
    assert tasks[..i] == tasks;
  }

  /**
   * The second pass: each row in query order goes under its parent's entry
   * when the parent was fetched, at the top level when its parent is NULL, and
   * otherwise at the top level or nowhere, as `promote` says.
   */
  method Attach(tasks: seq<Task>, empty: map<TaskId, seq<TaskId>>, promote: bool)
      returns (roots: seq<TaskId>, children: map<TaskId, seq<TaskId>>)
    requires empty.Keys == IdSet(tasks) && forall q :: q in empty ==> empty[q] == []
    ensures roots == RootIds(tasks, IdSet(tasks), promote)
    ensures children.Keys == IdSet(tasks)
    ensures forall q :: q in children ==> children[q] == ChildIds(tasks, q)
  {
    var present := empty.Keys;  // the ids that have a map entry
    roots, children := [], empty;
    var i := 0;
    while i < |tasks|
      invariant 0 <= i <= |tasks|
      invariant PlacedSoFar(tasks, i, present, promote, roots, children)
    {
      var t := tasks[i];
      ghost var roots0, children0 := roots, children;
      if t.parentId.None? {
        roots := roots + [t.id];
      } else if t.parentId.value in present {
        var p := t.parentId.value;
        children := children[p := children[p] + [t.id]];
      } else if promote {
        roots := roots + [t.id];
      }
      PlaceStep(tasks, i, present, promote, roots0, children0, roots, children);
      i := i + 1;
    }
    assert tasks[..i] == tasks;
  }

  /** The lists after the first `k` rows are placed. */
  ghost predicate PlacedSoFar(tasks: seq<Task>, k: nat, present: set<TaskId>, promote: bool,
                              roots: seq<TaskId>, children: map<TaskId, seq<TaskId>>)
    requires k <= |tasks|
  {
    roots == RootIds(tasks[..k], present, promote) &&
    children.Keys == present &&
    forall q :: q in children ==> children[q] == ChildIds(tasks[..k], q)
  }

  lemma PlaceStep(tasks: seq<Task>, i: nat, present: set<TaskId>, promote: bool,
                  roots0: seq<TaskId>, children0: map<TaskId, seq<TaskId>>,
                  roots1: seq<TaskId>, children1: map<TaskId, seq<TaskId>>)
    requires i < |tasks| && PlacedSoFar(tasks, i, present, promote, roots0, children0)
    requires var t := tasks[i];
      roots1 == (if AtTopLevel(t, present, promote) then roots0 + [t.id] else roots0) &&
      children1 == if t.parentId.Some? && t.parentId.value in present
                   then children0[t.parentId.value := children0[t.parentId.value] + [t.id]] else children0
    ensures PlacedSoFar(tasks, i + 1, present, promote, roots1, children1)
  {
    RootIdsStep(tasks, i, present, promote);
    ChildrenStep(tasks, i, children0, children1);
    if !AtTopLevel(tasks[i], present, promote) {
      assert roots0 + [] == roots0;
    }
  }

  lemma ChildrenStep(tasks: seq<Task>, i: nat, before: map<TaskId, seq<TaskId>>, after: map<TaskId, seq<TaskId>>)
    requires i < |tasks|
    requires forall q :: q in before ==> before[q] == ChildIds(tasks[..i], q)
    requires var t := tasks[i];
      after == if t.parentId.Some? && t.parentId.value in before
               then before[t.parentId.value := before[t.parentId.value] + [t.id]] else before
    ensures forall q :: q in after ==> after[q] == ChildIds(tasks[..i + 1], q)
  {
    var t := tasks[i];
    assert tasks[..i + 1] == tasks[..i] + [t];
    forall q | q in after
      ensures after[q] == ChildIds(tasks[..i + 1], q)
    {
      ChildIdsSnoc(tasks[..i], t, q);
      if t.parentId != Some(q) {
        assert before[q] + [] == before[q];
      }
    }
  }

  lemma RootIdsStep(s: seq<Task>, k: nat, present: set<TaskId>, promote: bool)
    requires k < |s|
    ensures RootIds(s[..k + 1], present, promote) ==
      RootIds(s[..k], present, promote) + (if AtTopLevel(s[k], present, promote) then [s[k].id] else [])
  {
    assert s[..k + 1][..k] == s[..k];
  }

  lemma ChildIdsSnoc(s: seq<Task>, t: Task, q: TaskId)
    ensures ChildIds(s + [t], q) == ChildIds(s, q) + (if t.parentId == Some(q) then [t.id] else [])
  {
    assert (s + [t])[..|s|] == s;
  }

  /** The tree part of `getTasks`: orphans of the filtered result are dropped; `total` counts every fetched row. */
  method GetTasksTree(fetched: seq<Task>) returns (f: Forest, total: nat)
    requires DistinctIds(fetched)
    ensures Builds(f, fetched, fetched, false)
    ensures total == |fetched|
  {
    total := |fetched|;
    var nodes, empty := Prefill(fetched);
    var roots, children := Attach(fetched, empty, false);
    f := Forest(roots, children, nodes);
  }

  // ---------------------------------------------------------------- what the builders promise

  lemma IdsMember(sub: seq<Task>, tasks: seq<Task>, t: Task)
    requires DistinctIds(tasks) && t in tasks && forall u :: u in sub ==> u in tasks
    ensures t.id in Ids(sub) <==> t in sub
  {
    if t.id in Ids(sub) {
      var k :| 0 <= k < |sub| && Ids(sub)[k] == t.id;
      assert sub[k] in tasks;
      var a :| 0 <= a < |tasks| && tasks[a] == sub[k];
      var b :| 0 <= b < |tasks| && tasks[b] == t;
    }
    if t in sub {
      var k :| 0 <= k < |sub| && sub[k] == t;
      assert Ids(sub)[k] == t.id;
    }
  }

  /**
   * In the project view every fetched row is placed exactly once: at the top
   * level exactly when its parent is NULL or was not fetched, and otherwise in
   * its parent's list and in no other.
   */
  lemma PlacedOnce(tasks: seq<Task>, t: Task)
    requires DistinctIds(tasks) && t in tasks
    ensures t.id in RootIds(tasks, IdSet(tasks), true) <==>
      t.parentId.None? || t.parentId.value !in IdSet(tasks)
    ensures forall q :: q in IdSet(tasks) ==> (t.id in ChildIds(tasks, q) <==> t.parentId == Some(q))
    ensures NoDuplicates(RootIds(tasks, IdSet(tasks), true))
    ensures forall q :: NoDuplicates(ChildIds(tasks, q))
  {
    RootRowsMembers(tasks, IdSet(tasks), true);
    RootIdsOfRows(tasks, IdSet(tasks), true);
    IdsMember(RootRows(tasks, IdSet(tasks), true), tasks, t);
    RootRowsDistinct(tasks, IdSet(tasks), true);
    forall q: TaskId
      ensures t.id in ChildIds(tasks, q) <==> t.parentId == Some(q)
      ensures NoDuplicates(ChildIds(tasks, q))
    {
      ChildIdsOfRows(tasks, q);
      IdsMember(ChildRows(tasks, q), tasks, t);
      ChildRowsDistinct(tasks, q);
    }
  }

  predicate NoDuplicates(s: seq<TaskId>) {
    forall i, j :: 0 <= i < j < |s| ==> s[i] != s[j]
  }

  lemma {:induction false} RootRowsDistinct(s: seq<Task>, present: set<TaskId>, promote: bool)
    requires DistinctIds(s)
    ensures NoDuplicates(Ids(RootRows(s, present, promote)))
  {
    if |s| > 0 {
      var pre, last := s[..|s| - 1], s[|s| - 1];
      RootRowsDistinct(pre, present, promote);
      RootRowsMembers(pre, present, promote);
      var r := RootRows(pre, present, promote);
      assert forall u :: u in r ==> u in pre;
      assert forall u :: u in pre ==> u.id != last.id;
    }
  }

  lemma {:induction false} ChildRowsDistinct(s: seq<Task>, q: TaskId)
    requires DistinctIds(s)
    ensures NoDuplicates(Ids(ChildRows(s, q)))
  {
    if |s| > 0 {
      var pre, last := s[..|s| - 1], s[|s| - 1];
      ChildRowsDistinct(pre, q);
      ChildRowsSnoc(s, q);
      var r := ChildRows(pre, q);
      assert forall u :: u in r ==> u in pre;
      assert forall u :: u in pre ==> u.id != last.id;
    }
  }

  /**
   * The list view places the same rows as the project view except the
   * orphans: its top level is the project view's top level without them, and
   * an orphan is in no list at all.
   */
  lemma DropIsPromoteWithoutOrphans(s: seq<Task>, present: set<TaskId>)
    ensures RootIds(s, present, false) == RootIds(RootRows(s, present, true), present, false)
  {
    DropRowsArePromotedRows(s, present);
    RootIdsOfRows(s, present, false);
    RootIdsOfRows(RootRows(s, present, true), present, false);
  }

  lemma {:induction false} DropRowsArePromotedRows(s: seq<Task>, present: set<TaskId>)
    ensures RootRows(s, present, false) == RootRows(RootRows(s, present, true), present, false)
  {
    if |s| > 0 {
      var pre, last := s[..|s| - 1], s[|s| - 1];
      DropRowsArePromotedRows(pre, present);
      var promoted := RootRows(s, present, true);
      if AtTopLevel(last, present, true) {
        assert promoted[..|promoted| - 1] == RootRows(pre, present, true);
      } else {
        assert RootRows(pre, present, true) + [] == RootRows(pre, present, true);
        assert RootRows(pre, present, false) + [] == RootRows(pre, present, false);
      }
    }
  }

  lemma OrphanDropped(tasks: seq<Task>, t: Task)
    requires DistinctIds(tasks) && t in tasks && t.parentId.Some? && t.parentId.value !in IdSet(tasks)
    ensures t.id !in RootIds(tasks, IdSet(tasks), false)
    ensures forall q :: q in IdSet(tasks) ==> t.id !in ChildIds(tasks, q)
  {
    RootRowsMembers(tasks, IdSet(tasks), false);
    RootIdsOfRows(tasks, IdSet(tasks), false);
    IdsMember(RootRows(tasks, IdSet(tasks), false), tasks, t);
    forall q | q in IdSet(tasks)
      ensures t.id !in ChildIds(tasks, q)
    {
      ChildIdsOfRows(tasks, q);
      IdsMember(ChildRows(tasks, q), tasks, t);
    }
  }

  // ---------------------------------------------------------------- order

  /** The query order `ORDER BY level, sort_order, task_id`. */
  predicate KeyLeq(a: Task, b: Task) {
    a.level < b.level ||
    (a.level == b.level && (a.sortOrder < b.sortOrder || (a.sortOrder == b.sortOrder && a.id <= b.id)))
  }

  ghost predicate SortedByKey(s: seq<Task>) {
    forall i, j :: 0 <= i < j < |s| ==> KeyLeq(s[i], s[j])
  }

  lemma SortedSnoc(r: seq<Task>, s: seq<Task>, x: Task)
    requires SortedByKey(r) && SortedByKey(s + [x]) && forall u :: u in r ==> u in s
    ensures SortedByKey(r + [x])
  {
    forall i | 0 <= i < |r|
      ensures KeyLeq(r[i], x)
    {
      assert r[i] in s;
      var k :| 0 <= k < |s| && s[k] == r[i];
      assert (s + [x])[k] == r[i] && (s + [x])[|s|] == x;
    }
  }

  /** Each node's children, and the top level, keep the query order. */
  lemma {:induction false} ListsKeepQueryOrder(s: seq<Task>, present: set<TaskId>, promote: bool, q: TaskId)
    requires SortedByKey(s)
    ensures SortedByKey(RootRows(s, present, promote))
    ensures SortedByKey(ChildRows(s, q))
  {
    if |s| > 0 {
      var pre, last := s[..|s| - 1], s[|s| - 1];
      assert s == pre + [last];
      ListsKeepQueryOrder(pre, present, promote, q);
      ChildRowsSnoc(s, q);
      if AtTopLevel(last, present, promote) {
        RootRowsMembers(pre, present, promote);
        SortedSnoc(RootRows(pre, present, promote), pre, last);
      } else {
        assert RootRows(pre, present, promote) + [] == RootRows(pre, present, promote);
      }
      if last.parentId == Some(q) {
        SortedSnoc(ChildRows(pre, q), pre, last);
      } else {
        assert ChildRows(pre, q) + [] == ChildRows(pre, q);
      }
    }
  }

  // ---------------------------------------------------------------- the read-path recompute

  /**
   * A fetched row as the project view shows it: a row with fetched children
   * gets the rounded mean of those children's progress as fetched; a row
   * without keeps its own.
   */
  function Refreshed(tasks: seq<Task>, t: Task): (r: Task)
    ensures r == t.(progress := r.progress)
    ensures |ChildRows(tasks, t.id)| == 0 ==> r == t
  {
    if |ChildRows(tasks, t.id)| > 0 then t.(progress := ChildMean(tasks, t.id)) else t
  }

  function Refresh(tasks: seq<Task>): (r: seq<Task>)
    ensures |r| == |tasks|
  {
    seq(|tasks|, i requires 0 <= i < |tasks| => Refreshed(tasks, tasks[i]))
  }

  /** The store after the recompute pass has gone through the fetched rows in `done`. */
  function WrittenBack(rows: seq<Task>, done: seq<Task>, fetched: seq<Task>): (r: seq<Task>)
    ensures SameShape(r, rows)
  {
    seq(|rows|, j requires 0 <= j < |rows| =>
      if Find(done, rows[j].id).Some? && |ChildRows(fetched, rows[j].id)| > 0
      then rows[j].(progress := ChildMean(fetched, rows[j].id)) else rows[j])
  }

  lemma FindSnoc(s: seq<Task>, t: Task, id: TaskId)
    ensures Find(s + [t], id) == if t.id == id then Some(t) else Find(s, id)
  {
    assert (s + [t])[..|s|] == s;
  }

  /** One step of the recompute pass: the write for `fetched[i]`, if any. */
  lemma WrittenBackStep(rows: seq<Task>, fetched: seq<Task>, i: nat)
    requires i < |fetched|
    ensures var t := fetched[i];
      var before := WrittenBack(rows, fetched[..i], fetched);
      WrittenBack(rows, fetched[..i + 1], fetched) ==
        if |ChildRows(fetched, t.id)| > 0 then SetProgress(before, t.id, ChildMean(fetched, t.id)) else before
  {
    var t := fetched[i];
    assert fetched[..i + 1] == fetched[..i] + [t];
    forall id: TaskId
      ensures Find(fetched[..i + 1], id) == if t.id == id then Some(t) else Find(fetched[..i], id)
    {
      FindSnoc(fetched[..i], t, id);
    }
  }

  /**
   * The store and the tree agree: after the pass, the stored row of every
   * fetched task is the row its node shows, and every other row is as it was.
   */
  lemma StoreAgreesWithTree(rows: seq<Task>, fetched: seq<Task>)
    requires DistinctIds(rows) && forall t :: t in fetched ==> t in rows
    ensures forall j, k :: 0 <= j < |rows| && 0 <= k < |fetched| && rows[j].id == fetched[k].id ==>
      WrittenBack(rows, fetched, fetched)[j] == Refreshed(fetched, fetched[k])
    ensures forall j :: 0 <= j < |rows| && (forall t :: t in fetched ==> t.id != rows[j].id) ==>
      WrittenBack(rows, fetched, fetched)[j] == rows[j]
  {
    forall j, k | 0 <= j < |rows| && 0 <= k < |fetched| && rows[j].id == fetched[k].id
      ensures WrittenBack(rows, fetched, fetched)[j] == Refreshed(fetched, fetched[k])
    {
      assert fetched[k] in rows;
      var m :| 0 <= m < |rows| && rows[m] == fetched[k];
      assert fetched[k] in fetched;
    }
  }

  /**
   * One pass is exact one level above the leaves: a fetched task whose
   * fetched children have no fetched children of their own holds the mean of
   * its children as the tree shows them.
   */
  lemma RefreshExactAboveLeaves(tasks: seq<Task>, k: nat)
    requires k < |tasks|
    requires forall c :: c in tasks && c.parentId == Some(tasks[k].id) ==> |ChildRows(tasks, c.id)| == 0
    ensures HoldsMean(Refresh(tasks), Refresh(tasks)[k])
  {
    var r, q := Refresh(tasks), tasks[k].id;
    forall i | 0 <= i < |r|
      ensures r[i].parentId == tasks[i].parentId
      ensures r[i].parentId == Some(q) ==> r[i].progress == tasks[i].progress
    {
      if tasks[i].parentId == Some(q) {
        assert tasks[i] in tasks;
      }
    }
    ChildStatsFrame(r, tasks, q);
  }

  /** When every fetched task already holds the mean of its fetched children, the pass changes nothing. */
  lemma RefreshKeepsConsistent(tasks: seq<Task>)
    requires Consistent(tasks)
    ensures Refresh(tasks) == tasks
  {
    forall i | 0 <= i < |tasks|
      ensures Refresh(tasks)[i] == tasks[i]
    {
      assert tasks[i] in tasks;
    }
  }
}
