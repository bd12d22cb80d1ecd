/**
 * Concrete tables that show what the progress rules do: an example table in
 * which a new child re-aggregates every ancestor, and the writes that leave a
 * derived value stale.
 */
module Scenarios {
  import opened Wrappers
  import opened Schema
  import opened TaskTable
  import opened Rounding
  import opened Aggregation
  import opened TaskTree

  /** A task of project 1 with only the columns the aggregation reads filled in. */
  function Row(id: TaskId, parent: Option<TaskId>, progress: nat): Task {
    Task(id, 1, parent, "", None, None, None, None, 0, 0, Medium, Pending, progress, 0, 0, 1)
  }

  /** Root holds 60, the mean of A at 80 and B at 40. */
  function Example(): seq<Task> {
    [Row(1, None, 60), Row(2, Some(1), 80), Row(3, Some(1), 40)]
  }

  lemma ChildRowsOfOne(x: Task, q: TaskId)
    ensures ChildRows([x], q) == if x.parentId == Some(q) then [x] else []
  {
    assert [x][..0] == [];
  }

  lemma ChildRowsOfFour(w: Task, x: Task, y: Task, z: Task, q: TaskId)
    ensures ChildRows([w, x, y, z], q) == ChildRows([w], q) + ChildRows([x], q) + ChildRows([y], q) + ChildRows([z], q)
  {
    assert [w, x, y, z] == [w] + [x] + [y] + [z];
    ChildRowsConcat([w] + [x] + [y], [z], q);
    ChildRowsConcat([w] + [x], [y], q);
    ChildRowsConcat([w], [x], q);
  }

  lemma ChildRowsOfThree(w: Task, x: Task, y: Task, q: TaskId)
    ensures ChildRows([w, x, y], q) == ChildRows([w], q) + ChildRows([x], q) + ChildRows([y], q)
  {
    assert [w, x, y] == [w] + [x] + [y];
    ChildRowsConcat([w] + [x], [y], q);
    ChildRowsConcat([w], [x], q);
  }

  /** The children of `q` among four rows. */
  lemma FourChildren(w: Task, x: Task, y: Task, z: Task, q: TaskId)
    ensures ChildRows([w, x, y, z], q) ==
      (if w.parentId == Some(q) then [w] else []) + (if x.parentId == Some(q) then [x] else []) +
      (if y.parentId == Some(q) then [y] else []) + (if z.parentId == Some(q) then [z] else [])
  {
    ChildRowsOfFour(w, x, y, z, q);
    ChildRowsOfOne(w, q);
    ChildRowsOfOne(x, q);
    ChildRowsOfOne(y, q);
    ChildRowsOfOne(z, q);
  }

  lemma SumOfOne(x: Task)
    ensures SumProgress([x]) == x.progress
  {
    assert [x][..0] == [];
  }

  lemma SumOfTwo(x: Task, y: Task)
    ensures SumProgress([x, y]) == x.progress + y.progress
  {
    assert [x, y][..1] == [x];
    SumOfOne(x);
  }

  /** The children of `q` among three rows. */
  lemma ThreeChildren(w: Task, x: Task, y: Task, q: TaskId)
    ensures ChildRows([w, x, y], q) ==
      (if w.parentId == Some(q) then [w] else []) + (if x.parentId == Some(q) then [x] else []) +
      (if y.parentId == Some(q) then [y] else [])
  {
    ChildRowsOfThree(w, x, y, q);
    ChildRowsOfOne(w, q);
    ChildRowsOfOne(x, q);
    ChildRowsOfOne(y, q);
  }

  lemma ExampleChildren()
    ensures ChildRows(Example(), 1) == [Example()[1], Example()[2]]
  {
    var rows := Example();
    ThreeChildren(rows[0], rows[1], rows[2], 1);
  }

  lemma ExampleConsistent()
    ensures Consistent(Example())
  {
    var rows := Example();
    ExampleChildren();
    SumOfTwo(rows[1], rows[2]);
    assert HoldsMean(rows, rows[0]);
    ExampleLeaves();
    ConsistentOfThree(rows);
  }

  lemma ExampleLeaves()
    ensures HoldsMean(Example(), Example()[1]) && HoldsMean(Example(), Example()[2])
  {
    NoChildRows(Example(), 2);
    NoChildRows(Example(), 3);
  }

  /** A table of three rows is consistent when each of its rows holds its mean. */
  lemma ConsistentOfThree(rows: seq<Task>)
    requires |rows| == 3
    requires HoldsMean(rows, rows[0]) && HoldsMean(rows, rows[1]) && HoldsMean(rows, rows[2])
    ensures Consistent(rows)
  {
    forall t | t in rows
      ensures HoldsMean(rows, t)
    {
      var i :| 0 <= i < 3 && rows[i] == t;
    }
  }

  /** A table of two rows is consistent when each of its rows holds its mean. */
  lemma ConsistentOfTwo(rows: seq<Task>)
    requires |rows| == 2
    requires HoldsMean(rows, rows[0]) && HoldsMean(rows, rows[1])
    ensures Consistent(rows)
  {
    forall t | t in rows
      ensures HoldsMean(rows, t)
    {
      var i :| 0 <= i < 2 && rows[i] == t;
    }
  }

  /** The example table after inserting C, then after recalculating B, then after recalculating Root. */
  function Added(): seq<Task> {
    [Row(1, None, 60), Row(2, Some(1), 80), Row(3, Some(1), 40), Row(4, Some(3), 100)]
  }

  function BRecalculated(): seq<Task> {
    [Row(1, None, 60), Row(2, Some(1), 80), Row(3, Some(1), 100), Row(4, Some(3), 100)]
  }

  function RootRecalculated(): seq<Task> {
    [Row(1, None, 90), Row(2, Some(1), 80), Row(3, Some(1), 100), Row(4, Some(3), 100)]
  }

  lemma RecalcB()
    ensures Recalc(Added(), 3) == BRecalculated()
  {
    var added := Added();
    FourChildren(added[0], added[1], added[2], added[3], 3);
    assert ChildRows(added, 3) == [added[3]];
    SumOfOne(added[3]);
    assert ChildMean(added, 3) == 100;
  }

  lemma RecalcRoot()
    ensures Recalc(BRecalculated(), 1) == RootRecalculated()
  {
    var b := BRecalculated();
    FourChildren(b[0], b[1], b[2], b[3], 1);
    assert ChildRows(b, 1) == [b[1], b[2]];
    SumOfTwo(b[1], b[2]);
    assert ChildMean(b, 1) == 90;
  }

  /** One step of the upward walk. */
  lemma WalkStep(rows: seq<Task>, s: TaskId, i: nat, p: TaskId)
    requires ParentsBelow(rows) && s != 0 && Lookup(rows, s) == Some(i) && rows[i].parentId == Some(p)
    ensures ParentsBelow(Recalc(rows, p)) && Propagate(rows, s) == Propagate(Recalc(rows, p), p)
  {
    SameShapeIsSameTree(Recalc(rows, p), rows);
    SameTreeKeepsWellFormed(Recalc(rows, p), rows, 0);
  }

  lemma AddedShape()
    ensures DistinctIds(Added()) && ParentsBelow(Added())
  {
  }

  lemma BRecalculatedShape()
    ensures DistinctIds(BRecalculated()) && ParentsBelow(BRecalculated())
  {
  }

  lemma RootRecalculatedShape()
    ensures DistinctIds(RootRecalculated()) && ParentsBelow(RootRecalculated())
  {
  }

  lemma WalkFromC()
    ensures ParentsBelow(Added())
    ensures Propagate(Added(), 4) == RootRecalculated()
  {
    var added, b, r := Added(), BRecalculated(), RootRecalculated();
    AddedShape();
    BRecalculatedShape();
    RootRecalculatedShape();
    LookupDistinct(added, 3);
    LookupDistinct(b, 2);
    LookupDistinct(r, 0);
    RecalcB();
    RecalcRoot();
    WalkStep(added, 4, 3, 3);
    WalkStep(b, 3, 2, 1);
  }

  lemma CreateIsWalkFromC()
    ensures AfterCreate(Example(), Row(4, Some(3), 100)) == RootRecalculated()
  {
    assert Example() + [Row(4, Some(3), 100)] == Added();
    WalkFromC();
  }

  /** Adding C at 100 under B sets B to 100 and then Root to 90. */
  lemma ExampleScenario()
    ensures Consistent(Example())
    ensures var after := AfterCreate(Example(), Row(4, Some(3), 100));
      Find(after, 3) == Some(Row(3, Some(1), 100)) && Find(after, 1) == Some(Row(1, None, 90))
  {
    ExampleConsistent();
    CreateIsWalkFromC();
    var r := RootRecalculated();
    RootRecalculatedShape();
    DistinctRowIs(r, 2);
    DistinctRowIs(r, 0);
    RowIsFound(r, r[2]);
    RowIsFound(r, r[0]);
  }

  /** A parent at 0 over a single child at 0. */
  function Pair(): seq<Task> {
    [Row(1, None, 0), Row(2, Some(1), 0)]
  }

  lemma PairConsistent()
    ensures Consistent(Pair())
  {
    PairAgreeing(0);
  }

  /** A parent holding its only child's progress is consistent. */
  lemma PairAgreeing(v: nat)
    ensures Consistent([Row(1, None, v), Row(2, Some(1), v)])
  {
    var rows := [Row(1, None, v), Row(2, Some(1), v)];
    TwoChildren(rows[0], rows[1], 1);
    SumOfOne(rows[1]);
    RoundedMeanOfConstant(1, v);
    assert HoldsMean(rows, rows[0]);
    NoChildRows(rows, 2);
    ConsistentOfTwo(rows);
  }

  /** The children of `q` among two rows. */
  lemma TwoChildren(x: Task, y: Task, q: TaskId)
    ensures ChildRows([x, y], q) ==
      (if x.parentId == Some(q) then [x] else []) + (if y.parentId == Some(q) then [y] else [])
  {
    assert [x, y] == [x] + [y];
    ChildRowsConcat([x], [y], q);
    ChildRowsOfOne(x, q);
    ChildRowsOfOne(y, q);
  }

  /** The pair with the child at `c` and the parent still at `p`. */
  lemma PairStale(p: nat, c: nat)
    requires p != c
    ensures !Consistent([Row(1, None, p), Row(2, Some(1), c)])
  {
    var rows := [Row(1, None, p), Row(2, Some(1), c)];
    assert ChildRows(rows, 1) == [rows[1]];
    SumOfOne(rows[1]);
    assert rows[0] in rows && !HoldsMean(rows, rows[0]);
  }

  /** `createTaskUpdate` writes the child's new progress and leaves its parent behind. */
  lemma ReportLeavesParentStale()
    ensures Consistent(Pair())
    ensures !Consistent(AfterReport(Pair(), 2, CreateTaskUpdateDto(Some(100), None, None, None)))
  {
    PairConsistent();
    var after := AfterReport(Pair(), 2, CreateTaskUpdateDto(Some(100), None, None, None));
    assert after == [Row(1, None, 0), Row(2, Some(1), 100)];
    PairStale(0, 100);
  }

  /** `updateTask` with a progress for a task that has children overwrites the derived value. */
  lemma OverwriteBreaksComposite()
    ensures Consistent(Pair())
    ensures !Consistent(AfterUpdate(Pair(), 1, UpdateTaskDto(None, None, None, None, None, None, None, None, None, Some(30))))
  {
    PairConsistent();
    var rows := Pair();
    var dto := UpdateTaskDto(None, None, None, None, None, None, None, None, None, Some(30));
    var patched := ApplyFields(rows, 1, dto);
    assert patched == [Row(1, None, 30), Row(2, Some(1), 0)];
    assert Lookup(patched, 1) == Some(0);
    assert AfterUpdate(rows, 1, dto) == patched;
    PairStale(30, 0);
  }

  lemma {:induction false} WholeProject(rows: seq<Task>, pid: ProjectId)
    requires forall i :: 0 <= i < |rows| ==> rows[i].projectId == pid
    ensures ProjectRows(rows, pid) == rows
  {
    if |rows| > 0 {
      WholeProject(rows[..|rows| - 1], pid);
      assert rows == rows[..|rows| - 1] + [rows[|rows| - 1]];
    }
  }

  /**
   * The project figure averages every task at every depth, so it differs from
   * the tree's own aggregate: after the example scenario the only root holds
   * 90 while the project's progress is the rounded mean of 90, 80, 100 and
   * 100, which is 93.
   */
  lemma ProjectMeanCountsEveryLevel()
    ensures Find(RootRecalculated(), 1) == Some(Row(1, None, 90))
    ensures ProjectProgress(RootRecalculated(), 1) == 93
  {
    var r := RootRecalculated();
    assert DistinctIds(r);
    DistinctRowIs(r, 0);
    RowIsFound(r, r[0]);
    WholeProject(r, 1);
    assert r[..3][..2][..1] == [r[0]] && r[..3][..2] == [r[0], r[1]] && r[..3] == [r[0], r[1], r[2]];
    SumOfOne(r[0]);
    assert SumProgress(r) == 370;
  }

  /** A chain root, middle, leaf as fetched: the leaf is done, the two above it still read 0. */
  function Chain(): seq<Task> {
    [Row(1, None, 0), Row(2, Some(1), 0), Row(3, Some(2), 100)]
  }

  /** Each task of the chain has the next one as its only child. */
  lemma ChainChildren()
    ensures ChildRows(Chain(), 1) == [Chain()[1]]
    ensures ChildRows(Chain(), 2) == [Chain()[2]]
    ensures ChildRows(Chain(), 3) == []
  {
    var c := Chain();
    ThreeChildren(c[0], c[1], c[2], 1);
    ThreeChildren(c[0], c[1], c[2], 2);
    ThreeChildren(c[0], c[1], c[2], 3);
  }

  /** The chain after the pass: the middle task holds 100, the root still 0. */
  function ChainRefreshed(): seq<Task> {
    [Row(1, None, 0), Row(2, Some(1), 100), Row(3, Some(2), 100)]
  }

  lemma RefreshChain()
    ensures Refresh(Chain()) == ChainRefreshed()
  {
    var c := Chain();
    ChainChildren();
    SumOfOne(c[1]);
    SumOfOne(c[2]);
    assert Refreshed(c, c[0]) == c[0];
    assert Refreshed(c, c[1]) == ChainRefreshed()[1];
    assert Refreshed(c, c[2]) == c[2];
  }

  lemma ChainRefreshedStale()
    ensures !Consistent(ChainRefreshed())
  {
    var r := ChainRefreshed();
    ThreeChildren(r[0], r[1], r[2], 1);
    SumOfOne(r[1]);
    assert r[0] in r && !HoldsMean(r, r[0]);
  }

  /**
   * The project view's single pass averages the rows as fetched: the middle
   * task gets 100, but the root is averaged over the middle task's fetched 0
   * and keeps 0, so the tree it returns does not satisfy the invariant.
   */
  lemma ReadPassLeavesGrandparentStale()
    ensures Refresh(Chain()) == [Row(1, None, 0), Row(2, Some(1), 100), Row(3, Some(2), 100)]
    ensures !Consistent(Refresh(Chain()))
  {
    RefreshChain();
    ChainRefreshedStale();
  }
}
