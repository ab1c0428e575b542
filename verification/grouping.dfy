/**
 * Reconstruction of logical tasks from fan-out rows (`get_tasks`): rows are
 * grouped by identity, groups appear in first-seen order, and each group
 * accumulates its rows' dependencies.
 */
module Grouping {
  import opened Wrappers
  import opened TaskRecord
  import opened RowQueries

  /** The `depends_on` column of a run of rows. */
  function DepColumn(rs: seq<Row>): seq<Option<string>> {
    seq(|rs|, i requires 0 <= i < |rs| => rs[i].dependsOn)
  }

  /**
   * The `dependson` list of a group rebuilt from the rows `rs` of one
   * identity: the first row contributes its dependency only when it is
   * truthy, every later row contributes its dependency unconditionally
   * (null included).
   */
  function DepsOf(rs: seq<Row>): seq<Option<string>>
    requires |rs| > 0
  {
    (if Truthy(rs[0].dependsOn) then [rs[0].dependsOn] else []) + DepColumn(rs[1..])
  }

  /** The pid a group reports: -1 for a pending group, else its first row's pid. */
  function GroupPid(r: Row, pending: bool): int {
    if pending then -1
    else match r.pid
      case Some(p) => p
      case None => -1
  }

  /** The task created from the first row of an identity. */
  function NewGroup(r: Row, pending: bool): Task {
    Task(r.taskName, DecodePriority(r.priority),
         if Truthy(r.dependsOn) then [r.dependsOn] else [],
         GroupPid(r, pending), r.taskObj)
  }

  /** The task rebuilt from all rows `rs` of one identity. */
  function MakeTask(rs: seq<Row>, pending: bool): Task
    requires |rs| > 0
  {
    NewGroup(rs[0], pending).(dependson := DepsOf(rs))
  }

  /**
   * Reference definition of `get_tasks` on an already filtered table: one
   * task per distinct identity, in first-appearance order, each rebuilt
   * from all rows of that identity.
   */
  function Groups(rows: seq<Row>, pending: bool): (gs: seq<Task>)
    ensures |gs| == |Ids(rows)|
    ensures forall k :: 0 <= k < |gs| ==> TaskId(gs[k]) == Ids(rows)[k]
  {
    var ids := Ids(rows);
    seq(|ids|, k requires 0 <= k < |ids| => MakeTask(RowsOf(rows, ids[k]), pending))
  }

  lemma GroupAt(rows: seq<Row>, pending: bool, j: nat)
    requires j < |Ids(rows)|
    ensures |RowsOf(rows, Ids(rows)[j])| > 0
    ensures Groups(rows, pending)[j] == MakeTask(RowsOf(rows, Ids(rows)[j]), pending)
  {
    assert Ids(rows)[j] in Ids(rows);
  }

  /** A group's priority is read from one of its identity's rows. */
  lemma GroupPriorityFromRow(rows: seq<Row>, pending: bool, k: nat)
    requires k < |Groups(rows, pending)|
    ensures exists f :: 0 <= f < |rows| && rows[f].Id() == TaskId(Groups(rows, pending)[k])
              && Groups(rows, pending)[k].priority == DecodePriority(rows[f].priority)
  {
    GroupAt(rows, pending, k);
    var y := RowsOf(rows, Ids(rows)[k])[0];
    assert y in RowsOf(rows, Ids(rows)[k]);
    var f :| 0 <= f < |rows| && rows[f] == y;
  }

  /** Adding a row to an identity already present appends its dependency to that group only. */
  lemma GroupsSnocExisting(rows: seq<Row>, r: Row, pending: bool, k: nat)
    requires k < |Ids(rows)| && Ids(rows)[k] == r.Id()
    ensures Groups(rows + [r], pending)
         == Groups(rows, pending)[k := Groups(rows, pending)[k].(dependson := Groups(rows, pending)[k].dependson + [r.dependsOn])]
  {
    assert Ids(rows)[k] in Ids(rows);
    IdsDistinct(rows);
    IdsSnoc(rows, r);
    var gs := Groups(rows, pending);
    var gs' := Groups(rows + [r], pending);
    forall j | 0 <= j < |gs|
      ensures gs'[j] == if j == k then gs[k].(dependson := gs[k].dependson + [r.dependsOn]) else gs[j]
    {
      GroupSnocAt(rows, r, pending, j);
    }
  }

  /** Group `j` after appending a row of an identity already present. */
  lemma GroupSnocAt(rows: seq<Row>, r: Row, pending: bool, j: nat)
    requires r.Id() in Ids(rows) && j < |Ids(rows)|
    ensures Ids(rows + [r]) == Ids(rows)
    ensures Groups(rows + [r], pending)[j]
         == if Ids(rows)[j] == r.Id()
            then Groups(rows, pending)[j].(dependson := Groups(rows, pending)[j].dependson + [r.dependsOn])
            else Groups(rows, pending)[j]
  {
    IdsSnoc(rows, r);
    var id := Ids(rows)[j];
    GroupAt(rows, pending, j);
    GroupAt(rows + [r], pending, j);
    RowsOfAppend(rows, [r], id);
    RowsOfSingle(r, id);
    var rs := RowsOf(rows, id);
    if id == r.Id() {
      MakeTaskSnoc(rs, r, pending);
    } else {
      assert rs + [] == rs;
    }
  }

  /** One more row of the same identity appends its dependency to the rebuilt task. */
  lemma MakeTaskSnoc(rs: seq<Row>, r: Row, pending: bool)
    requires |rs| > 0
    ensures MakeTask(rs + [r], pending) == MakeTask(rs, pending).(dependson := MakeTask(rs, pending).dependson + [r.dependsOn])
  {
    assert (rs + [r])[0] == rs[0];
    assert (rs + [r])[1..] == rs[1..] + [r];
    assert DepColumn(rs[1..] + [r]) == DepColumn(rs[1..]) + [r.dependsOn];
  }

  /** A row of a new identity opens a new group at the end. */
  lemma GroupsSnocFresh(rows: seq<Row>, r: Row, pending: bool)
    requires r.Id() !in Ids(rows)
    ensures Groups(rows + [r], pending) == Groups(rows, pending) + [NewGroup(r, pending)]
  {
    IdsSnoc(rows, r);
    var gs := Groups(rows, pending);
    var gs' := Groups(rows + [r], pending);
    forall j | 0 <= j < |gs'|
      ensures gs'[j] == (gs + [NewGroup(r, pending)])[j]
    {
      GroupFreshAt(rows, r, pending, j);
    }
  }

  /** Group `j` after appending a row of a new identity. */
  lemma GroupFreshAt(rows: seq<Row>, r: Row, pending: bool, j: nat)
    requires r.Id() !in Ids(rows) && j <= |Ids(rows)|
    ensures Ids(rows + [r]) == Ids(rows) + [r.Id()]
    ensures Groups(rows + [r], pending)[j]
         == if j < |Ids(rows)| then Groups(rows, pending)[j] else NewGroup(r, pending)
  {
    IdsSnoc(rows, r);
    if j < |Ids(rows)| {
      GroupFreshOld(rows, r, pending, j);
    } else {
      GroupFreshNew(rows, r, pending);
    }
  }

  /** An existing group is untouched by a row of another identity. */
  lemma GroupFreshOld(rows: seq<Row>, r: Row, pending: bool, j: nat)
    requires Ids(rows + [r]) == Ids(rows) + [r.Id()] && j < |Ids(rows)|
    ensures Groups(rows + [r], pending)[j] == Groups(rows, pending)[j]
  {
    var id := Ids(rows)[j];
    assert Ids(rows + [r])[j] == id;
    assert id in Ids(rows);
    assert id != r.Id();
    GroupAt(rows + [r], pending, j);
    GroupAt(rows, pending, j);
    RowsOfAppend(rows, [r], id);
    RowsOfSingle(r, id);
    assert RowsOf(rows, id) + [] == RowsOf(rows, id);
  }

  /** The group opened by a row of a new identity holds that row alone. */
  lemma GroupFreshNew(rows: seq<Row>, r: Row, pending: bool)
    requires r.Id() !in Ids(rows)
    requires Ids(rows + [r]) == Ids(rows) + [r.Id()]
    ensures Groups(rows + [r], pending)[|Ids(rows)|] == NewGroup(r, pending)
  {
    var j := |Ids(rows)|;
    assert Ids(rows + [r])[j] == r.Id();
    GroupAt(rows + [r], pending, j);
    RowsOfAppend(rows, [r], r.Id());
    RowsOfSingle(r, r.Id());
    assert RowsOf(rows, r.Id()) == [];
    assert RowsOf(rows, r.Id()) + [r] == [r];
    MakeTaskSingle(r, pending);
  }

  /** The fresh-identity step, phrased over the groups the search inspects. */
  lemma GroupsSnocUnmatched(rows: seq<Row>, r: Row, pending: bool)
    requires forall j :: 0 <= j < |Groups(rows, pending)| ==> TaskId(Groups(rows, pending)[j]) != r.Id()
    ensures Groups(rows + [r], pending) == Groups(rows, pending) + [NewGroup(r, pending)]
  {
    assert r.Id() !in Ids(rows) by {
      forall j | 0 <= j < |Ids(rows)|
        ensures Ids(rows)[j] != r.Id()
      {
        assert TaskId(Groups(rows, pending)[j]) != r.Id();
      }
    }
    GroupsSnocFresh(rows, r, pending);
  }

  /** The existing-identity step, phrased over the group the search found. */
  lemma GroupsSnocMatched(rows: seq<Row>, r: Row, pending: bool, k: nat)
    requires k < |Groups(rows, pending)| && TaskId(Groups(rows, pending)[k]) == r.Id()
    ensures Groups(rows + [r], pending)
         == Groups(rows, pending)[k := Groups(rows, pending)[k].(dependson := Groups(rows, pending)[k].dependson + [r.dependsOn])]
  {
    GroupsSnocExisting(rows, r, pending, k);
  }

  /**
   * The rows of a new identity appended as one run (a fan-out insert) add
   * exactly one group at the end: the task rebuilt from those rows.
   */
  lemma {:induction false} GroupsAppendRun(rows: seq<Row>, run: seq<Row>, pending: bool)
    requires |run| > 0
    requires forall x :: x in run ==> x.Id() == run[0].Id()
    requires run[0].Id() !in IdSet(rows)
    ensures Groups(rows + run, pending) == Groups(rows, pending) + [MakeTask(run, pending)]
    decreases |run|
  {
    var last := run[|run| - 1];
    var init := run[..|run| - 1];
    assert run == init + [last];
    assert rows + run == (rows + init) + [last];
    if |init| == 0 {
      GroupsAppendOne(rows, last, pending);
    } else {
      assert init[0] == run[0];
      assert forall x :: x in init ==> x in run;
      GroupsAppendRun(rows, init, pending);
      assert last in run;
      GroupsExtendLast(rows, init, last, pending);
    }
  }

  lemma UpdateLast(gs: seq<Task>, t: Task, u: Task)
    ensures (gs + [t])[|gs| := u] == gs + [u]
  {
  }

  lemma GroupsAppendOne(rows: seq<Row>, r: Row, pending: bool)
    requires r.Id() !in IdSet(rows)
    ensures Groups(rows + [r], pending) == Groups(rows, pending) + [MakeTask([r], pending)]
  {
    GroupsSnocFresh(rows, r, pending);
    MakeTaskSingle(r, pending);
  }

  lemma MakeTaskSingle(r: Row, pending: bool)
    ensures MakeTask([r], pending) == NewGroup(r, pending)
  {
    assert [r][1..] == [];
    assert DepColumn([r][1..]) == [];
  }

  lemma GroupsExtendLast(rows: seq<Row>, init: seq<Row>, last: Row, pending: bool)
    requires |init| > 0 && last.Id() == init[0].Id()
    requires Groups(rows + init, pending) == Groups(rows, pending) + [MakeTask(init, pending)]
    ensures Groups(rows + init + [last], pending) == Groups(rows, pending) + [MakeTask(init + [last], pending)]
  {
    var gs := Groups(rows, pending);
    var k := |gs|;
    var t := MakeTask(init, pending);
    assert Groups(rows + init, pending)[k] == t;
    assert TaskId(t) == init[0].Id();
    GroupsSnocExisting(rows + init, last, pending, k);
    MakeTaskSnoc(init, last, pending);
    UpdateLast(gs, t, t.(dependson := t.dependson + [last.dependsOn]));
  }

  /**
   * `get_tasks` makes one group per distinct identity of the selected rows,
   * and no identity twice.
   */
  lemma GroupsAreDistinctIdentities(rows: seq<Row>, pending: bool)
    ensures |Groups(rows, pending)| == |IdSet(rows)|
    ensures forall i, j :: 0 <= i < j < |Groups(rows, pending)| ==>
              TaskId(Groups(rows, pending)[i]) != TaskId(Groups(rows, pending)[j])
    ensures forall id :: id in IdSet(rows) <==>
              exists k :: 0 <= k < |Groups(rows, pending)| && TaskId(Groups(rows, pending)[k]) == id
  {
    var gs := Groups(rows, pending);
    var ids := Ids(rows);
    IdsDistinct(rows);
    IdsCount(rows);
    forall id | id in IdSet(rows)
      ensures exists k :: 0 <= k < |gs| && TaskId(gs[k]) == id
    {
      var k :| 0 <= k < |ids| && ids[k] == id;
      assert TaskId(gs[k]) == id;
    }
    forall k | 0 <= k < |gs|
      ensures TaskId(gs[k]) in IdSet(rows)
    {
      assert ids[k] in ids;
    }
  }

  /** `get_tasks` returns its groups in the order their first rows appear. */
  lemma GroupsInFirstAppearanceOrder(rows: seq<Row>, pending: bool)
    ensures forall i, j :: 0 <= i < j < |Groups(rows, pending)| ==>
              && TaskId(Groups(rows, pending)[i]) in IdSet(rows)
              && TaskId(Groups(rows, pending)[j]) in IdSet(rows)
              && FirstIndex(rows, TaskId(Groups(rows, pending)[i])) < FirstIndex(rows, TaskId(Groups(rows, pending)[j]))
  {
    var gs := Groups(rows, pending);
    var ids := Ids(rows);
    IdsInFirstAppearanceOrder(rows);
    forall k | 0 <= k < |gs|
      ensures TaskId(gs[k]) in IdSet(rows)
    {
      assert ids[k] in ids;
    }
  }

  /**
   * Each group takes its name, object, priority and pid from its identity's
   * first row and collects the dependencies of all its rows in `pos` order.
   */
  lemma GroupFromFirstRow(rows: seq<Row>, pending: bool, k: nat)
    requires k < |Groups(rows, pending)|
    ensures TaskId(Groups(rows, pending)[k]) in IdSet(rows)
    ensures var first := rows[FirstIndex(rows, TaskId(Groups(rows, pending)[k]))];
            && Groups(rows, pending)[k].priority == DecodePriority(first.priority)
            && Groups(rows, pending)[k].pid == GroupPid(first, pending)
            && Groups(rows, pending)[k].dependson == DepsOf(RowsOf(rows, TaskId(Groups(rows, pending)[k])))
  {
    var ids := Ids(rows);
    assert ids[k] in ids;
    GroupAt(rows, pending, k);
    RowsOfFirst(rows, ids[k]);
  }

  /**
   * `get_tasks(pending)`, as `ZooQDB_SQLite` computes it: scan the selected rows
   * in `pos` order and, for each, search the groups built so far for one of
   * the same identity; extend it, or create a new group at the end.
   */
  method GetTasks(rows: seq<Row>, pending: bool) returns (activeq: seq<Task>)
    ensures activeq == Groups(Select(rows, pending), pending)
  {
    activeq := GroupRows(Select(rows, pending), pending);
  }

  /** The outer loop of `get_tasks` over the rows its query returned. */
  method GroupRows(query: seq<Row>, pending: bool) returns (activeq: seq<Task>)
    ensures activeq == Groups(query, pending)
  {
    activeq := [];
    var n := 0;
    assert query[..0] == [];
    assert Groups([], pending) == [];
    while n < |query|
      invariant 0 <= n <= |query|
      invariant activeq == Groups(query[..n], pending)
    {
      assert query[..n + 1] == query[..n] + [query[n]];
      activeq := AddRow(query[..n], activeq, query[n], pending);
      n := n + 1;
    }
    assert query[..n] == query;
  }

  /**
   * One iteration of `get_tasks`: fold the next row into the groups built
   * from the rows `seen` before it.
   */
  method AddRow(ghost seen: seq<Row>, activeq: seq<Task>, row: Row, pending: bool) returns (next: seq<Task>)
    requires activeq == Groups(seen, pending)
    ensures next == Groups(seen + [row], pending)
  {
    var curItem := FindGroup(activeq, row);
    if curItem == -1 {
      GroupsSnocUnmatched(seen, row, pending);
      next := activeq + [NewGroup(row, pending)];
    } else {
      GroupsSnocMatched(seen, row, pending, curItem);
      next := activeq[curItem := activeq[curItem].(dependson := activeq[curItem].dependson + [row.dependsOn])];
    }
  }

  /**
   * The inner search of `get_tasks`: the index of the first group with the
   * row's name and object, or -1 when there is none.
   */
  method FindGroup(activeq: seq<Task>, row: Row) returns (curItem: int)
    ensures -1 <= curItem < |activeq|
    ensures curItem == -1 <==> forall j :: 0 <= j < |activeq| ==> TaskId(activeq[j]) != row.Id()
    ensures curItem != -1 ==> TaskId(activeq[curItem]) == row.Id()
    ensures curItem != -1 ==> forall j :: 0 <= j < curItem ==> TaskId(activeq[j]) != row.Id()
  {
    curItem := -1;
    var i := 0;
    while i < |activeq|
      invariant 0 <= i <= |activeq|
      invariant forall j :: 0 <= j < i ==> TaskId(activeq[j]) != row.Id()
    {
      if activeq[i].taskName == row.taskName && activeq[i].taskObj == row.taskObj {
        curItem := i;
        return;
      }
      i := i + 1;
    }
  }
}
