/**
 * Properties that relate several operations of the queue store: inserts
 * and listings, claim and re-insert, counts, the owner invariant, the
 * recovery sweep, and readiness.
 */
module QueueProperties {
  import opened Wrappers
  import opened TaskRecord
  import opened RowQueries
  import opened Grouping
  import opened Readiness
  import opened QueueStore

  /**
   * A task whose listing survives a fan-out insert unchanged: it has no
   * dependencies, or its first dependency is a non-empty signature (a null
   * or empty first entry is dropped when the rows are grouped again).
   */
  predicate KeepsLeadingDependency(t: Task) {
    |t.dependson| == 0 || Truthy(t.dependson[0])
  }

  predicate ValidPriority(t: Task) {
    t.priority == "high" || t.priority == "low"
  }

  // ------------------------------------------------------ inserts and listings

  /** Regrouping a task's own fan-out rows gives the task back. */
  lemma FanOutRebuilds(t: Task, pid: Option<int>, pos: int, pending: bool)
    requires KeepsLeadingDependency(t) && ValidPriority(t)
    ensures |FanOut(t, EncodePriority(t.priority), pid, pos)| > 0
    ensures MakeTask(FanOut(t, EncodePriority(t.priority), pid, pos), pending)
         == t.(pid := GroupPid(FanOut(t, EncodePriority(t.priority), pid, pos)[0], pending))
  {
    var rs := FanOut(t, EncodePriority(t.priority), pid, pos);
    PriorityRoundTrip(t.priority);
    if |t.dependson| == 0 {
      assert rs[1..] == [];
      assert DepColumn(rs[1..]) == [];
    } else {
      var tail := DepColumn(rs[1..]);
      assert |tail| == |t.dependson| - 1;
      forall i | 0 <= i < |tail| ensures tail[i] == t.dependson[i + 1] {
        assert rs[1..][i] == rs[i + 1];
      }
      assert DepsOf(rs) == [t.dependson[0]] + tail;
      assert DepsOf(rs) == t.dependson;
    }
  }

  /** The rows an insert adds all share the task's identity. */
  lemma InsertedRun(s: Store, t: Task, pid: Option<int>)
    ensures var run := FanOut(t, EncodePriority(t.priority), pid, s.nextPos);
            && Insert(s, t, pid).rows == s.rows + run
            && |run| > 0
            && (forall x :: x in run ==> x.Id() == TaskId(t) && x.pid == pid)
            && run[0].Id() == TaskId(t)
  {
    var r := Insert(s, t, pid);
    assert r.rows == r.rows[..|s.rows|] + r.rows[|s.rows|..];
  }

  /** A task absent from the table has no row among either selection. */
  lemma AbsentFromSelections(s: Store, t: Task, pending: bool)
    requires !InQueue(s, t.taskName, t.taskObj)
    ensures TaskId(t) !in IdSet(Select(s.rows, pending))
  {
    forall x | x in Select(s.rows, pending) ensures x.Id() != TaskId(t) {
      var i :| 0 <= i < |s.rows| && s.rows[i] == x;
    }
  }

  /**
   * `enqueue` of a task with no pending row makes it the last pending task,
   * listed exactly as given (with pid -1), and leaves the active list alone.
   * The task may be claimed at the same time: `enqueue` does not consult
   * `in_queue`.
   */
  lemma EnqueueThenGetPending(s: Store, t: Task)
    requires TaskId(t) !in IdSet(Select(s.rows, true))
    requires KeepsLeadingDependency(t) && ValidPriority(t)
    ensures GetPending(Enqueue(s, t)) == GetPending(s) + [t.(pid := -1)]
    ensures GetActive(Enqueue(s, t)) == GetActive(s)
  {
    var run := FanOut(t, EncodePriority(t.priority), None, s.nextPos);
    InsertedRun(s, t, None);
    var rows := Enqueue(s, t).rows;
    assert rows == s.rows + run;
    SelectAppend(s.rows, run, true);
    SelectAppend(s.rows, run, false);
    WhereAll(run, (x: Row) => x.pid.None? == true);
    assert Select(run, true) == run;
    WhereNone(run, (x: Row) => x.pid.None? == false);
    assert Select(s.rows, false) + [] == Select(s.rows, false);
    GroupsAppendRun(Select(s.rows, true), run, true);
    FanOutRebuilds(t, None, s.nextPos, true);
  }

  /**
   * `active_next` of a task with no claimed row makes it the last active
   * task, listed exactly as given, and leaves the pending list alone.
   */
  lemma ActiveNextThenGetActive(s: Store, t: Task)
    requires TaskId(t) !in IdSet(Select(s.rows, false))
    requires KeepsLeadingDependency(t) && ValidPriority(t)
    ensures GetActive(ActiveNext(s, t)) == GetActive(s) + [t]
    ensures GetPending(ActiveNext(s, t)) == GetPending(s)
  {
    var run := FanOut(t, EncodePriority(t.priority), Some(t.pid), s.nextPos);
    InsertedRun(s, t, Some(t.pid));
    var rows := ActiveNext(s, t).rows;
    assert rows == s.rows + run;
    SelectAppend(s.rows, run, true);
    SelectAppend(s.rows, run, false);
    WhereAll(run, (x: Row) => x.pid.None? == false);
    assert Select(run, false) == run;
    WhereNone(run, (x: Row) => x.pid.None? == true);
    assert Select(s.rows, true) + [] == Select(s.rows, true);
    GroupsAppendRun(Select(s.rows, false), run, false);
    FanOutRebuilds(t, Some(t.pid), s.nextPos, false);
  }

  /** After `enqueue(t)`, `in_queue` finds t. */
  lemma EnqueueThenInQueue(s: Store, t: Task)
    ensures InQueue(Enqueue(s, t), t.taskName, t.taskObj)
    ensures QSize(Enqueue(s, t)) > 0
  {
    assert Enqueue(s, t).rows[|s.rows|].Id() == TaskId(t);
  }

  // ------------------------------------------------------------ claim cycle

  /** Every task a listing returns carries a priority of 'high' or 'low'. */
  lemma ListedPriorities(rows: seq<Row>, pending: bool)
    ensures forall g :: g in Groups(rows, pending) ==> g.priority == "high" || g.priority == "low"
  {
    forall g | g in Groups(rows, pending) ensures g.priority == "high" || g.priority == "low" {
      var k :| 0 <= k < |Groups(rows, pending)| && Groups(rows, pending)[k] == g;
      GroupAt(rows, pending, k);
    }
  }

  /**
   * Claiming a task with `pop_next` and re-inserting it with `active_next`
   * under worker pid `p` lists it as the last active task, with the same
   * name, object, priority and dependencies.
   */
  lemma PopThenActiveNext(s: Store, p: int)
    ensures var r := PopNext(s);
            r.task.Some? && KeepsLeadingDependency(r.task.value) ==>
              GetActive(ActiveNext(r.store, r.task.value.(pid := p))) == GetActive(r.store) + [r.task.value.(pid := p)]
  {
    var r := PopNext(s);
    if r.task.Some? && KeepsLeadingDependency(r.task.value) {
      var t := r.task.value;
      var k :| 0 <= k < |GetPending(s)| && GetPending(s)[k] == t;
      ListedPriorities(Select(s.rows, true), true);
      assert t in GetPending(s);
      var claimed := t.(pid := p);
      forall i | 0 <= i < |r.store.rows| ensures r.store.rows[i].Id() != TaskId(t) {
        assert r.store.rows[i] in r.store.rows;
      }
      ActiveNextThenGetActive(r.store, claimed);
    }
  }

  /**
   * `pop_next` is determined by readiness: when pending task `k` is ready
   * and no later pending task is, it claims task `k`.
   */
  lemma PopNextIsLastReady(s: Store, k: nat)
    ensures var pq := GetPending(s);
            k < |pq| && Ready(pq[k], StoreSignatures(s))
            && (forall j :: k < j < |pq| ==> !Ready(pq[j], StoreSignatures(s)))
            ==> PopNext(s).task == Some(pq[k])
  {
    var pqueue := GetPending(s);
    if k < |pqueue| && Ready(pqueue[k], StoreSignatures(s))
       && forall j :: k < j < |pqueue| ==> !Ready(pqueue[j], StoreSignatures(s))
    {
      PopsLastReady(s, k);
    }
  }

  /** `PopNextIsLastReady` for a caller that has established its premise. */
  lemma PopsLastReady(s: Store, k: nat)
    requires k < |GetPending(s)| && Ready(GetPending(s)[k], StoreSignatures(s))
    requires forall j :: k < j < |GetPending(s)| ==> !Ready(GetPending(s)[j], StoreSignatures(s))
    ensures PopNext(s).task == Some(GetPending(s)[k])
  {
    var pqueue := GetPending(s);
    LiveSignaturesAreStored(s);
    ScanBackFindsLastReady(pqueue, LiveSignatures(s), |pqueue|, k);
  }

  /** When every pending task is blocked, `pop_next` claims nothing and changes nothing. */
  lemma PopNextWhenAllBlocked(s: Store)
    requires forall k :: 0 <= k < |GetPending(s)| ==> !Ready(GetPending(s)[k], StoreSignatures(s))
    ensures PopNext(s) == Popped(s, None)
  {
    var r := PopNext(s);
    assert r.task.None?;
  }

  /** `pop_next` removes exactly one task from the queue when it returns one. */
  lemma PopNextShrinksQueue(s: Store)
    ensures PopNext(s).task.Some? ==> QSize(PopNext(s).store) == QSize(s) - 1
    ensures PopNext(s).task.Some? ==>
              !InQueue(PopNext(s).store, PopNext(s).task.value.taskName, PopNext(s).task.value.taskObj)
  {
    var r := PopNext(s);
    if r.task.Some? {
      PoppedIsStored(s);
      DeletedTaskLeaves(s.rows, r.store.rows, TaskId(r.task.value));
    }
  }

  /** Removing every row of a stored identity lowers the distinct-pair count by one and leaves no row of it. */
  lemma DeletedTaskLeaves(rows: seq<Row>, kept: seq<Row>, id: Identity)
    requires id in IdSet(rows)
    requires forall x :: x in kept <==> x in rows && x.Id() != id
    requires IdSet(kept) == IdSet(rows) - {id}
    ensures |IdSet(kept)| == |IdSet(rows)| - 1
    ensures forall i :: 0 <= i < |kept| ==> kept[i].Id() != id
  {
    forall i | 0 <= i < |kept| ensures kept[i].Id() != id {
      assert kept[i] in kept;
    }
  }

  /** The task `pop_next` claims has rows in the table. */
  lemma PoppedIsStored(s: Store)
    ensures PopNext(s).task.Some? ==> TaskId(PopNext(s).task.value) in IdSet(s.rows)
  {
    var r := PopNext(s);
    if r.task.Some? {
      var k :| 0 <= k < |GetPending(s)| && GetPending(s)[k] == r.task.value;
      ListedIsStored(s, k);
    }
  }

  /** Every pending task listed has rows in the table. */
  lemma ListedIsStored(s: Store, k: nat)
    requires k < |GetPending(s)|
    ensures TaskId(GetPending(s)[k]) in IdSet(s.rows)
  {
    var pqueue := GetPending(s);
    GroupIdentities(Select(s.rows, true), true);
    assert pqueue[k] in pqueue;
    var x :| x in Select(s.rows, true) && x.Id() == TaskId(pqueue[k]);
  }

  // ----------------------------------------------------------------- counts

  /**
   * Every task is counted once exactly when no identity is both pending and
   * claimed: only then is the queue size the pending count plus the active
   * count, and then `get_all` lists that many tasks.
   */
  lemma CountsAddUp(s: Store)
    ensures StatusAgrees(s) <==> QSize(s) == WaitSize(s) + ALen(s)
    ensures StatusAgrees(s) ==> |GetAll(s)| == QSize(s)
  {
    var act := IdSet(Select(s.rows, false));
    var pen := IdSet(Select(s.rows, true));
    IdSetSplit(s.rows);
    UnionCard(act, pen);
    StatusAgreesIffDisjoint(s);
  }

  /** Inclusion-exclusion for two finite sets. */
  lemma UnionCard<T>(a: set<T>, b: set<T>)
    ensures |a + b| == |a| + |b| - |a * b|
  {
  }

  /** No identity is both pending and claimed exactly when each identity's rows agree on pid-nullness. */
  lemma StatusAgreesIffDisjoint(s: Store)
    ensures StatusAgrees(s) <==> IdSet(Select(s.rows, false)) * IdSet(Select(s.rows, true)) == {}
  {
    if StatusAgrees(s) {
      AgreeingStatusIsDisjoint(s);
    } else {
      MixedStatusOverlaps(s);
    }
  }

  lemma AgreeingStatusIsDisjoint(s: Store)
    requires StatusAgrees(s)
    ensures IdSet(Select(s.rows, false)) * IdSet(Select(s.rows, true)) == {}
  {
    var act := IdSet(Select(s.rows, false));
    var pen := IdSet(Select(s.rows, true));
    forall id | id in act ensures id !in pen {
      var a :| a in Select(s.rows, false) && a.Id() == id;
      var i :| 0 <= i < |s.rows| && s.rows[i] == a;
      forall b | b in Select(s.rows, true) ensures b.Id() != id {
        var j :| 0 <= j < |s.rows| && s.rows[j] == b;
      }
    }
  }

  lemma MixedStatusOverlaps(s: Store)
    requires !StatusAgrees(s)
    ensures IdSet(Select(s.rows, false)) * IdSet(Select(s.rows, true)) != {}
  {
    var i, j :| 0 <= i < |s.rows| && 0 <= j < |s.rows| && s.rows[i].Id() == s.rows[j].Id()
                && s.rows[i].pid.None? != s.rows[j].pid.None?;
    var x, y := s.rows[i], s.rows[j];
    assert x in s.rows && y in s.rows;
    if x.pid.None? {
      assert x in Select(s.rows, true) && y in Select(s.rows, false);
    } else {
      assert x in Select(s.rows, false) && y in Select(s.rows, true);
    }
    assert x.Id() in IdSet(Select(s.rows, false)) * IdSet(Select(s.rows, true));
  }

  // -------------------------------------------------------- owner invariant

  /** Under the owner invariant, two rows of one identity have the same pid. */
  lemma SameOwner(s: Store, a: Row, b: Row)
    requires OwnersAgree(s)
    requires a in s.rows && b in s.rows
    ensures a.Id() == b.Id() ==> a.pid == b.pid
  {
    var i :| 0 <= i < |s.rows| && s.rows[i] == a;
    var j :| 0 <= j < |s.rows| && s.rows[j] == b;
  }

  /** Deleting rows never breaks the owner invariant. */
  lemma KeepingRowsKeepsOwners(s: Store, kept: seq<Row>, nextPos: int)
    requires OwnersAgree(s)
    requires forall x :: x in kept ==> x in s.rows
    ensures OwnersAgree(Store(kept, nextPos))
  {
    forall i, j | 0 <= i < |kept| && 0 <= j < |kept| && kept[i].Id() == kept[j].Id()
      ensures kept[i].pid == kept[j].pid
    {
      assert kept[i] in s.rows && kept[j] in s.rows;
      var a :| 0 <= a < |s.rows| && s.rows[a] == kept[i];
      var b :| 0 <= b < |s.rows| && s.rows[b] == kept[j];
    }
  }

  /** Appending a run of rows with one identity and one pid keeps the invariant, if no other row has that identity with another pid. */
  lemma AppendingRunKeepsOwners(s: Store, run: seq<Row>, id: Identity, pid: Option<int>, nextPos: int)
    requires OwnersAgree(s)
    requires forall x :: x in run ==> x.Id() == id && x.pid == pid
    requires forall x :: x in s.rows && x.Id() == id ==> x.pid == pid
    ensures OwnersAgree(Store(s.rows + run, nextPos))
  {
    var rows := s.rows + run;
    forall i, j | 0 <= i < |rows| && 0 <= j < |rows| && rows[i].Id() == rows[j].Id()
      ensures rows[i].pid == rows[j].pid
    {
      if i >= |s.rows| { assert rows[i] == run[i - |s.rows|]; assert run[i - |s.rows|] in run; }
      else { assert rows[i] in s.rows; }
      if j >= |s.rows| { assert rows[j] == run[j - |s.rows|]; assert run[j - |s.rows|] in run; }
      else { assert rows[j] in s.rows; }
    }
  }

  /** `enqueue` keeps the invariant unless the task is already claimed. */
  lemma EnqueueKeepsOwners(s: Store, t: Task)
    requires OwnersAgree(s)
    requires forall x :: x in s.rows && x.Id() == TaskId(t) ==> x.pid.None?
    ensures OwnersAgree(Enqueue(s, t))
  {
    InsertedRun(s, t, None);
    AppendingRunKeepsOwners(s, FanOut(t, EncodePriority(t.priority), None, s.nextPos), TaskId(t), None, Enqueue(s, t).nextPos);
  }

  /** `active_next` keeps the invariant for a task that is not in the queue. */
  lemma ActiveNextKeepsOwners(s: Store, t: Task)
    requires OwnersAgree(s)
    requires !InQueue(s, t.taskName, t.taskObj)
    ensures OwnersAgree(ActiveNext(s, t))
  {
    InsertedRun(s, t, Some(t.pid));
    forall x | x in s.rows ensures x.Id() != TaskId(t) {
      var i :| 0 <= i < |s.rows| && s.rows[i] == x;
    }
    AppendingRunKeepsOwners(s, FanOut(t, EncodePriority(t.priority), Some(t.pid), s.nextPos), TaskId(t), Some(t.pid), ActiveNext(s, t).nextPos);
  }

  lemma ReclaimKeepsOwners(s: Store, p: int)
    requires OwnersAgree(s)
    ensures OwnersAgree(Reclaim(s, p).0)
  {
    KeepingRowsKeepsOwners(s, Reclaim(s, p).0.rows, s.nextPos);
  }

  lemma PopNextKeepsOwners(s: Store)
    requires OwnersAgree(s)
    ensures OwnersAgree(PopNext(s).store)
  {
    KeepingRowsKeepsOwners(s, PopNext(s).store.rows, s.nextPos);
  }

  // --------------------------------------------------------------- recovery

  /** When no row is claimed, `get_pending` groups the whole table. */
  lemma PendingOnlyListing(r: Store)
    requires forall x :: x in r.rows ==> x.pid.None?
    ensures GetPending(r) == Groups(r.rows, true)
  {
    WhereAll(r.rows, (x: Row) => x.pid.None? == true);
  }

  /**
   * After the recovery sweep nothing is active: every task in the queue is
   * pending, and the queue still holds the same tasks.
   */
  lemma RecoveredStoreIsPending(s: Store)
    ensures GetActive(Recover(s)) == [] && ALen(Recover(s)) == 0
    ensures WaitSize(Recover(s)) == QSize(Recover(s)) == QSize(s)
    ensures |GetPending(Recover(s))| == QSize(s)
  {
    var r := Recover(s);
    assert forall x :: x in r.rows ==> x.pid.None?;
    WhereAll(r.rows, (x: Row) => x.pid.None? == true);
    assert Select(r.rows, true) == r.rows;
  }

  /**
   * The sweep writes priority code 0 on every claimed row, and a listing
   * takes a task's priority from its first row. So a task whose first row
   * was claimed when the store was opened is listed, pending, with priority
   * 'high', whatever its priority was.
   */
  lemma RecoveredTasksAreHigh(s: Store, id: Identity)
    requires id in IdSet(s.rows) && s.rows[FirstIndex(s.rows, id)].pid.Some?
    ensures exists g :: g in GetPending(Recover(s)) && TaskId(g) == id
    ensures forall g :: g in GetPending(Recover(s)) && TaskId(g) == id ==> g.priority == "high"
  {
    RecoveredTaskListed(s, id);
    RecoveredListingHigh(s, id);
  }

  /** Every task of the table is still listed after recovery, as a pending task. */
  lemma RecoveredTaskListed(s: Store, id: Identity)
    requires id in IdSet(s.rows)
    ensures exists g :: g in GetPending(Recover(s)) && TaskId(g) == id
  {
    var r := Recover(s);
    PendingOnlyListing(r);
    GroupsAreDistinctIdentities(r.rows, true);
    var k :| 0 <= k < |GetPending(r)| && TaskId(GetPending(r)[k]) == id;
    assert GetPending(r)[k] in GetPending(r);
  }

  lemma RecoveredListingHigh(s: Store, id: Identity)
    requires id in IdSet(s.rows) && s.rows[FirstIndex(s.rows, id)].pid.Some?
    ensures forall g :: g in GetPending(Recover(s)) && TaskId(g) == id ==> g.priority == "high"
  {
    RecoveredFirstRow(s, id);
    PendingListingHigh(Recover(s), id);
  }

  /** In a table of pending rows, a task whose first row holds code 0 is listed 'high'. */
  lemma PendingListingHigh(r: Store, id: Identity)
    requires forall i :: 0 <= i < |r.rows| ==> r.rows[i].pid.None?
    requires id in IdSet(r.rows) && r.rows[FirstIndex(r.rows, id)].priority == 0
    ensures forall g :: g in GetPending(r) && TaskId(g) == id ==> g.priority == "high"
  {
    assert forall x :: x in r.rows ==> x.pid.None?;
    PendingOnlyListing(r);
    GroupsHighFromFirstRow(r.rows, true, id);
  }

  /** The sweep keeps each identity's first row in place and writes 0 on it when it was claimed. */
  lemma RecoveredFirstRow(s: Store, id: Identity)
    requires id in IdSet(s.rows) && s.rows[FirstIndex(s.rows, id)].pid.Some?
    ensures id in IdSet(Recover(s).rows)
    ensures Recover(s).rows[FirstIndex(Recover(s).rows, id)].priority == 0
  {
    var r := Recover(s);
    var f := FirstIndex(s.rows, id);
    FirstIndexUnique(r.rows, id, f);
  }

  /** In either listing, a task whose first selected row holds code 0 is listed 'high'. */
  lemma GroupsHighFromFirstRow(rows: seq<Row>, pending: bool, id: Identity)
    requires id in IdSet(rows) && rows[FirstIndex(rows, id)].priority == 0
    ensures forall g :: g in Groups(rows, pending) && TaskId(g) == id ==> g.priority == "high"
  {
    var gs := Groups(rows, pending);
    forall g | g in gs && TaskId(g) == id ensures g.priority == "high" {
      var k :| 0 <= k < |gs| && gs[k] == g;
      GroupFromFirstRow(rows, pending, k);
    }
  }

  /**
   * While every identity has one owner, any claimed row of a task makes its
   * first row claimed, so the task is listed 'high' after recovery.
   */
  lemma RecoveredOwnedTasksAreHigh(s: Store, id: Identity)
    requires OwnersAgree(s)
    requires exists x :: x in s.rows && x.Id() == id && x.pid.Some?
    ensures forall g :: g in GetPending(Recover(s)) && TaskId(g) == id ==> g.priority == "high"
  {
    var owned :| owned in s.rows && owned.Id() == id && owned.pid.Some?;
    var f := FirstIndex(s.rows, id);
    SameOwner(s, s.rows[f], owned);
    RecoveredTasksAreHigh(s, id);
  }
}
