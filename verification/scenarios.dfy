/**
 * Concrete runs of the queue store: a dependency chain, two independent
 * tasks claimed in reverse insertion order, the listing a duplicate
 * enqueue produces, and a re-enqueued task that recovery lists as 'low'.
 */
module QueueScenarios {
  import opened Wrappers
  import opened TaskRecord
  import opened RowQueries
  import opened Grouping
  import opened Readiness
  import opened QueueStore
  import opened QueueProperties

  const TaskA := Task("A", "high", [], -1, "x")
  const TaskB := Task("B", "low", [Some("A-x")], -1, "x")
  const RowA := Row("A", 0, None, None, "x", 1)
  const RowB := Row("B", 1, Some("A-x"), None, "x", 2)
  const ClaimedA := Row("A", 0, None, Some(1), "x", 3)
  const TaskC := Task("C", "high", [], -1, "x")
  const TaskD := Task("D", "high", [], -1, "x")

  // ------------------------------------------------------------ generic aids

  /** A task without dependencies is ready whatever is live. */
  lemma NoDependenciesReady(t: Task, live: set<string>)
    requires t.dependson == []
    ensures Ready(t, live)
  {
    assert DepSigs(t) == {};
  }

  /** B waits exactly while A's signature is live. */
  lemma ReadinessOfB(live: set<string>)
    ensures Ready(TaskB, live) <==> "A-x" !in live
  {
    assert DepSigs(TaskB) == {"A-x"} by {
      assert Some("A-x") in TaskB.dependson;
    }
  }

  lemma SignatureA() ensures Signature(RowA.Id()) == "A-x" { }
  lemma SignatureB() ensures Signature(RowB.Id()) == "B-x" { }

  // --------------------------------------------------------- dependency chain

  /** Enqueuing a task without dependencies into an empty table writes one row at the next key. */
  lemma EnqueueFirst(s: Store, t: Task)
    requires s.rows == []
    requires ValidPriority(t) && t.dependson == [] && t.pid == -1
    ensures Enqueue(s, t) == Store([Row(t.taskName, EncodePriority(t.priority), None, None, t.taskObj, s.nextPos)], s.nextPos + 1)
    ensures GetPending(Enqueue(s, t)) == [t]
  {
    EnqueueIntoEmpty(s, t);
    assert Select(s.rows, true) == [];
    EnqueueThenGetPending(s, t);
    assert GetPending(s) == [];
  }

  lemma EnqueueIntoEmpty(s: Store, t: Task)
    requires s.rows == [] && t.dependson == []
    ensures Enqueue(s, t) == Store([Row(t.taskName, EncodePriority(t.priority), None, None, t.taskObj, s.nextPos)], s.nextPos + 1)
  {
    var r := Enqueue(s, t);
    assert r.rows[0] == Row(t.taskName, EncodePriority(t.priority), None, None, t.taskObj, s.nextPos);
    assert r.rows == [r.rows[0]];
  }

  lemma EnqueueA(s: Store)
    requires s.rows == [] && s.nextPos == FirstPos
    ensures Enqueue(s, TaskA) == Store([RowA], 2)
    ensures GetPending(Enqueue(s, TaskA)) == [TaskA]
  {
    EnqueueFirst(s, TaskA);
  }

  lemma EnqueueB(s: Store)
    requires s == Store([RowA], 2)
    ensures Enqueue(s, TaskB) == Store([RowA, RowB], 3)
  {
    var r := Enqueue(s, TaskB);
    assert r.rows[..1] == [RowA];
    assert r.rows[1] == RowB;
    assert r.rows == [RowA, RowB];
  }

  /** Enqueuing a second, unrelated task into a one-row table lists it after the first. */
  lemma EnqueueSecond(s: Store, first: Task, t: Task)
    requires |s.rows| == 1 && s.rows[0].Id() != TaskId(t) && GetPending(s) == [first]
    requires KeepsLeadingDependency(t) && ValidPriority(t) && t.pid == -1
    ensures GetPending(Enqueue(s, t)) == [first, t]
  {
    NotInOneRowTable(s, TaskId(t));
    EnqueueThenGetPending(s, t);
    assert t.(pid := -1) == t;
  }

  lemma NotInOneRowTable(s: Store, id: Identity)
    requires |s.rows| == 1 && s.rows[0].Id() != id
    ensures !InQueue(s, id.name, id.obj)
  {
  }

  lemma ListB(s: Store)
    requires s == Store([RowA], 2) && GetPending(s) == [TaskA]
    ensures GetPending(Enqueue(s, TaskB)) == [TaskA, TaskB]
  {
    EnqueueSecond(s, TaskA, TaskB);
  }

  /** A table holding a row of A makes A's signature live. */
  lemma LiveA(s: Store, i: nat)
    requires i < |s.rows| && s.rows[i].Id() == RowA.Id()
    ensures "A-x" in StoreSignatures(s)
  {
    SignatureA();
    assert s.rows[i] in s.rows;
  }

  /** With A and B pending, `pop_next` claims A: B waits on A's live signature. */
  lemma PopATask(s: Store)
    requires s == Store([RowA, RowB], 3) && GetPending(s) == [TaskA, TaskB]
    ensures PopNext(s).task == Some(TaskA)
  {
    var live := StoreSignatures(s);
    LiveA(s, 0);
    NoDependenciesReady(TaskA, live);
    ReadinessOfB(live);
    PopFirstOfTwo(s, TaskA, TaskB);
  }

  /** Of two pending tasks, the older is claimed when only it is ready. */
  lemma PopFirstOfTwo(s: Store, a: Task, b: Task)
    requires GetPending(s) == [a, b]
    requires Ready(a, StoreSignatures(s)) && !Ready(b, StoreSignatures(s))
    ensures PopNext(s).task == Some(a)
  {
    PopsLastReady(s, 0);
  }

  /** Claiming A deletes A's row and keeps B's. */
  lemma PopAStore(s: Store)
    requires s == Store([RowA, RowB], 3) && PopNext(s).task == Some(TaskA)
    ensures PopNext(s).store == Store([RowB], 3)
  {
    WhereTwo(RowA, RowB, (x: Row) => x.Id() != TaskId(TaskA));
  }

  /** The table holding only B lists B as its one pending task. */
  lemma PendingB(s: Store)
    requires s.rows == [RowB]
    ensures GetPending(s) == [TaskB]
  {
    PendingOnlyListing(s);
    GroupsAppendOne([], RowB, true);
    MakeTaskSingle(RowB, true);
    assert [] + [RowB] == s.rows;
    assert Groups([], true) == [];
  }

  /** `active_next(A)` under worker 1 appends A's claimed row. */
  lemma ActivateA(p: Store)
    requires p == Store([RowB], 3)
    ensures ActiveNext(p, TaskA.(pid := 1)) == Store([RowB, ClaimedA], 4)
    ensures GetPending(ActiveNext(p, TaskA.(pid := 1))) == [TaskB]
  {
    assert !InQueue(p, "A", "x");
    ActiveNextThenGetActive(p, TaskA.(pid := 1));
    PendingB(p);
  }

  /** While A is active, B stays blocked and `pop_next` changes nothing. */
  lemma BlockedWhileActive(c: Store)
    requires c == Store([RowB, ClaimedA], 4) && GetPending(c) == [TaskB]
    ensures PopNext(c) == Popped(c, None)
  {
    LiveA(c, 1);
    ReadinessOfB(StoreSignatures(c));
    PopNextWhenAllBlocked(c);
  }

  /** `reclaim(1)` deletes A's claimed row and reports success. */
  lemma ReclaimA(c: Store)
    requires c == Store([RowB, ClaimedA], 4)
    ensures Reclaim(c, 1) == (Store([RowB], 4), true)
  {
    WhereTwo(RowB, ClaimedA, NotOwnedBy(1));
    assert NotOwnedBy(1)(RowB) && !NotOwnedBy(1)(ClaimedA);
    assert DeleteOwned(c.rows, 1) == [RowB];
    assert ClaimedA in c.rows;
  }

  /** Once A is gone, `pop_next` claims B and the queue is empty. */
  lemma PopB(r: Store)
    requires r == Store([RowB], 4)
    ensures PopNext(r).task == Some(TaskB)
    ensures QSize(PopNext(r).store) == 0
  {
    PendingB(r);
    assert IdSet(r.rows) == {RowB.Id()} by { assert r.rows[0] in r.rows; }
    SignatureB();
    ReadinessOfB(StoreSignatures(r));
    assert GetPending(r)[0] == TaskB;
    assert QSize(r) == 1;
    PopNextShrinksQueue(r);
  }

  /**
   * The dependency chain, from a freshly opened empty table: enqueue A (no
   * dependencies), then B (depends on A). `pop_next` claims A; after
   * `active_next(A)` with worker 1 it claims nothing, since A's row still
   * exists; `reclaim(1)` succeeds; then `pop_next` claims B.
   */
  lemma DependencyChainScenario(s0: Store)
    requires s0.rows == [] && s0.nextPos == FirstPos
    ensures var s := Enqueue(Enqueue(s0, TaskA), TaskB);
            var p := PopNext(s);
            && p.task == Some(TaskA)
            && var c := ActiveNext(p.store, TaskA.(pid := 1));
               && PopNext(c).task.None?
               && Reclaim(c, 1).1
               && PopNext(Reclaim(c, 1).0).task == Some(TaskB)
  {
    ClaimFirst(s0);
    var p := PopNext(Enqueue(Enqueue(s0, TaskA), TaskB));
    ClaimSecond(p.store);
  }

  /** The first half of the chain: two enqueues, then A is claimed and B's row is left. */
  lemma ClaimFirst(s0: Store)
    requires s0.rows == [] && s0.nextPos == FirstPos
    ensures PopNext(Enqueue(Enqueue(s0, TaskA), TaskB)) == Popped(Store([RowB], 3), Some(TaskA))
  {
    EnqueueA(s0);
    var s1 := Enqueue(s0, TaskA);
    EnqueueB(s1);
    ListB(s1);
    var s := Enqueue(s1, TaskB);
    PopATask(s);
    PopAStore(s);
  }

  /** The second half: A is activated, blocks B, is reclaimed, and B is claimed. */
  lemma ClaimSecond(p: Store)
    requires p == Store([RowB], 3)
    ensures var c := ActiveNext(p, TaskA.(pid := 1));
            && PopNext(c).task.None?
            && Reclaim(c, 1).1
            && PopNext(Reclaim(c, 1).0).task == Some(TaskB)
  {
    ActivateA(p);
    var c := ActiveNext(p, TaskA.(pid := 1));
    BlockedWhileActive(c);
    ReclaimA(c);
    PopB(Reclaim(c, 1).0);
  }

  // ------------------------------------------------------ reverse insertion

  /**
   * Two independent tasks enqueued C then D: both are ready, and `pop_next`
   * claims the one inserted last.
   */
  lemma ReverseOrderScenario(s0: Store)
    requires s0.rows == [] && s0.nextPos == FirstPos
    ensures PopNext(Enqueue(Enqueue(s0, TaskC), TaskD)).task == Some(TaskD)
  {
    EnqueueCD(s0);
    var s := Enqueue(Enqueue(s0, TaskC), TaskD);
    NoDependenciesReady(TaskD, StoreSignatures(s));
    PopsLastReady(s, 1);
  }

  lemma EnqueueCD(s0: Store)
    requires s0.rows == [] && s0.nextPos == FirstPos
    ensures GetPending(Enqueue(Enqueue(s0, TaskC), TaskD)) == [TaskC, TaskD]
  {
    EnqueueFirst(s0, TaskC);
    EnqueueSecond(Enqueue(s0, TaskC), TaskC, TaskD);
  }

  // ------------------------------------------------------- duplicate enqueue

  const SecondA := Row("A", 0, None, None, "x", 2)

  /**
   * `enqueue` does not consult `in_queue`: enqueuing A twice leaves two
   * rows of A, which `get_pending` lists as one task whose `dependson` holds
   * the second row's null dependency.
   */
  lemma DuplicateEnqueue(s0: Store)
    requires s0.rows == [] && s0.nextPos == FirstPos
    ensures GetPending(Enqueue(Enqueue(s0, TaskA), TaskA)) == [TaskA.(dependson := [None])]
  {
    EnqueueA(s0);
    var s1 := Enqueue(s0, TaskA);
    DuplicateRows(s1);
    DuplicateListing(Enqueue(s1, TaskA));
  }

  lemma DuplicateRows(s1: Store)
    requires s1 == Store([RowA], 2)
    ensures Enqueue(s1, TaskA).rows == [RowA, SecondA]
  {
    var s := Enqueue(s1, TaskA);
    assert s.rows[1] == SecondA;
  }

  lemma DuplicateListing(s: Store)
    requires s.rows == [RowA, SecondA]
    ensures GetPending(s) == [TaskA.(dependson := [None])]
  {
    PairPending(s, RowA, SecondA);
    PairGroups(s.rows, RowA, SecondA);
    DuplicateTask(s.rows);
  }

  /** A table of two pending rows is listed by grouping all of it. */
  lemma PairPending(s: Store, a: Row, b: Row)
    requires s.rows == [a, b] && a.pid.None? && b.pid.None?
    ensures GetPending(s) == Groups(s.rows, true)
  {
    PairMembers(a, b);
    PendingOnlyListing(s);
  }

  /** Two rows of one identity are grouped into one task. */
  lemma PairGroups(rows: seq<Row>, a: Row, b: Row)
    requires rows == [a, b] && b.Id() == a.Id()
    ensures Groups(rows, true) == [MakeTask(rows, true)]
  {
    PairMembers(a, b);
    assert [] + rows == rows;
    assert Groups([], true) == [];
    GroupsAppendRun([], rows, true);
  }

  lemma DuplicateTask(rows: seq<Row>)
    requires rows == [RowA, SecondA]
    ensures MakeTask(rows, true) == TaskA.(dependson := [None])
  {
    DepsOfPair(RowA, SecondA);
    assert NewGroup(RowA, true) == TaskA;
  }

  lemma PairMembers(a: Row, b: Row)
    ensures forall x :: x in [a, b] <==> x == a || x == b
  {
  }

  /** The dependencies rebuilt from two rows of one identity. */
  lemma DepsOfPair(a: Row, b: Row)
    ensures DepsOf([a, b]) == (if Truthy(a.dependsOn) then [a.dependsOn] else []) + [b.dependsOn]
  {
    assert [a, b][1..] == [b];
    assert DepColumn([b]) == [b.dependsOn];
  }

  // ------------------------------------------- re-enqueue during a claim

  const TaskL := Task("L", "low", [], -1, "x")
  const PendingL := Row("L", 1, None, None, "x", 2)
  const ClaimedL := Row("L", 1, None, Some(7), "x", 3)
  const SweptL := Row("L", 0, None, None, "x", 3)

  /**
   * Recovery does not list every claimed task as 'high'. A 'low' task L is
   * enqueued and claimed by `pop_next`; while worker 7 holds it, L is
   * enqueued again (`enqueue` does not consult `in_queue`) and then
   * recorded with `active_next`. L's first row is now the pending 'low' one,
   * the sweep only rewrites the claimed row, and the recovered listing takes
   * L's priority from its first row: L comes back 'low'.
   */
  lemma RecoveryKeepsLowFirstRow(s0: Store)
    requires s0.rows == [] && s0.nextPos == FirstPos
    ensures var p := PopNext(Enqueue(s0, TaskL));
            var c := ActiveNext(Enqueue(p.store, TaskL), TaskL.(pid := 7));
            && p.task == Some(TaskL)
            && c.rows == [PendingL, ClaimedL]
            && GetPending(Recover(c)) == [TaskL.(dependson := [None])]
  {
    ReenqueueL(s0);
    var p := PopNext(Enqueue(s0, TaskL));
    var c := ActiveNext(Enqueue(p.store, TaskL), TaskL.(pid := 7));
    RecoverL(c);
    ListSweptL(Recover(c));
  }

  /**
   * The same run leaves L both pending and claimed, and the counts no longer
   * add up: `qsize` is 1 while `waitsize` and `get_alen` are 1 each.
   */
  lemma ReenqueueSplitsCounts(s0: Store)
    requires s0.rows == [] && s0.nextPos == FirstPos
    ensures var p := PopNext(Enqueue(s0, TaskL));
            var c := ActiveNext(Enqueue(p.store, TaskL), TaskL.(pid := 7));
            && QSize(c) == 1 && WaitSize(c) == 1 && ALen(c) == 1
            && QSize(c) != WaitSize(c) + ALen(c)
  {
    ReenqueueL(s0);
    var p := PopNext(Enqueue(s0, TaskL));
    CountsOfL(ActiveNext(Enqueue(p.store, TaskL), TaskL.(pid := 7)));
  }

  /** Enqueue L, pop it, enqueue it again and record it under worker 7. */
  lemma ReenqueueL(s0: Store)
    requires s0.rows == [] && s0.nextPos == FirstPos
    ensures var p := PopNext(Enqueue(s0, TaskL));
            && p.task == Some(TaskL)
            && ActiveNext(Enqueue(p.store, TaskL), TaskL.(pid := 7)).rows == [PendingL, ClaimedL]
  {
    EnqueueFirst(s0, TaskL);
    var s1 := Enqueue(s0, TaskL);
    PopOnlyTask(s1, TaskL);
    var p := PopNext(s1);
    EnqueueFirst(p.store, TaskL);
    ActivateL(Enqueue(p.store, TaskL));
  }

  lemma CountsOfL(c: Store)
    requires c.rows == [PendingL, ClaimedL]
    ensures QSize(c) == 1 && WaitSize(c) == 1 && ALen(c) == 1
  {
    PairMembers(PendingL, ClaimedL);
    assert IdSet(c.rows) == {PendingL.Id()};
    assert PendingL in Select(c.rows, true);
    assert ClaimedL in Select(c.rows, false);
    assert IdSet(Select(c.rows, true)) == {PendingL.Id()};
    assert IdSet(Select(c.rows, false)) == {PendingL.Id()};
  }

  /** `pop_next` on a table holding one ready task claims it and empties the table. */
  lemma PopOnlyTask(s: Store, t: Task)
    requires |s.rows| == 1 && GetPending(s) == [t] && t.dependson == []
    ensures PopNext(s) == Popped(Store([], s.nextPos), Some(t))
  {
    NoDependenciesReady(t, StoreSignatures(s));
    PopsLastReady(s, 0);
    PoppedIsStored(s);
    var r := PopNext(s);
    assert s.rows == [s.rows[0]];
    assert forall x :: x !in r.store.rows;
    IdSetEmpty(r.store.rows);
  }

  lemma ActivateL(p: Store)
    requires p == Store([PendingL], 3)
    ensures ActiveNext(p, TaskL.(pid := 7)).rows == [PendingL, ClaimedL]
  {
    var c := ActiveNext(p, TaskL.(pid := 7));
    assert c.rows[..1] == [PendingL];
    assert c.rows[1] == ClaimedL;
  }

  lemma RecoverL(c: Store)
    requires c.rows == [PendingL, ClaimedL]
    ensures Recover(c).rows == [PendingL, SweptL]
  {
    var r := Recover(c);
    assert r.rows[0] == PendingL;
    assert r.rows[1] == Sweep(ClaimedL);
  }

  lemma ListSweptL(r: Store)
    requires r.rows == [PendingL, SweptL]
    ensures GetPending(r) == [TaskL.(dependson := [None])]
  {
    PairPending(r, PendingL, SweptL);
    PairGroups(r.rows, PendingL, SweptL);
    SweptTask(r.rows);
  }

  lemma SweptTask(rows: seq<Row>)
    requires rows == [PendingL, SweptL]
    ensures MakeTask(rows, true) == TaskL.(dependson := [None])
  {
    DepsOfPair(PendingL, SweptL);
    assert NewGroup(PendingL, true) == TaskL;
  }
}
