/**
 * The ZooQ SQLite queue store (`ZooQDB_SQLite`) as pure transitions on an
 * abstract `zooq` table. Each public method of the store is one function
 * over `Store`; a method that writes returns the new store.
 */
module QueueStore {
  import opened Wrappers
  import opened TaskRecord
  import opened RowQueries
  import opened Grouping
  import opened Readiness

  /** The table's rows in `pos` order, and the `pos` the next insert receives. */
  datatype Store = Store(rows: seq<Row>, nextPos: int)

  /** Result of `pop_next`: the store afterwards and the claimed task, if any. */
  datatype Popped = Popped(store: Store, task: Option<Task>)

  /** `pos` is a strictly increasing key, and every key is below the counter. */
  predicate Wf(s: Store) {
    && SortedByPos(s.rows)
    && forall i :: 0 <= i < |s.rows| ==> s.rows[i].pos < s.nextPos
  }

  /** All rows of one logical task carry the same pid: never a mix of pending and active. */
  predicate OwnersAgree(s: Store) {
    forall i, j :: 0 <= i < |s.rows| && 0 <= j < |s.rows| && s.rows[i].Id() == s.rows[j].Id() ==>
      s.rows[i].pid == s.rows[j].pid
  }

  /** The rows of each identity are all pending or all claimed (implied by `OwnersAgree`). */
  predicate StatusAgrees(s: Store) {
    forall i, j :: 0 <= i < |s.rows| && 0 <= j < |s.rows| && s.rows[i].Id() == s.rows[j].Id() ==>
      s.rows[i].pid.None? == s.rows[j].pid.None?
  }

  /** A sorted selection of a well-formed table's rows is well formed under the same counter. */
  lemma WfKeep(s: Store, kept: seq<Row>)
    requires SortedByPos(s.rows) ==> SortedByPos(kept)
    requires forall x :: x in kept ==> x in s.rows
    ensures Wf(s) ==> Wf(Store(kept, s.nextPos))
  {
    if Wf(s) {
      forall i | 0 <= i < |kept| ensures kept[i].pos < s.nextPos {
        assert kept[i] in s.rows;
      }
    }
  }

  /** Key the first row of a new table receives. */
  const FirstPos := 1

  // ---------------------------------------------------------------- recovery

  /** The sweep on one row: a claimed row loses its pid and gets priority 0. */
  function Sweep(r: Row): Row {
    if r.pid.Some? then r.(priority := 0, pid := None) else r
  }

  /** `UPDATE zooq SET priority=0, pid=NULL WHERE pid IS NOT NULL`. */
  function SweepRows(rows: seq<Row>): (out: seq<Row>)
    ensures |out| == |rows|
    ensures forall i :: 0 <= i < |out| ==> out[i].pid.None?
    ensures forall i :: 0 <= i < |out| && rows[i].pid.Some? ==> out[i].priority == 0
    ensures forall i :: 0 <= i < |out| && rows[i].pid.None? ==> out[i] == rows[i]
    ensures forall i :: 0 <= i < |out| ==>
              out[i].Id() == rows[i].Id() && out[i].dependsOn == rows[i].dependsOn && out[i].pos == rows[i].pos
    decreases |rows|
  {
    if |rows| == 0 then [] else [Sweep(rows[0])] + SweepRows(rows[1..])
  }

  /**
   * The recovery sweep run when the store is opened: every claimed row
   * returns to the pending set with priority 0; nothing else changes.
   */
  function Recover(s: Store): (r: Store)
    ensures |r.rows| == |s.rows| && r.nextPos == s.nextPos
    ensures forall i :: 0 <= i < |r.rows| ==> r.rows[i].pid.None?
    ensures forall i :: 0 <= i < |r.rows| && s.rows[i].pid.Some? ==>
              r.rows[i].priority == 0 && DecodePriority(r.rows[i].priority) == "high"
    ensures forall i :: 0 <= i < |r.rows| && s.rows[i].pid.None? ==> r.rows[i] == s.rows[i]
    ensures forall i :: 0 <= i < |r.rows| ==>
              r.rows[i].Id() == s.rows[i].Id() && r.rows[i].dependsOn == s.rows[i].dependsOn
    ensures IdSet(r.rows) == IdSet(s.rows)
    ensures Wf(s) ==> Wf(r)
    ensures OwnersAgree(r)
  {
    var out := SweepRows(s.rows);
    SweepKeepsIdentities(s.rows);
    SweepKeepsOrder(s, out);
    Store(out, s.nextPos)
  }

  lemma SweepKeepsIdentities(rows: seq<Row>)
    ensures IdSet(SweepRows(rows)) == IdSet(rows)
  {
    var out := SweepRows(rows);
    forall x | x in rows ensures x.Id() in IdSet(out) {
      var i :| 0 <= i < |rows| && rows[i] == x;
      assert out[i] in out;
    }
    forall y | y in out ensures y.Id() in IdSet(rows) {
      var i :| 0 <= i < |out| && out[i] == y;
      assert rows[i] in rows;
    }
  }

  lemma SweepKeepsOrder(s: Store, out: seq<Row>)
    requires |out| == |s.rows|
    requires forall i :: 0 <= i < |out| ==> out[i].pos == s.rows[i].pos
    ensures Wf(s) ==> Wf(Store(out, s.nextPos))
  {
  }

  /**
   * Opening the store: `CREATE TABLE IF NOT EXISTS` (an absent table starts
   * empty), then the recovery sweep.
   */
  function Open(existing: Option<Store>): (s: Store)
    ensures existing.None? ==> s.rows == [] && s.nextPos == FirstPos && Wf(s)
    ensures existing.Some? ==> |s.rows| == |existing.value.rows| && s == Recover(existing.value)
    ensures forall i :: 0 <= i < |s.rows| ==> s.rows[i].pid.None?
  {
    match existing
    case None => Recover(Store([], FirstPos))
    case Some(table) => Recover(table)
  }

  // ------------------------------------------------------------------ counts

  lemma CardMono<T>(a: set<T>, b: set<T>)
    requires a <= b
    ensures |a| <= |b|
  {
    assert b == a + (b - a);
  }

  /** `qsize`: distinct (task_name, task_obj) pairs in the table. */
  function QSize(s: Store): (n: nat)
    ensures n <= |s.rows|
    ensures n == 0 <==> |s.rows| == 0
  {
    IdsCount(s.rows);
    IdSetEmpty(s.rows);
    |IdSet(s.rows)|
  }

  /** `waitsize`: distinct pairs among the pending rows. */
  function WaitSize(s: Store): (n: nat)
    ensures n <= QSize(s)
    ensures n == 0 <==> forall x :: x in s.rows ==> x.pid.Some?
  {
    var sel := Select(s.rows, true);
    CardMono(IdSet(sel), IdSet(s.rows));
    IdSetEmpty(sel);
    |IdSet(sel)|
  }

  /** `get_plen`: the same query as `waitsize`. */
  function PLen(s: Store): (n: nat)
    ensures n == WaitSize(s)
  {
    |IdSet(Select(s.rows, true))|
  }

  /** `get_alen`: distinct pairs among the claimed rows. */
  function ALen(s: Store): (n: nat)
    ensures n <= QSize(s)
    ensures n == 0 <==> forall x :: x in s.rows ==> x.pid.None?
  {
    var sel := Select(s.rows, false);
    CardMono(IdSet(sel), IdSet(s.rows));
    IdSetEmpty(sel);
    |IdSet(sel)|
  }

  /** `in_queue`: some row, pending or claimed, has this name and object. */
  function InQueue(s: Store, name: string, obj: string): (b: bool)
    ensures b <==> exists i :: 0 <= i < |s.rows| && s.rows[i].taskName == name && s.rows[i].taskObj == obj
  {
    var rs := RowsOf(s.rows, Identity(name, obj));
    IdSetEmpty(rs);
    |IdSet(rs)| > 0
  }

  // ----------------------------------------------------------------- inserts

  /** Append a task's fan-out rows with the given pid, at fresh keys. */
  function Insert(s: Store, t: Task, pid: Option<int>): (r: Store)
    ensures |r.rows| == |s.rows| + (if |t.dependson| == 0 then 1 else |t.dependson|)
    ensures r.rows[..|s.rows|] == s.rows
    ensures r.rows[|s.rows|..] == FanOut(t, EncodePriority(t.priority), pid, s.nextPos)
    ensures r.nextPos == s.nextPos + |r.rows| - |s.rows|
    ensures Wf(s) ==> Wf(r)
  {
    var added := FanOut(t, EncodePriority(t.priority), pid, s.nextPos);
    var rows := s.rows + added;
    assert rows[..|s.rows|] == s.rows && rows[|s.rows|..] == added;
    Store(rows, s.nextPos + |added|)
  }

  /**
   * `enqueue`: a task without dependencies becomes one pending row with a
   * null `depends_on`; a task with k dependencies becomes k pending rows,
   * one per dependency in list order. Existing rows are untouched.
   */
  function Enqueue(s: Store, t: Task): (r: Store)
    ensures |r.rows| == |s.rows| + (if |t.dependson| == 0 then 1 else |t.dependson|)
    ensures r.rows[..|s.rows|] == s.rows
    ensures forall i :: |s.rows| <= i < |r.rows| ==>
              && r.rows[i].Id() == TaskId(t) && r.rows[i].pid == None
              && r.rows[i].priority == EncodePriority(t.priority)
              && r.rows[i].pos == s.nextPos + (i - |s.rows|)
    ensures |t.dependson| == 0 ==> r.rows[|s.rows|].dependsOn == None
    ensures forall i :: 0 <= i < |t.dependson| ==> r.rows[|s.rows| + i].dependsOn == t.dependson[i]
    ensures r.nextPos == s.nextPos + |r.rows| - |s.rows|
    ensures Wf(s) ==> Wf(r)
  {
    var r := Insert(s, t, None);
    assert forall i :: |s.rows| <= i < |r.rows| ==> r.rows[i] == r.rows[|s.rows|..][i - |s.rows|];
    r
  }

  /**
   * `active_next`: the same fan-out as `enqueue`, with every row owned by
   * the task's pid.
   */
  function ActiveNext(s: Store, t: Task): (r: Store)
    ensures |r.rows| == |s.rows| + (if |t.dependson| == 0 then 1 else |t.dependson|)
    ensures r.rows[..|s.rows|] == s.rows
    ensures forall i :: |s.rows| <= i < |r.rows| ==>
              && r.rows[i].Id() == TaskId(t) && r.rows[i].pid == Some(t.pid)
              && r.rows[i].priority == EncodePriority(t.priority)
              && r.rows[i].pos == s.nextPos + (i - |s.rows|)
    ensures |t.dependson| == 0 ==> r.rows[|s.rows|].dependsOn == None
    ensures forall i :: 0 <= i < |t.dependson| ==> r.rows[|s.rows| + i].dependsOn == t.dependson[i]
    ensures r.nextPos == s.nextPos + |r.rows| - |s.rows|
    ensures Wf(s) ==> Wf(r)
  {
    var r := Insert(s, t, Some(t.pid));
    assert forall i :: |s.rows| <= i < |r.rows| ==> r.rows[i] == r.rows[|s.rows|..][i - |s.rows|];
    r
  }

  // ----------------------------------------------------------------- deletes

  /**
   * `reclaim(p)`: delete exactly the rows owned by `p`, keep every other row
   * in order, and report whether any row was deleted.
   */
  function Reclaim(s: Store, p: int): (r: (Store, bool))
    ensures forall x :: x in r.0.rows <==> x in s.rows && x.pid != Some(p)
    ensures r.1 <==> exists x :: x in s.rows && x.pid == Some(p)
    ensures r.1 <==> |r.0.rows| < |s.rows|
    ensures r.0.nextPos == s.nextPos
    ensures Wf(s) ==> Wf(r.0)
  {
    var kept := DeleteOwned(s.rows, p);
    (Store(kept, s.nextPos), |s.rows| - |kept| > 0)
  }

  // ---------------------------------------------------------------- listings

  /** `get_active`: the claimed tasks, one per identity. */
  function GetActive(s: Store): (gs: seq<Task>)
    ensures |gs| == ALen(s)
  {
    IdsCount(Select(s.rows, false));
    Groups(Select(s.rows, false), false)
  }

  /** `get_pending`: the pending tasks, one per identity, each with pid -1. */
  function GetPending(s: Store): (gs: seq<Task>)
    ensures |gs| == PLen(s)
    ensures forall k :: 0 <= k < |gs| ==> gs[k].pid == -1
  {
    IdsCount(Select(s.rows, true));
    Groups(Select(s.rows, true), true)
  }

  /** `get_all`: active tasks, then pending tasks. */
  function GetAll(s: Store): (gs: seq<Task>)
    ensures |gs| == ALen(s) + PLen(s)
  {
    GetActive(s) + GetPending(s)
  }

  // ---------------------------------------------------------------- pop_next

  /** The signatures of every task in the store, as `pop_next` computes them from `get_all`. */
  function LiveSignatures(s: Store): set<string> {
    set g | g in GetAll(s) :: Signature(TaskId(g))
  }

  /** The signatures of every identity that has a row in the table. */
  function StoreSignatures(s: Store): set<string> {
    set id | id in IdSet(s.rows) :: Signature(id)
  }

  /** The identities of the groups `get_tasks` builds are those of the selected rows. */
  lemma GroupIdentities(rows: seq<Row>, pending: bool)
    ensures (set g | g in Groups(rows, pending) :: TaskId(g)) == IdSet(rows)
  {
    var gs := Groups(rows, pending);
    forall g | g in gs ensures TaskId(g) in IdSet(rows) {
      var k :| 0 <= k < |gs| && gs[k] == g;
      assert Ids(rows)[k] in Ids(rows);
    }
    forall id | id in IdSet(rows) ensures exists g :: g in gs && TaskId(g) == id {
      var k :| 0 <= k < |Ids(rows)| && Ids(rows)[k] == id;
      assert gs[k] in gs;
    }
  }

  /** Every identity in the table is pending or active. */
  lemma IdSetSplit(rows: seq<Row>)
    ensures IdSet(rows) == IdSet(Select(rows, false)) + IdSet(Select(rows, true))
  {
    forall x | x in rows ensures x.Id() in IdSet(Select(rows, x.pid.None?)) {
      assert x in Select(rows, x.pid.None?);
    }
  }

  /** The live signatures are exactly the signatures of the identities in the table. */
  lemma LiveSignaturesAreStored(s: Store)
    ensures LiveSignatures(s) == StoreSignatures(s)
  {
    GroupIdentities(Select(s.rows, false), false);
    GroupIdentities(Select(s.rows, true), true);
    IdSetSplit(s.rows);
    var all := GetAll(s);
    assert (set g | g in all :: TaskId(g)) == IdSet(s.rows) by {
      forall g ensures g in all <==> g in GetActive(s) || g in GetPending(s) { }
    }
    forall sig | sig in StoreSignatures(s) ensures sig in LiveSignatures(s) {
      var id :| id in IdSet(s.rows) && sig == Signature(id);
      var g :| g in all && TaskId(g) == id;
    }
  }

  /**
   * The index `pop_next` claims: the last pending task that is ready
   * against the live signatures, or None when no pending task is ready.
   */
  function PopIndex(s: Store): (r: Option<nat>)
    ensures r.Some? ==> r.value < |GetPending(s)| && Ready(GetPending(s)[r.value], StoreSignatures(s))
    ensures r.Some? ==> forall j :: r.value < j < |GetPending(s)| ==> !Ready(GetPending(s)[j], StoreSignatures(s))
    ensures r.None? ==> forall k :: 0 <= k < |GetPending(s)| ==> !Ready(GetPending(s)[k], StoreSignatures(s))
  {
    LiveSignaturesAreStored(s);
    var pqueue := GetPending(s);
    ScanBack(pqueue, LiveSignatures(s), |pqueue|)
  }

  /**
   * `pop_next`: scan the pending tasks from the most recently inserted and
   * claim the first one none of whose dependencies is a live signature,
   * deleting every row of its identity. When no pending task is ready, the
   * store is unchanged and nothing is returned.
   */
  function PopNext(s: Store): (r: Popped)
    ensures r.task.None? ==> r.store == s
    ensures r.task.None? ==> forall k :: 0 <= k < |GetPending(s)| ==> !Ready(GetPending(s)[k], StoreSignatures(s))
    ensures r.task.Some? ==>
              exists k :: 0 <= k < |GetPending(s)| && GetPending(s)[k] == r.task.value
                && Ready(GetPending(s)[k], StoreSignatures(s))
                && forall j :: k < j < |GetPending(s)| ==> !Ready(GetPending(s)[j], StoreSignatures(s))
    ensures r.task.Some? ==> forall x :: x in r.store.rows <==> x in s.rows && x.Id() != TaskId(r.task.value)
    ensures r.task.Some? ==> r.store.rows == DeleteIdentity(s.rows, TaskId(r.task.value))
    ensures r.task.Some? ==> IdSet(r.store.rows) == IdSet(s.rows) - {TaskId(r.task.value)}
    ensures r.store.nextPos == s.nextPos
    ensures Wf(s) ==> Wf(r.store)
  {
    var pqueue := GetPending(s);
    match PopIndex(s)
    case None => Popped(s, None)
    case Some(i) =>
      assert pqueue[i] == GetPending(s)[i];
      Popped(Claim(s, TaskId(pqueue[i])), Some(pqueue[i]))
  }

  /** The deletion `pop_next` performs: every row of the claimed identity goes. */
  function Claim(s: Store, id: Identity): (r: Store)
    ensures forall x :: x in r.rows <==> x in s.rows && x.Id() != id
    ensures IdSet(r.rows) == IdSet(s.rows) - {id}
    ensures r.nextPos == s.nextPos
    ensures Wf(s) ==> Wf(r)
  {
    var kept := DeleteIdentity(s.rows, id);
    WfKeep(s, kept);
    Store(kept, s.nextPos)
  }
}
