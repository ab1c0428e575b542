/**
 * The two representations of a queued task in the ZooQ SQLite store:
 * the persisted fan-out `Row` of the `zooq` table and the logical `Task`
 * record that callers exchange with the store.
 */
module TaskRecord {
  import opened Wrappers

  /** The pair (task_name, task_obj) that identifies one logical task. */
  datatype Identity = Identity(name: string, obj: string)

  /**
   * One row of the `zooq` table. A pending row has a null `pid`; an active
   * row carries the id of the worker that claimed it. `pos` is the
   * `INTEGER PRIMARY KEY` that orders the table.
   */
  datatype Row = Row(taskName: string, priority: int, dependsOn: Option<string>,
                     pid: Option<int>, taskObj: string, pos: int)
  {
    function Id(): Identity { Identity(taskName, taskObj) }
  }

  /**
   * The logical task record that `ZooQDB_SQLite` takes and returns. `priority` is the
   * caller's string, `dependson` holds dependency signatures; a group rebuilt
   * from the table may hold a null entry (see `Grouping.DepsOf`). `pid` is -1
   * for a pending task.
   */
  datatype Task = Task(taskName: string, priority: string, dependson: seq<Option<string>>,
                       pid: int, taskObj: string)

  function TaskId(t: Task): Identity { Identity(t.taskName, t.taskObj) }

  /** The dependency signature of a task: its name, a dash, and its object. */
  function Signature(id: Identity): (sig: string)
    ensures |sig| == |id.name| + 1 + |id.obj|
    ensures sig[..|id.name|] == id.name && sig[|id.name|] == '-' && sig[|id.name| + 1..] == id.obj
  {
    id.name + "-" + id.obj
  }

  /** Column value written for a task's priority: 'high' is 0, any other string is 1. */
  function EncodePriority(p: string): (code: int)
    ensures code == 0 || code == 1
    ensures code == 0 <==> p == "high"
  {
    if p == "high" then 0 else 1
  }

  /** Priority reported for a stored column value: 0 is 'high', any other value is 'low'. */
  function DecodePriority(code: int): (p: string)
    ensures p == "high" || p == "low"
    ensures p == "high" <==> code == 0
  {
    if code == 0 then "high" else "low"
  }

  /** Python truthiness of a `depends_on` value: neither NULL nor the empty string. */
  predicate Truthy(d: Option<string>) {
    d.Some? && d.value != ""
  }

  /** Rows `pos, pos+1, ...` for a task, one per dependency, in list order. */
  function DependencyRows(name: string, pri: int, deps: seq<Option<string>>, pid: Option<int>,
                          obj: string, pos: int): (rs: seq<Row>)
    ensures |rs| == |deps|
    ensures forall i :: 0 <= i < |rs| ==> rs[i] == Row(name, pri, deps[i], pid, obj, pos + i)
    decreases |deps|
  {
    if |deps| == 0 then []
    else [Row(name, pri, deps[0], pid, obj, pos)] + DependencyRows(name, pri, deps[1..], pid, obj, pos + 1)
  }

  /**
   * The fan-out rows the store inserts for a task: a single row with a null
   * `depends_on` when the task has no dependencies, else one row per
   * dependency, all sharing name, object, priority code and pid.
   */
  function FanOut(t: Task, pri: int, pid: Option<int>, pos: int): (rs: seq<Row>)
    ensures |rs| == if |t.dependson| == 0 then 1 else |t.dependson|
    ensures forall i :: 0 <= i < |rs| ==>
              && rs[i].Id() == TaskId(t) && rs[i].priority == pri
              && rs[i].pid == pid && rs[i].pos == pos + i
    ensures |t.dependson| == 0 ==> rs[0].dependsOn == None
    ensures forall i :: 0 <= i < |t.dependson| ==> rs[i].dependsOn == t.dependson[i]
  {
    if |t.dependson| == 0 then [Row(t.taskName, pri, None, pid, t.taskObj, pos)]
    else DependencyRows(t.taskName, pri, t.dependson, pid, t.taskObj, pos)
  }

  /** Encoding then decoding a priority is the identity on {'high', 'low'}. */
  lemma PriorityRoundTrip(p: string)
    requires p == "high" || p == "low"
    ensures DecodePriority(EncodePriority(p)) == p
  {
  }

  /** Every string other than 'high' is stored as 1 and read back as 'low'. */
  lemma UnknownPriorityReadsLow(p: string)
    requires p != "high"
    ensures EncodePriority(p) == 1 && DecodePriority(EncodePriority(p)) == "low"
  {
  }

  /**
   * The dash separator is not escaped, so two different identities can share
   * a signature: a dependency on one of them is blocked by the other.
   */
  lemma SignatureCollision()
    ensures Identity("a-b", "c") != Identity("a", "b-c")
    ensures Signature(Identity("a-b", "c")) == Signature(Identity("a", "b-c"))
  {
    assert Signature(Identity("a-b", "c")) == "a-b-c";
    assert Signature(Identity("a", "b-c")) == "a-b-c";
  }
}
