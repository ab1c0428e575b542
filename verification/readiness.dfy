/**
 * The dependency readiness test of `pop_next`: a pending task may be
 * claimed when none of its dependency signatures names a task still in
 * the store. Pending tasks are scanned from the most recently inserted.
 */
module Readiness {
  import opened Wrappers
  import opened TaskRecord

  /** `set(task['dependson'])` restricted to its strings (a null entry never matches a signature). */
  function DepSigs(t: Task): set<string> {
    set d | d in t.dependson && d.Some? :: d.value
  }

  /** `len(active_sigs & pending_sigs) == 0`. */
  predicate Ready(t: Task, live: set<string>) {
    DepSigs(t) !! live
  }

  /** A task is ready exactly when none of its listed dependencies is a live signature. */
  lemma ReadyMeansNoLiveDependency(t: Task, live: set<string>)
    ensures Ready(t, live) <==>
            forall i :: 0 <= i < |t.dependson| && t.dependson[i].Some? ==> t.dependson[i].value !in live
  {
    if !Ready(t, live) {
      var sig :| sig in DepSigs(t) && sig in live;
      var d :| d in t.dependson && d.Some? && d.value == sig;
      var i :| 0 <= i < |t.dependson| && t.dependson[i] == d;
    }
  }

  /**
   * The reverse loop of `pop_next`, with `i` the exclusive upper bound of the
   * indices still to scan (the scan starts at `|pqueue|`): the highest index
   * below `i` whose task is ready, or None when no task below `i` is.
   */
  function ScanBack(pqueue: seq<Task>, live: set<string>, i: nat): (r: Option<nat>)
    requires i <= |pqueue|
    ensures r.Some? ==> r.value < i && Ready(pqueue[r.value], live)
    ensures r.Some? ==> forall j :: r.value < j < i ==> !Ready(pqueue[j], live)
    ensures r.None? ==> forall j :: 0 <= j < i ==> !Ready(pqueue[j], live)
    decreases i
  {
    if i == 0 then None
    else if Ready(pqueue[i - 1], live) then Some(i - 1)
    else ScanBack(pqueue, live, i - 1)
  }

  /** Conversely, the scan stops at the last ready index below `i`. */
  lemma {:induction false} ScanBackFindsLastReady(pqueue: seq<Task>, live: set<string>, i: nat, k: nat)
    requires k < i <= |pqueue| && Ready(pqueue[k], live)
    requires forall j :: k < j < i ==> !Ready(pqueue[j], live)
    ensures ScanBack(pqueue, live, i) == Some(k)
    decreases i
  {
    if k < i - 1 {
      ScanBackFindsLastReady(pqueue, live, i - 1, k);
    }
  }
}
