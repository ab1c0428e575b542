# ZooQ SQLite queue store in Dafny

This project models `ZooQDB_SQLite`, the persistent queue store of ZooQ, and
proves properties of the model. The store keeps tasks in one SQLite table,
`zooq`. A logical task is identified by its `(task_name, task_obj)` pair. It
is stored "fanned out": one row per dependency signature, or one row with a
NULL `depends_on` when it has no dependencies. A pending row has a NULL `pid`.
A claimed ("active") row carries the id of the worker that owns it.

The table is modelled as a `Store`: the rows in `pos` order (the
`INTEGER PRIMARY KEY`), plus the key the next insert receives. Every public
method of the store is a pure function from one `Store` to the next, or to the
value it reports:

- `Open` and `Recover` model the constructor's recovery sweep.
- `QSize`, `WaitSize`, `ALen` and `PLen` are the distinct-pair counts, and
  `InQueue` is `in_queue`.
- `Enqueue` and `ActiveNext` are the fan-out inserts.
- `Reclaim` deletes the rows a worker owns.
- `GetActive`, `GetPending` and `GetAll` model the listings. They rest on two
  versions of `get_tasks`:
  - `Grouping.Groups`, a reference definition: one task per identity, in
    first-appearance order;
  - `Grouping.GetTasks`, the source's nested find-or-create loop, proved equal
    to `Groups`.
- `PopNext` models `pop_next`:
  - it computes the live signatures (`task_name-task_obj`) of every task in
    the store;
  - it scans the pending tasks from the last to the first;
  - it claims the first task none of whose dependencies is live;
  - it deletes every row of that task's identity.

The modules follow the structure of the store:

| module | file | contents |
|---|---|---|
| `TaskRecord` | `task_record.dfy` | rows, task records, priority codes, signatures, fan-out |
| `RowQueries` | `row_queries.dfy` | `WHERE` filters, `DELETE` predicates, `SELECT DISTINCT` identities |
| `Grouping` | `grouping.dfy` | `get_tasks` |
| `Readiness` | `readiness.dfy` | the readiness test and reverse scan of `pop_next` |
| `QueueStore` | `queue_store.dfy` | the store's methods |
| `QueueProperties` | `properties.dfy` | properties relating several methods |
| `QueueScenarios` | `scenarios.dfy` | the dependency chain, reverse-order and duplicate-enqueue runs |

## Behaviour as written

The model keeps these quirks of the code:

- **Recovery writes priority 0, which reads as 'high'.** The sweep sets
  `priority=0` on every claimed row, not 1. `enqueue` writes 0 for 'high',
  and `get_tasks` reads 0 as 'high'.
  - A listing takes a task's priority from its first row. So a task whose
    first row was claimed comes back 'high' (`QueueProperties.RecoveredTasksAreHigh`).
  - While all rows of each identity have the same pid (the owner invariant,
    `QueueStore.OwnersAgree`), that covers every task with a claimed row (`QueueProperties.RecoveredOwnedTasksAreHigh`).
  - Without the invariant, it does not. A 'low' task that is popped, enqueued
    again and then recorded with `active_next` has a pending first row and a
    claimed second row. After recovery it is listed 'low'
    (`QueueScenarios.RecoveryKeepsLowFirstRow`).
- **`get_tasks` treats the first row differently.** It keeps the first row's
  `depends_on` only when it is truthy, but appends later rows' `depends_on`
  unconditionally, NULL included.
  - An `enqueue` then `get_pending` round trip is exact, apart from the pid,
    which comes back -1. It needs a task that has no pending row yet, that
    has no dependencies or a non-empty first dependency
    (`KeepsLeadingDependency`), and whose priority is 'high' or 'low'
    (`ValidPriority`). `QueueProperties.EnqueueThenGetPending` proves this.
    Any other priority comes back 'low'.
  - Enqueuing a dependency-free task twice lists it once, with
    `dependson == [NULL]` (`QueueScenarios.DuplicateEnqueue`).
- **Signatures can collide.** The `-` separator is not escaped, so
  `("a-b","c")` and `("a","b-c")` share a signature
  (`TaskRecord.SignatureCollision`).
- **Counts add up only while no task is both pending and claimed.**
  `qsize == waitsize + get_alen` holds exactly when the rows of each identity
  are all pending or all claimed (`QueueStore.StatusAgrees`;
  `QueueProperties.CountsAddUp`).
  - The owner invariant implies this. Every method preserves the owner
    invariant, provided `enqueue` is not called for a task that is already
    claimed, and `active_next` is called only for a task absent from the
    queue.
  - The store does not enforce those conditions. Re-enqueuing a claimed task
    and then recording it with `active_next` leaves it both pending and
    claimed. There `qsize` is 1, while `waitsize` and `get_alen` are 1 each
    (`QueueScenarios.ReenqueueSplitsCounts`).

## Model

| member | source | states |
|---|---|---|
| TaskRecord.Signature | zooqdb_sqlite.py:132-133 | a signature is the task name, a dash, then the object, with nothing else |
| TaskRecord.EncodePriority | zooqdb_sqlite.py:53-55 | the stored code is 0 or 1, and it is 0 exactly for 'high' |
| TaskRecord.DecodePriority | zooqdb_sqlite.py:83-85 | a listed priority is 'high' or 'low', and it is 'high' exactly for code 0 |
| TaskRecord.PriorityRoundTrip | zooqdb_sqlite.py:53-55 | encoding then decoding is the identity on 'high' and 'low' |
| TaskRecord.UnknownPriorityReadsLow | zooqdb_sqlite.py:83-85 | any priority string other than 'high' is stored as 1 and read back as 'low' |
| TaskRecord.SignatureCollision | zooqdb_sqlite.py:132-133 | two different identities can have the same signature |
| TaskRecord.DependencyRows | zooqdb_sqlite.py:59-61 | the i-th inserted row carries the i-th dependency at key pos+i, with the task's other fields |
| TaskRecord.FanOut | zooqdb_sqlite.py:56-61 | no dependencies give one row with a NULL dependency; k dependencies give k rows in list order; every row has the task's identity, priority code and pid at consecutive keys |
| RowQueries.Where | zooqdb_sqlite.py:74-76 | a filter keeps exactly the rows satisfying its predicate, and no more rows than the table has |
| RowQueries.WhereDrops | zooqdb_sqlite.py:67-68 | a filter keeps every row exactly when all rows satisfy its predicate |
| RowQueries.WhereSorted | zooqdb_sqlite.py:74-76 | a filtered table is still in `pos` order |
| RowQueries.WhereAppend | zooqdb_sqlite.py:74-76 | filtering a concatenation is concatenating the filtered parts |
| RowQueries.Select | zooqdb_sqlite.py:74-76 | the selection holds exactly the rows whose pid-nullness matches `pending` |
| RowQueries.RowsOf | zooqdb_sqlite.py:45-46 | the rows of an identity are exactly the rows with that name and object, and there are some exactly when the identity occurs |
| RowQueries.DeleteIdentity | zooqdb_sqlite.py:141-142 | deleting an identity keeps exactly the other identities' rows, removes the identity from the distinct pairs, and keeps `pos` order |
| RowQueries.DeleteOwned | zooqdb_sqlite.py:67-68 | deleting by owner keeps exactly the rows with another pid, and removes some row exactly when some row has that pid |
| RowQueries.Ids | zooqdb_sqlite.py:30-31 | the listed identities are exactly the distinct (task_name, task_obj) pairs |
| RowQueries.IdsDistinct | zooqdb_sqlite.py:30-31 | no identity is listed twice |
| RowQueries.IdsCount | zooqdb_sqlite.py:30-33 | the number of listed identities is the number of distinct pairs, at most the number of rows |
| RowQueries.FirstIndex | zooqdb_sqlite.py:87-92 | the first row of an identity has that identity and no earlier row does |
| RowQueries.IdsInFirstAppearanceOrder | zooqdb_sqlite.py:94-101 | identities are listed in strictly increasing order of their first row |
| RowQueries.RowsOfFirst | zooqdb_sqlite.py:94-99 | the first row of an identity's rows is its first row in the table |
| Grouping.Groups | zooqdb_sqlite.py:73-106 | one task per listed identity, in the same order |
| Grouping.GroupsAreDistinctIdentities | zooqdb_sqlite.py:73-106 | the listing has one task for every distinct pair of the selected rows and no pair twice |
| Grouping.GroupsInFirstAppearanceOrder | zooqdb_sqlite.py:94-101 | tasks are listed in the order their first rows appear |
| Grouping.GroupFromFirstRow | zooqdb_sqlite.py:95-103 | a task's priority and pid come from its first row; its `dependson` collects the dependencies of all its rows in `pos` order, the first only if truthy |
| Grouping.GroupPriorityFromRow | zooqdb_sqlite.py:83-85 | a listed priority is the decoding of one of that identity's rows |
| Grouping.GroupsSnocExisting | zooqdb_sqlite.py:102-103 | a further row of a listed identity appends its dependency to that task only |
| Grouping.GroupsSnocFresh | zooqdb_sqlite.py:94-101 | a row of a new identity appends a new task built from that row |
| Grouping.GroupsAppendRun | zooqdb_sqlite.py:94-103 | the rows of one new identity, appended together, add exactly one task at the end |
| Grouping.GetTasks | zooqdb_sqlite.py:73-106 | the loop returns the reference listing of the selected rows |
| Grouping.GroupRows | zooqdb_sqlite.py:82-104 | after each row the tasks built equal the reference listing of the rows seen |
| Grouping.AddRow | zooqdb_sqlite.py:87-103 | one iteration extends the reference listing by one row |
| Grouping.FindGroup | zooqdb_sqlite.py:88-92 | the search returns the first task with the row's name and object, or -1 exactly when there is none |
| Readiness.ReadyMeansNoLiveDependency | zooqdb_sqlite.py:137-138 | a task is ready exactly when none of its non-null dependencies is a live signature |
| Readiness.ScanBack | zooqdb_sqlite.py:136-139 | the scan returns the highest ready index below its start, or None exactly when no index below it is ready |
| Readiness.ScanBackFindsLastReady | zooqdb_sqlite.py:136-139 | if index k is ready and nothing after it is, the scan returns k |
| QueueStore.SweepRows | zooqdb_sqlite.py:24 | the sweep clears every pid, writes priority 0 on claimed rows, and leaves pending rows, identities, dependencies and keys alone |
| QueueStore.SweepKeepsIdentities | zooqdb_sqlite.py:24 | the sweep keeps the set of distinct pairs |
| QueueStore.Recover | zooqdb_sqlite.py:24 | after recovery no row is claimed, previously claimed rows read as 'high', pending rows and every identity and dependency are unchanged, and the owner invariant holds |
| QueueStore.Open | zooqdb_sqlite.py:14-26 | a new table starts empty at the first key; an existing table is recovered |
| QueueStore.QSize | zooqdb_sqlite.py:28-33 | the queue size is at most the row count, and zero exactly when the table is empty |
| QueueStore.WaitSize | zooqdb_sqlite.py:35-41 | the pending count is at most the queue size, and zero exactly when every row is claimed |
| QueueStore.PLen | zooqdb_sqlite.py:124-129 | `get_plen` equals `waitsize` |
| QueueStore.ALen | zooqdb_sqlite.py:117-122 | the active count is at most the queue size, and zero exactly when no row is claimed |
| QueueStore.InQueue | zooqdb_sqlite.py:43-49 | true exactly when some row has that name and object, whatever its pid |
| QueueStore.Insert | zooqdb_sqlite.py:56-61 | an insert keeps the old rows as a prefix and appends the fan-out at fresh keys |
| QueueStore.Enqueue | zooqdb_sqlite.py:51-63 | enqueue appends one pending row per dependency, or one with a NULL dependency; each has the task's identity and priority code; the old rows are untouched |
| QueueStore.ActiveNext | zooqdb_sqlite.py:149-160 | active_next appends the same fan-out, owned by the task's pid |
| QueueStore.Reclaim | zooqdb_sqlite.py:65-71 | reclaim keeps exactly the rows not owned by p, and reports true exactly when it removed a row |
| QueueStore.GetActive | zooqdb_sqlite.py:108-109 | `get_active` lists as many tasks as `get_alen` counts |
| QueueStore.GetPending | zooqdb_sqlite.py:111-112 | `get_pending` lists as many tasks as `get_plen` counts, each with pid -1 |
| QueueStore.GetAll | zooqdb_sqlite.py:114-115 | `get_all` lists as many tasks as `get_alen` and `get_plen` count together |
| QueueStore.GroupIdentities | zooqdb_sqlite.py:73-106 | the identities of the listed tasks are those of the selected rows |
| QueueStore.IdSetSplit | zooqdb_sqlite.py:114-115 | every identity in the table is active or pending |
| QueueStore.LiveSignaturesAreStored | zooqdb_sqlite.py:132-133 | the signatures computed from `get_all` are those of every identity in the table |
| QueueStore.PopIndex | zooqdb_sqlite.py:134-139 | the chosen index is the last ready pending task, or None when none is ready |
| QueueStore.Claim | zooqdb_sqlite.py:141-142 | the claim deletes exactly the rows of one identity and keeps the rest well ordered |
| QueueStore.PopNext | zooqdb_sqlite.py:131-147 | a claimed task is a ready pending task with no ready task after it; all its rows are deleted and nothing else; with nothing ready the store is unchanged |
| QueueProperties.FanOutRebuilds | zooqdb_sqlite.py:96-103 | grouping a task's own fan-out rows gives the task back |
| QueueProperties.InsertedRun | zooqdb_sqlite.py:56-61 | an insert appends to the old rows a non-empty run of rows, all of the task's identity and the given pid |
| QueueProperties.AbsentFromSelections | zooqdb_sqlite.py:43-49 | a task not in the queue has no row in either selection |
| QueueProperties.EnqueueThenGetPending | zooqdb_sqlite.py:51-63 | for a task with no pending row (it may be claimed), after enqueue the task is the last pending task, listed as given with pid -1; the active list is unchanged |
| QueueProperties.ActiveNextThenGetActive | zooqdb_sqlite.py:149-160 | for a task with no claimed row (it may be pending), after active_next the task is the last active task, listed as given; the pending list is unchanged |
| QueueProperties.EnqueueThenInQueue | zooqdb_sqlite.py:43-49 | after enqueue, in_queue finds the task and the queue is non-empty |
| QueueProperties.ListedPriorities | zooqdb_sqlite.py:83-85 | every listed task has priority 'high' or 'low' |
| QueueProperties.PopThenActiveNext | zooqdb_sqlite.py:149-160 | popping a task and re-inserting it with a pid lists it last among the active tasks, with its fields unchanged and the other active tasks kept |
| QueueProperties.PopNextIsLastReady | zooqdb_sqlite.py:136-139 | when pending task k is ready and none after it is, pop_next claims task k |
| QueueProperties.PopNextWhenAllBlocked | zooqdb_sqlite.py:147 | when every pending task is blocked, pop_next returns nothing and changes nothing |
| QueueProperties.PopNextShrinksQueue | zooqdb_sqlite.py:141-142 | a claim lowers the queue size by one and the task is no longer in the queue |
| QueueProperties.PoppedIsStored | zooqdb_sqlite.py:135 | the claimed task has rows in the table |
| QueueProperties.CountsAddUp | zooqdb_sqlite.py:28-41 | qsize equals waitsize plus get_alen exactly when no identity has both pending and claimed rows; then get_all lists qsize tasks |
| QueueProperties.StatusAgreesIffDisjoint | zooqdb_sqlite.py:117-129 | each identity's rows agree on pid-nullness exactly when no pair is counted by both get_alen and get_plen |
| QueueProperties.KeepingRowsKeepsOwners | zooqdb_sqlite.py:67 | deleting rows keeps the owner invariant |
| QueueProperties.AppendingRunKeepsOwners | zooqdb_sqlite.py:56-61 | appending rows of one identity and pid keeps the owner invariant, when no older row of that identity has another pid |
| QueueProperties.EnqueueKeepsOwners | zooqdb_sqlite.py:51-63 | enqueue keeps the owner invariant unless the task is claimed |
| QueueProperties.ActiveNextKeepsOwners | zooqdb_sqlite.py:149-160 | active_next of a task not in the queue keeps the owner invariant |
| QueueProperties.ReclaimKeepsOwners | zooqdb_sqlite.py:65-71 | reclaim keeps the owner invariant |
| QueueProperties.PopNextKeepsOwners | zooqdb_sqlite.py:141-142 | pop_next keeps the owner invariant |
| QueueProperties.PendingOnlyListing | zooqdb_sqlite.py:111-112 | with no claimed row, get_pending groups the whole table |
| QueueProperties.RecoveredStoreIsPending | zooqdb_sqlite.py:24 | after recovery nothing is active and every task of the queue is pending |
| QueueProperties.RecoveredTaskListed | zooqdb_sqlite.py:24 | every task of the table is listed as pending after recovery |
| QueueProperties.RecoveredTasksAreHigh | zooqdb_sqlite.py:24 | a task whose first row was claimed is listed after recovery, with priority 'high' |
| QueueProperties.GroupsHighFromFirstRow | zooqdb_sqlite.py:83-99 | in the pending and the active listing alike, a task whose first selected row holds code 0 is listed 'high' |
| QueueProperties.RecoveredOwnedTasksAreHigh | zooqdb_sqlite.py:24 | under the owner invariant, a task with any claimed row is listed 'high' after recovery |
| QueueScenarios.DependencyChainScenario | zooqdb_sqlite.py:131-160 | B waits on A; A is popped, blocks B while active, is reclaimed, and then B is popped |
| QueueScenarios.ReverseOrderScenario | zooqdb_sqlite.py:136 | of two ready tasks, the one enqueued last is popped first |
| QueueScenarios.DuplicateEnqueue | zooqdb_sqlite.py:96-103 | enqueuing a task twice lists it once, with a NULL dependency |
| QueueScenarios.ReenqueueSplitsCounts | zooqdb_sqlite.py:28-41 | after pop, re-enqueue and active_next of one task, qsize is 1 while waitsize and get_alen are 1 each |
| QueueScenarios.RecoveryKeepsLowFirstRow | zooqdb_sqlite.py:24 | a 'low' task that is popped, enqueued again and recorded with active_next by worker 7 has a claimed row, yet after recovery it is listed 'low' |

## Left out

- SQLite connections, cursors, commits and transactions are not modelled. Each method is one atomic step on the row sequence.
- `pos` is a counter: SQLite's choice of `INTEGER PRIMARY KEY` (one past the largest key in use) is modelled as a key larger than every key in the table, which orders rows the same way.
- The `ZooQDB` base class (`zooqdb.py`) is not part of this model.
- `ztasks/capa.py` is not part of this model: it reads another database, runs an external program and writes files.
- Python's `str.format` is modelled as plain concatenation of name, `-` and object.
- `task_obj` is never NULL in the model, although the column allows it.
- A task's `pid` is an integer. An `active_next` call with a `None` pid, which would insert pending rows, is not modelled.
- `reclaim` takes an integer pid. A `None` argument, which matches no row in SQL, is not modelled.
- Dependencies are strings or NULL. Other Python values in `dependson` are not modelled.
- QueueProperties.EnqueueThenGetPending: requires the task's first dependency, if any, to be a non-empty string and its priority to be 'high' or 'low', because the listing does not return other tasks unchanged. It also requires the task to have no pending row yet, because a second enqueue merges into the existing task (`QueueScenarios.DuplicateEnqueue`).
- QueueProperties.ActiveNextThenGetActive: the same restriction as `EnqueueThenGetPending`, for the same reason.
- QueueProperties.FanOutRebuilds: requires the same restriction as `EnqueueThenGetPending`, because `get_tasks` drops a falsy first dependency.
- QueueProperties.PopThenActiveNext: requires the popped task's first dependency, if any, to be a non-empty string, for the same reason.
- QueueProperties.RecoveredOwnedTasksAreHigh: holds only under the owner invariant. `QueueScenarios.RecoveryKeepsLowFirstRow` shows a reachable table where it fails.
