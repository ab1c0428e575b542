/**
 * The relational queries the store issues against the `zooq` table:
 * `WHERE` filters, `SELECT DISTINCT task_name, task_obj`, and the
 * first-appearance order in which rows of one identity are seen.
 */
module RowQueries {
  import opened Wrappers
  import opened TaskRecord

  /** The table is kept in ascending `pos` order (its primary key). */
  predicate SortedByPos(rows: seq<Row>) {
    forall i, j :: 0 <= i < j < |rows| ==> rows[i].pos < rows[j].pos
  }

  /** `SELECT * ... WHERE keep`: the rows satisfying `keep`, in table order. */
  function Where(rows: seq<Row>, keep: Row -> bool): (kept: seq<Row>)
    ensures |kept| <= |rows|
    ensures forall x :: x in kept <==> x in rows && keep(x)
    decreases |rows|
  {
    if |rows| == 0 then []
    else
      assert forall x :: x in rows <==> x == rows[0] || x in rows[1..];
      (if keep(rows[0]) then [rows[0]] else []) + Where(rows[1..], keep)
  }

  /** A filter drops a row exactly when some row fails `keep`. */
  lemma {:induction false} WhereDrops(rows: seq<Row>, keep: Row -> bool)
    ensures |Where(rows, keep)| == |rows| <==> forall x :: x in rows ==> keep(x)
    decreases |rows|
  {
    if |rows| > 0 {
      assert forall x :: x in rows <==> x == rows[0] || x in rows[1..];
      WhereDrops(rows[1..], keep);
    }
  }

  /** A filter keeps the table in `pos` order. */
  lemma {:induction false} WhereSorted(rows: seq<Row>, keep: Row -> bool)
    requires SortedByPos(rows)
    ensures SortedByPos(Where(rows, keep))
    decreases |rows|
  {
    if |rows| > 0 {
      SortedTail(rows);
      WhereSorted(rows[1..], keep);
      var rest := Where(rows[1..], keep);
      if keep(rows[0]) {
        var kept := [rows[0]] + rest;
        assert Where(rows, keep) == kept;
        forall i, j | 0 <= i < j < |kept|
          ensures kept[i].pos < kept[j].pos
        {
          assert kept[j] == rest[j - 1];
          assert rest[j - 1] in rows[1..];
          if i > 0 {
            assert kept[i] == rest[i - 1];
          }
        }
      }
    }
  }

  /** Filtering never breaks `pos` order, stated for every table. */
  lemma WhereKeepsOrder(rows: seq<Row>, keep: Row -> bool)
    ensures SortedByPos(rows) ==> SortedByPos(Where(rows, keep))
  {
    if SortedByPos(rows) {
      WhereSorted(rows, keep);
    }
  }

  /** A sorted table's tail is sorted and lies strictly after its head. */
  lemma SortedTail(rows: seq<Row>)
    requires |rows| > 0 && SortedByPos(rows)
    ensures SortedByPos(rows[1..])
    ensures forall x :: x in rows[1..] ==> rows[0].pos < x.pos
  {
    forall x | x in rows[1..]
      ensures rows[0].pos < x.pos
    {
      var j :| 0 <= j < |rows[1..]| && rows[1..][j] == x;
      assert rows[j + 1] == x;
    }
  }

  /** A filter on a two-row table. */
  lemma WhereTwo(a: Row, b: Row, keep: Row -> bool)
    ensures Where([a, b], keep) == (if keep(a) then [a] else []) + (if keep(b) then [b] else [])
  {
    assert [a, b][1..] == [b];
    assert [b][1..] == [];
  }

  /** A filter that every row passes returns the table unchanged. */
  lemma {:induction false} WhereAll(rows: seq<Row>, keep: Row -> bool)
    requires forall x :: x in rows ==> keep(x)
    ensures Where(rows, keep) == rows
    decreases |rows|
  {
    if |rows| > 0 {
      assert forall x :: x in rows[1..] ==> x in rows;
      WhereAll(rows[1..], keep);
      assert rows == [rows[0]] + rows[1..];
    }
  }

  /** A filter that no row passes returns the empty table. */
  lemma {:induction false} WhereNone(rows: seq<Row>, keep: Row -> bool)
    requires forall x :: x in rows ==> !keep(x)
    ensures Where(rows, keep) == []
    decreases |rows|
  {
    if |rows| > 0 {
      assert forall x :: x in rows[1..] ==> x in rows;
      WhereNone(rows[1..], keep);
    }
  }

  /** Filtering distributes over concatenation of tables. */
  lemma {:induction false} WhereAppend(a: seq<Row>, b: seq<Row>, keep: Row -> bool)
    ensures Where(a + b, keep) == Where(a, keep) + Where(b, keep)
    decreases |a|
  {
    if |a| == 0 {
      assert a + b == b;
    } else {
      assert (a + b)[0] == a[0];
      assert (a + b)[1..] == a[1..] + b;
      WhereAppend(a[1..], b, keep);
    }
  }

  /** The rows whose pid-nullness matches `pending` (`pid IS NULL` / `IS NOT NULL`). */
  function Select(rows: seq<Row>, pending: bool): (sel: seq<Row>)
    ensures forall x :: x in sel <==> x in rows && x.pid.None? == pending
  {
    Where(rows, (x: Row) => x.pid.None? == pending)
  }

  /** The rows of one identity (`WHERE task_name = ? AND task_obj = ?`). */
  function RowsOf(rows: seq<Row>, id: Identity): (rs: seq<Row>)
    ensures forall x :: x in rs <==> x in rows && x.Id() == id
    ensures |rs| > 0 <==> id in IdSet(rows)
  {
    var rs := Where(rows, (x: Row) => x.Id() == id);
    assert |rs| > 0 ==> rs[0] in rs;
    rs
  }

  lemma SelectAppend(a: seq<Row>, b: seq<Row>, pending: bool)
    ensures Select(a + b, pending) == Select(a, pending) + Select(b, pending)
  {
    WhereAppend(a, b, (x: Row) => x.pid.None? == pending);
  }

  lemma RowsOfAppend(a: seq<Row>, b: seq<Row>, id: Identity)
    ensures RowsOf(a + b, id) == RowsOf(a, id) + RowsOf(b, id)
  {
    WhereAppend(a, b, (x: Row) => x.Id() == id);
  }

  /** The first row of an identity is the row at its first index. */
  lemma {:induction false} RowsOfFirst(rows: seq<Row>, id: Identity)
    requires id in IdSet(rows)
    ensures |RowsOf(rows, id)| > 0 && RowsOf(rows, id)[0] == rows[FirstIndex(rows, id)]
    decreases |rows|
  {
    var keep := (x: Row) => x.Id() == id;
    assert RowsOf(rows, id) == Where(rows, keep);
    assert Where(rows, keep) == (if keep(rows[0]) then [rows[0]] else []) + Where(rows[1..], keep);
    if rows[0].Id() != id {
      assert rows[1..] + [] == rows[1..];
      assert id in IdSet(rows[1..]) by {
        var x :| x in rows && x.Id() == id;
        assert x != rows[0];
      }
      RowsOfFirst(rows[1..], id);
      assert RowsOf(rows[1..], id) == Where(rows[1..], keep);
    }
  }

  /** Deleting every row of one identity (`DELETE ... WHERE task_name = ? AND task_obj = ?`). */
  function DeleteIdentity(rows: seq<Row>, id: Identity): (kept: seq<Row>)
    ensures forall x :: x in kept <==> x in rows && x.Id() != id
    ensures IdSet(kept) == IdSet(rows) - {id}
    ensures SortedByPos(rows) ==> SortedByPos(kept)
  {
    var keep := (x: Row) => x.Id() != id;
    WhereKeepsOrder(rows, keep);
    Where(rows, keep)
  }

  /** Deleting every row owned by `p` (`DELETE ... WHERE pid = ?`); pending rows never match. */
  function DeleteOwned(rows: seq<Row>, p: int): (kept: seq<Row>)
    ensures forall x :: x in kept <==> x in rows && x.pid != Some(p)
    ensures |kept| <= |rows|
    ensures |kept| < |rows| <==> exists x :: x in rows && x.pid == Some(p)
    ensures SortedByPos(rows) ==> SortedByPos(kept)
  {
    var keep := NotOwnedBy(p);
    WhereDrops(rows, keep);
    WhereKeepsOrder(rows, keep);
    Where(rows, keep)
  }

  /** The rows `reclaim(p)` keeps. */
  function NotOwnedBy(p: int): Row -> bool {
    (x: Row) => x.pid != Some(p)
  }

  lemma RowsOfSingle(r: Row, id: Identity)
    ensures RowsOf([r], id) == if r.Id() == id then [r] else []
  {
    assert [r][1..] == [];
  }

  /** `SELECT DISTINCT task_name, task_obj`: the identities present in `rows`. */
  function IdSet(rows: seq<Row>): set<Identity> {
    set x | x in rows :: x.Id()
  }

  /** A table has some distinct pair exactly when it has some row. */
  lemma IdSetEmpty(rows: seq<Row>)
    ensures |IdSet(rows)| == 0 <==> |rows| == 0
    ensures |rows| == 0 <==> forall x :: x !in rows
  {
    if |rows| > 0 {
      assert rows[0] in rows;
      assert rows[0].Id() in IdSet(rows);
    }
  }

  lemma IdSetSnoc(rows: seq<Row>, last: Row)
    ensures IdSet(rows + [last]) == IdSet(rows) + {last.Id()}
  {
    assert forall x :: x in rows + [last] <==> x in rows || x == last;
  }

  /**
   * The identities of `rows` in order of first appearance, each once: the
   * order in which `get_tasks` creates its groups.
   */
  function Ids(rows: seq<Row>): (ids: seq<Identity>)
    ensures forall id :: id in ids <==> id in IdSet(rows)
    decreases |rows|
  {
    if |rows| == 0 then []
    else
      var prefix := rows[..|rows| - 1];
      var last := rows[|rows| - 1];
      assert rows == prefix + [last];
      IdSetSnoc(prefix, last);
      var prev := Ids(prefix);
      if last.Id() in prev then prev else prev + [last.Id()]
  }

  /** `Ids` lists no identity twice. */
  lemma {:induction false} IdsDistinct(rows: seq<Row>)
    ensures forall i, j :: 0 <= i < j < |Ids(rows)| ==> Ids(rows)[i] != Ids(rows)[j]
    decreases |rows|
  {
    if |rows| > 0 {
      var prefix := rows[..|rows| - 1];
      var last := rows[|rows| - 1];
      assert rows == prefix + [last];
      IdsDistinct(prefix);
      IdsSnoc(prefix, last);
    }
  }

  /** `Ids` has one entry per distinct identity, hence no more than there are rows. */
  lemma {:induction false} IdsCount(rows: seq<Row>)
    ensures |Ids(rows)| == |IdSet(rows)| <= |rows|
    decreases |rows|
  {
    if |rows| > 0 {
      var prefix := rows[..|rows| - 1];
      var last := rows[|rows| - 1];
      assert rows == prefix + [last];
      IdsCount(prefix);
      IdsSnoc(prefix, last);
      IdSetSnoc(prefix, last);
      if last.Id() in Ids(prefix) {
        assert IdSet(rows) == IdSet(prefix);
      } else {
        assert IdSet(prefix) * {last.Id()} == {};
      }
    }
  }

  /** The position of the first row of identity `id`. */
  function FirstIndex(rows: seq<Row>, id: Identity): (k: nat)
    requires id in IdSet(rows)
    ensures k < |rows| && rows[k].Id() == id
    ensures forall j :: 0 <= j < k ==> rows[j].Id() != id
    decreases |rows|
  {
    if rows[0].Id() == id then 0
    else
      assert rows[1..] + [] == rows[1..];
      assert exists x :: x in rows[1..] && x.Id() == id by {
        var x :| x in rows && x.Id() == id;
        assert x != rows[0];
      }
      1 + FirstIndex(rows[1..], id)
  }

  /**
   * `Ids` lists identities in strictly increasing order of their first row:
   * groups come out in first-appearance `pos` order.
   */
  lemma {:induction false} IdsInFirstAppearanceOrder(rows: seq<Row>)
    ensures forall i, j :: 0 <= i < j < |Ids(rows)| ==>
              FirstIndex(rows, Ids(rows)[i]) < FirstIndex(rows, Ids(rows)[j])
    decreases |rows|
  {
    if |rows| > 0 {
      var prefix := rows[..|rows| - 1];
      var last := rows[|rows| - 1];
      assert rows == prefix + [last];
      IdsInFirstAppearanceOrder(prefix);
      forall i, j | 0 <= i < j < |Ids(rows)|
        ensures FirstIndex(rows, Ids(rows)[i]) < FirstIndex(rows, Ids(rows)[j])
      {
        IdsOrderStep(prefix, last, i, j);
      }
    }
  }

  /** The inductive step of `IdsInFirstAppearanceOrder` for one pair of identities. */
  lemma IdsOrderStep(prefix: seq<Row>, last: Row, i: nat, j: nat)
    requires forall i, j :: 0 <= i < j < |Ids(prefix)| ==>
               FirstIndex(prefix, Ids(prefix)[i]) < FirstIndex(prefix, Ids(prefix)[j])
    requires i < j < |Ids(prefix + [last])|
    ensures FirstIndex(prefix + [last], Ids(prefix + [last])[i]) < FirstIndex(prefix + [last], Ids(prefix + [last])[j])
  {
    var rows := prefix + [last];
    IdsSnoc(prefix, last);
    var prev := Ids(prefix);
    var ids := Ids(rows);
    assert ids[i] == prev[i] && prev[i] in prev;
    FirstIndexOfPrefix(prefix, last, prev[i]);
    if j < |prev| {
      assert ids[j] == prev[j] && prev[j] in prev;
      FirstIndexOfPrefix(prefix, last, prev[j]);
    } else {
      FirstIndexUnique(rows, last.Id(), |rows| - 1);
    }
  }

  /** One more row adds its identity at the end, unless it was already seen. */
  lemma IdsSnoc(prefix: seq<Row>, last: Row)
    ensures Ids(prefix + [last]) == if last.Id() in Ids(prefix) then Ids(prefix) else Ids(prefix) + [last.Id()]
  {
    var rows := prefix + [last];
    assert rows[..|rows| - 1] == prefix;
  }

  /** Appending a row does not move the first row of an identity already present. */
  lemma FirstIndexOfPrefix(prefix: seq<Row>, last: Row, id: Identity)
    requires id in IdSet(prefix)
    ensures id in IdSet(prefix + [last])
    ensures FirstIndex(prefix + [last], id) == FirstIndex(prefix, id) < |prefix|
  {
    IdSetSnoc(prefix, last);
    var f := FirstIndex(prefix, id);
    assert (prefix + [last])[f] == prefix[f];
    FirstIndexUnique(prefix + [last], id, f);
  }

  /** The first index is the unique index with the characterising property. */
  lemma FirstIndexUnique(rows: seq<Row>, id: Identity, k: nat)
    requires k < |rows| && rows[k].Id() == id
    requires forall j :: 0 <= j < k ==> rows[j].Id() != id
    ensures id in IdSet(rows)
    ensures FirstIndex(rows, id) == k
  {
    assert rows[k] in rows;
  }
}
