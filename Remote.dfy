/**
 * The hosted data service the screens talk to, reduced to one in-memory
 * table per entity kind: a sequence of rows, each with a server-assigned id
 * and the entity's other columns. The client library's fluent calls
 * (`select`, `eq`, `order`, `insert`, `update ... eq('id', x)`,
 * `delete ... eq('id', x)`) become the methods of `Table`; whether a request
 * succeeds is an input, `Status`, since the network is not modelled.
 */
module Remote {
  import opened Wrappers

  /** The opaque, server-assigned row identifier. */
  type Id = string

  /** How the service answers one request: it carried it out and sent rows
      back, it carried it out and sent none (`data` is null), or it failed
      (`error` is set). */
  datatype Status = Done | NoData | Failed

  /** The `{ data, error }` pair a request resolves to. */
  datatype Response<T> = Response(data: Option<T>, failed: bool)

  function Respond<T>(status: Status, result: T): Response<T>
  {
    match status
    case Done => Response(Some(result), false)
    case NoData => Response(None, false)
    case Failed => Response(None, true)
  }

  datatype Row<D> = Row(id: Id, cols: D)

  function Ids<D>(rows: seq<Row<D>>): seq<Id>
  {
    seq(|rows|, i requires 0 <= i < |rows| => rows[i].id)
  }

  /** Ids are assigned once by the service and never repeat. */
  ghost predicate UniqueIds<D>(rows: seq<Row<D>>)
  {
    forall i, j :: 0 <= i < j < |rows| ==> rows[i].id != rows[j].id
  }

  function MaxLength(ids: seq<Id>): (m: nat)
    ensures forall i :: 0 <= i < |ids| ==> |ids[i]| <= m
  {
    if ids == [] then 0
    else
      var rest := MaxLength(ids[1..]);
      if |ids[0]| > rest then |ids[0]| else rest
  }

  /** The id the service gives a new row: one no existing row has. */
  function FreshId(ids: seq<Id>): (id: Id)
    ensures id !in ids
  {
    var id := seq(MaxLength(ids) + 1, _ => '0');
    assert forall i :: 0 <= i < |ids| ==> |ids[i]| < |id|;
    id
  }

  // ---------------------------------------------------------------------
  // What each request does to the table
  // ---------------------------------------------------------------------

  /** `insert([cols])`: one new row at the end, under a fresh id. */
  function Inserted<D>(rows: seq<Row<D>>, cols: D): (r: seq<Row<D>>)
    ensures |r| == |rows| + 1 && r[..|rows|] == rows
    ensures r[|rows|].cols == cols && r[|rows|].id !in Ids(rows)
    ensures UniqueIds(rows) ==> UniqueIds(r)
  {
    var r := rows + [Row(FreshId(Ids(rows)), cols)];
    assert forall i :: 0 <= i < |rows| ==> r[i].id == Ids(rows)[i];
    r
  }

  /** A patch that writes every column from `cols` (`update(payload)`). */
  function Overwrite<D>(cols: D): D -> D
  {
    _ => cols
  }

  /** `update(patch).eq('id', id)`: every row with that id is patched, every
      other row is left as it is, and no id changes. */
  function Updated<D>(rows: seq<Row<D>>, id: Id, patch: D -> D): (r: seq<Row<D>>)
    ensures |r| == |rows|
    ensures forall i :: 0 <= i < |rows| ==> r[i].id == rows[i].id
    ensures forall i :: 0 <= i < |rows| && rows[i].id != id ==> r[i] == rows[i]
    ensures forall i :: 0 <= i < |rows| && rows[i].id == id ==> r[i].cols == patch(rows[i].cols)
    ensures UniqueIds(rows) ==> UniqueIds(r)
  {
    seq(|rows|, i requires 0 <= i < |rows| =>
      if rows[i].id == id then Row(id, patch(rows[i].cols)) else rows[i])
  }

  /** With unique ids, an update touches exactly the one row that has the id. */
  lemma UpdatedOne<D>(rows: seq<Row<D>>, k: nat, patch: D -> D)
    requires UniqueIds(rows) && k < |rows|
    ensures Updated(rows, rows[k].id, patch) == rows[k := Row(rows[k].id, patch(rows[k].cols))]
  {
    var r := Updated(rows, rows[k].id, patch);
    var s := rows[k := Row(rows[k].id, patch(rows[k].cols))];
    forall i | 0 <= i < |rows|
      ensures r[i] == s[i]
    {
      if i != k {
        assert rows[i].id != rows[k].id by {
          if i < k { assert UniqueIds(rows); } else { assert UniqueIds(rows); }
        }
      }
    }
  }

  /** Updating twice, with a second patch that undoes the first on every row
      the id selects, gives the table back. */
  lemma UpdatedUndone<D>(rows: seq<Row<D>>, id: Id, patch: D -> D, undo: D -> D)
    requires forall i :: 0 <= i < |rows| && rows[i].id == id ==> undo(patch(rows[i].cols)) == rows[i].cols
    ensures Updated(Updated(rows, id, patch), id, undo) == rows
  {
    var r := Updated(Updated(rows, id, patch), id, undo);
    forall i | 0 <= i < |rows|
      ensures r[i] == rows[i]
    {
    }
  }

  /** `delete().eq('id', id)`: the rows with that id go, the rest stay in order. */
  function Deleted<D(!new)>(rows: seq<Row<D>>, id: Id): (r: seq<Row<D>>)
    ensures forall i :: 0 <= i < |r| ==> r[i].id != id
    ensures forall x :: multiset(r)[x] == if x.id != id then multiset(rows)[x] else 0
  {
    if rows == [] then []
    else
      assert rows == [rows[0]] + rows[1..];
      (if rows[0].id == id then [] else [rows[0]]) + Deleted(rows[1..], id)
  }

  /** With unique ids, a delete removes exactly the one row that has the id. */
  lemma {:induction false} DeletedOne<D(!new)>(rows: seq<Row<D>>, k: nat)
    requires UniqueIds(rows) && k < |rows|
    ensures Deleted(rows, rows[k].id) == rows[..k] + rows[k + 1..]
  {
    var id := rows[k].id;
    var tail := rows[1..];
    if k == 0 {
      assert forall i :: 0 <= i < |tail| ==> tail[i].id != id by {
        forall i | 0 <= i < |tail| ensures tail[i].id != id {
          assert tail[i] == rows[i + 1];
        }
      }
      DeletedAbsent(tail, id);
    } else {
      assert UniqueIds(tail) by {
        forall i, j | 0 <= i < j < |tail| ensures tail[i].id != tail[j].id {
          assert tail[i] == rows[i + 1] && tail[j] == rows[j + 1];
        }
      }
      assert tail[k - 1] == rows[k];
      DeletedOne(tail, k - 1);
      assert rows[0].id != id;
      assert Deleted(rows, id) == [rows[0]] + Deleted(tail, id);
      SplitAfterHead(rows, k);
    }
  }

  lemma SplitAfterHead<T>(s: seq<T>, k: nat)
    requires 0 < k < |s|
    ensures s[..k] + s[k + 1..] == [s[0]] + (s[1..][..k - 1] + s[1..][k..])
  {
    assert s[..k] == [s[0]] + s[1..][..k - 1];
    assert s[k + 1..] == s[1..][k..];
  }

  /** Deleting an id no row has changes nothing. */
  lemma {:induction false} DeletedAbsent<D(!new)>(rows: seq<Row<D>>, id: Id)
    requires forall i :: 0 <= i < |rows| ==> rows[i].id != id
    ensures Deleted(rows, id) == rows
  {
    if rows != [] {
      DeletedAbsent(rows[1..], id);
    }
  }

  lemma DeletedUnique<D(!new)>(rows: seq<Row<D>>, id: Id)
    requires UniqueIds(rows)
    ensures UniqueIds(Deleted(rows, id))
  {
    if k :| 0 <= k < |rows| && rows[k].id == id {
      DeletedOne(rows, k);
      var r := rows[..k] + rows[k + 1..];
      forall i, j | 0 <= i < j < |r|
        ensures r[i].id != r[j].id
      {
        RemovedAt(rows, k, i);
        RemovedAt(rows, k, j);
      }
    } else {
      DeletedAbsent(rows, id);
    }
  }

  lemma RemovedAt<T>(s: seq<T>, k: nat, i: nat)
    requires k < |s| && i < |s| - 1
    ensures (s[..k] + s[k + 1..])[i] == s[if i < k then i else i + 1]
  {
  }

  // ---------------------------------------------------------------------
  // What a select returns
  // ---------------------------------------------------------------------

  /** `eq(column, value)`: the rows whose columns satisfy `p`, each as often
      as in the table. */
  function Where<D(!new)>(rows: seq<Row<D>>, p: D -> bool): (r: seq<Row<D>>)
    ensures forall i :: 0 <= i < |r| ==> p(r[i].cols)
    ensures forall x :: multiset(r)[x] == if p(x.cols) then multiset(rows)[x] else 0
  {
    if rows == [] then []
    else
      assert rows == [rows[0]] + rows[1..];
      (if p(rows[0].cols) then [rows[0]] else []) + Where(rows[1..], p)
  }

  ghost predicate SortedBy<D>(rows: seq<Row<D>>, key: D -> int)
  {
    forall i, j :: 0 <= i < j < |rows| ==> key(rows[i].cols) <= key(rows[j].cols)
  }

  function InsertSorted<D>(x: Row<D>, rows: seq<Row<D>>, key: D -> int): (r: seq<Row<D>>)
    requires SortedBy(rows, key)
    ensures SortedBy(r, key)
    ensures multiset(r) == multiset(rows) + multiset{x}
    ensures r[0] == x || (rows != [] && r[0] == rows[0])
  {
    if rows == [] || key(x.cols) <= key(rows[0].cols) then
      SortedCons(x, rows, key);
      [x] + rows
    else
      assert rows == [rows[0]] + rows[1..];
      var t := InsertSorted(x, rows[1..], key);
      SortedCons(rows[0], t, key);
      [rows[0]] + t
  }

  lemma SortedCons<D>(y: Row<D>, t: seq<Row<D>>, key: D -> int)
    requires SortedBy(t, key)
    requires t == [] || key(y.cols) <= key(t[0].cols)
    ensures SortedBy([y] + t, key)
  {
    var r := [y] + t;
    forall i, j | 0 <= i < j < |r|
      ensures key(r[i].cols) <= key(r[j].cols)
    {
      if i == 0 {
        assert r[j] == t[j - 1];
        if j > 1 {
          assert key(t[0].cols) <= key(t[j - 1].cols);
        }
      } else {
        assert r[i] == t[i - 1] && r[j] == t[j - 1];
      }
    }
  }

  /** `order(column, { ascending: true })`: the same rows, ascending in `key`. */
  function SortBy<D>(rows: seq<Row<D>>, key: D -> int): (r: seq<Row<D>>)
    ensures SortedBy(r, key)
    ensures multiset(r) == multiset(rows)
  {
    if rows == [] then []
    else
      assert rows == [rows[0]] + rows[1..];
      InsertSorted(rows[0], SortBy(rows[1..], key), key)
  }

  /**
   * One table of the service. `rows` is the committed server state; every
   * request takes the `Status` the service answers with, and a failed
   * request changes nothing.
   */
  class Table<D(!new)> {
    var rows: seq<Row<D>>

    ghost predicate Valid()
      reads this
    {
      UniqueIds(rows)
    }

    constructor (initial: seq<Row<D>>)
      requires UniqueIds(initial)
      ensures Valid() && rows == initial
    {
      rows := initial;
    }

    /** `select('*').order(key, { ascending: true })` */
    method Select(key: D -> int, status: Status) returns (resp: Response<seq<Row<D>>>)
      ensures resp == Respond(status, SortBy(rows, key))
    {
      resp := Respond(status, SortBy(rows, key));
    }

    /** `select('*').eq(...).order(key, { ascending: true })` */
    method SelectWhere(p: D -> bool, key: D -> int, status: Status) returns (resp: Response<seq<Row<D>>>)
      ensures resp == Respond(status, SortBy(Where(rows, p), key))
    {
      resp := Respond(status, SortBy(Where(rows, p), key));
    }

    /** `insert([cols])`; `ok` is "`error` is null". */
    method Insert(cols: D, status: Status) returns (ok: bool)
      requires Valid()
      modifies this
      ensures Valid()
      ensures ok <==> !status.Failed?
      ensures rows == if ok then Inserted(old(rows), cols) else old(rows)
    {
      ok := !status.Failed?;
      if ok {
        rows := Inserted(rows, cols);
      }
    }

    /** `update(patch).eq('id', id)` */
    method Update(id: Id, patch: D -> D, status: Status) returns (ok: bool)
      requires Valid()
      modifies this
      ensures Valid()
      ensures ok <==> !status.Failed?
      ensures rows == if ok then Updated(old(rows), id, patch) else old(rows)
    {
      ok := !status.Failed?;
      if ok {
        rows := Updated(rows, id, patch);
      }
    }

    /** `delete().eq('id', id)` */
    method Delete(id: Id, status: Status) returns (ok: bool)
      requires Valid()
      modifies this
      ensures Valid()
      ensures ok <==> !status.Failed?
      ensures rows == if ok then Deleted(old(rows), id) else old(rows)
    {
      ok := !status.Failed?;
      if ok {
        DeletedUnique(rows, id);
        rows := Deleted(rows, id);
      }
    }
  }
}
