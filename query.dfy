/** Query builders (src/fastbg/query.py) as filters over a table held in insertion order,
    plus the id lookup, OFFSET/LIMIT and row replacement/removal the handlers run. */
module Query {
  import opened Wrappers
  import opened Db

  /** `select(model).where(model.is_soft_deleted == flag)`, order preserved. */
  function Where(rows: seq<Row>, flag: bool): seq<Row> {
    if rows == [] then []
    else Where(rows[..|rows| - 1], flag) + (if rows[|rows| - 1].isSoftDeleted == flag then [rows[|rows| - 1]] else [])
  }

  /** `base_query(model)`: rows not soft-deleted, or every row for a model without the flag. */
  function BaseQuery(softDelete: bool, rows: seq<Row>): seq<Row> {
    if softDelete then Where(rows, false) else rows
  }

  /** `query_deleted(model)`: soft-deleted rows, or every row for a model without the flag. */
  function QueryDeleted(softDelete: bool, rows: seq<Row>): seq<Row> {
    if softDelete then Where(rows, true) else rows
  }

  /** `.offset(offset).limit(limit)` over a result in table order. */
  function Paginate(s: seq<Row>, offset: nat, limit: nat): (page: seq<Row>)
    ensures |page| == if offset >= |s| then 0 else if limit < |s| - offset then limit else |s| - offset
    ensures forall k :: 0 <= k < |page| ==> page[k] == s[offset + k]
  {
    var lo := if offset < |s| then offset else |s|;
    var hi := if offset + limit < |s| then offset + limit else |s|;
    s[lo..hi]
  }

  /** `.where(model.id == id)` followed by `scalar_one_or_none()`, on a result whose ids
      are distinct: the first row with that id, if any. */
  function FindId(rows: seq<Row>, id: int): (r: Option<Row>)
    ensures r.Some? ==> r.value in rows && r.value.id == id
    ensures r.None? ==> forall k :: 0 <= k < |rows| ==> rows[k].id != id
  {
    if rows == [] then None
    else if rows[0].id == id then Some(rows[0])
    else FindId(rows[1..], id)
  }

  /** The table after the row with `row.id` has been written back as `row`. */
  function ReplaceId(rows: seq<Row>, row: Row): (r: seq<Row>)
    ensures |r| == |rows|
    ensures forall k :: 0 <= k < |rows| ==> r[k] == if rows[k].id == row.id then row else rows[k]
  {
    seq(|rows|, k requires 0 <= k < |rows| => if rows[k].id == row.id then row else rows[k])
  }

  /** `db.delete(item)`: the table without the row(s) carrying that primary key. */
  function RemoveId(rows: seq<Row>, id: int): seq<Row> {
    if rows == [] then []
    else RemoveId(rows[..|rows| - 1], id) + (if rows[|rows| - 1].id == id then [] else [rows[|rows| - 1]])
  }

  // ---------------------------------------------------------------------------------
  // Properties of the two query builders.
  // ---------------------------------------------------------------------------------

  /** A row is selected by `Where(rows, flag)` exactly when it is in the table with that flag. */
  lemma {:induction false} WhereSelects(rows: seq<Row>, flag: bool, row: Row)
    ensures row in Where(rows, flag) <==> row in rows && row.isSoftDeleted == flag
  {
    if rows != [] {
      WhereSelects(rows[..|rows| - 1], flag, row);
      assert rows == rows[..|rows| - 1] + [rows[|rows| - 1]];
    }
  }

  /** For a soft-delete model `base_query` selects exactly the rows whose flag is false. */
  lemma BaseQuerySelectsLive(rows: seq<Row>, row: Row)
    ensures row in BaseQuery(true, rows) <==> row in rows && !row.isSoftDeleted
  {
    WhereSelects(rows, false, row);
  }

  /** For a soft-delete model `query_deleted` selects exactly the rows whose flag is true. */
  lemma QueryDeletedSelectsDeleted(rows: seq<Row>, row: Row)
    ensures row in QueryDeleted(true, rows) <==> row in rows && row.isSoftDeleted
  {
    WhereSelects(rows, true, row);
  }

  /** For a soft-delete model the two selections split the table: no row is in both, and
      together they hold every row exactly as often as the table does. */
  lemma {:induction false} QueriesPartition(rows: seq<Row>)
    ensures multiset(BaseQuery(true, rows)) + multiset(QueryDeleted(true, rows)) == multiset(rows)
    ensures forall row :: row in BaseQuery(true, rows) ==> row !in QueryDeleted(true, rows)
  {
    if rows != [] {
      QueriesPartition(rows[..|rows| - 1]);
      assert rows == rows[..|rows| - 1] + [rows[|rows| - 1]];
    }
    forall row | row in BaseQuery(true, rows)
      ensures row !in QueryDeleted(true, rows)
    {
      BaseQuerySelectsLive(rows, row);
      QueryDeletedSelectsDeleted(rows, row);
    }
  }

  /** For a model without soft delete both builders return the whole table, so
      `query_deleted` is not empty for a non-empty table. */
  lemma WithoutSoftDelete(rows: seq<Row>)
    ensures BaseQuery(false, rows) == rows && QueryDeleted(false, rows) == rows
    ensures rows != [] ==> QueryDeleted(false, rows) != []
  {
  }

  /** Removing a primary key keeps exactly the rows with another key; `RemoveIdAt` gives
      their order. */
  lemma {:induction false} RemoveIdSelects(rows: seq<Row>, id: int, row: Row)
    ensures row in RemoveId(rows, id) <==> row in rows && row.id != id
  {
    if rows != [] {
      RemoveIdSelects(rows[..|rows| - 1], id, row);
      assert rows == rows[..|rows| - 1] + [rows[|rows| - 1]];
    }
  }

  lemma {:induction false} RemoveIdAbsent(rows: seq<Row>, id: int)
    requires forall k :: 0 <= k < |rows| ==> rows[k].id != id
    ensures RemoveId(rows, id) == rows
  {
    if rows != [] {
      RemoveIdAbsent(rows[..|rows| - 1], id);
    }
  }

  /** Removing a key that only position `p` holds drops exactly that position and keeps
      the other rows in order. */
  lemma {:induction false} RemoveIdAt(rows: seq<Row>, p: int)
    requires 0 <= p < |rows|
    requires forall k :: 0 <= k < |rows| && k != p ==> rows[k].id != rows[p].id
    ensures RemoveId(rows, rows[p].id) == rows[..p] + rows[p + 1..]
  {
    var n := |rows| - 1;
    var init := rows[..n];
    if p == n {
      RemoveIdAbsent(init, rows[p].id);
    } else {
      assert init[p] == rows[p];
      RemoveIdAt(init, p);
      assert rows[..p] + rows[p + 1..] == init[..p] + init[p + 1..] + [rows[n]];
    }
  }

  /** With distinct ids, `FindId` finds a row exactly when some row has the id, and the
      row found is that one. */
  lemma {:induction false} FindIdExact(rows: seq<Row>, id: int, k: nat)
    requires k < |rows| && rows[k].id == id
    ensures FindId(rows, id) == Some(rows[k]) || exists j :: 0 <= j < k && rows[j].id == id
  {
    if rows[0].id != id {
      FindIdExact(rows[1..], id, k - 1);
      if FindId(rows[1..], id) != Some(rows[1..][k - 1]) {
        var j :| 0 <= j < k - 1 && rows[1..][j].id == id;
        assert rows[j + 1].id == id;
      }
    }
  }
}
