/** The generic CRUD router (src/fastbg/router/core.py): the error guard every handler is
    wrapped in, which endpoints a router registers, the exclusion lists of its derived
    schemas, and each handler as a transition of one model's table. */
module Crud {
  import opened Wrappers
  import opened Db
  import opened Http
  import Query
  import Schema

  // ---------------------------------------------------------------------------------
  // Errors and the `protected` guard.
  // ---------------------------------------------------------------------------------

  const NotFound := HttpError(404, "Item not found")
  const OperationFailed := HttpError(400, "Operation failed")
  const NotSoftDeleted := HttpError(400, "Item is not soft deleted")

  /** What the database raises when a commit breaks a unique constraint. */
  const IntegrityError := OtherException("IntegrityError")

  const DeletedMessage := "Item deleted successfully"
  const SoftDeletedMessage := "Item soft deleted successfully"

  /** `protected`: a returned value and an `HTTPException` pass through unchanged; any
      other exception becomes a 400 "Operation failed". */
  function Protected<T>(o: Outcome<T>): (r: Outcome<T>)
    ensures o.Returned? ==> r == o
    ensures o.Raised? && o.exc.HttpException? ==> r == o
    ensures o.Raised? && o.exc.OtherException? ==> r == Raised(HttpException(OperationFailed))
  {
    match o
    case Raised(OtherException(_)) => Raised(HttpException(OperationFailed))
    case _ => o
  }

  /** After the guard only HTTP errors reach the caller, and guarding twice changes nothing. */
  lemma ProtectedOnlyHttp<T>(o: Outcome<T>)
    ensures Protected(o).Raised? ==> Protected(o).exc.HttpException?
    ensures Protected(Protected(o)) == Protected(o)
  {
  }

  // ---------------------------------------------------------------------------------
  // Router construction: endpoint gating and exclusion lists.
  // ---------------------------------------------------------------------------------

  /** `CrudEndpoint`. */
  datatype Endpoint = List | Get | Create | Update | Delete | Restore | ListDeleted

  /** The endpoints `make_crud_router` registers: every one not disabled, restore and
      list_deleted only for a soft-delete model. */
  function Registered(disabled: set<Endpoint>, softDelete: bool): set<Endpoint> {
    (set e | e in {List, Create, Get, Update, Delete} && e !in disabled)
    + (if softDelete then set e | e in {Restore, ListDeleted} && e !in disabled else {})
  }

  /** An endpoint is registered iff it is not disabled and, for restore and list_deleted,
      the model has soft delete. */
  lemma RegisteredIff(disabled: set<Endpoint>, softDelete: bool, e: Endpoint)
    ensures e in Registered(disabled, softDelete) <==>
      e !in disabled && (e == Restore || e == ListDeleted ==> softDelete)
  {
    match e
    case List =>
    case Get =>
    case Create =>
    case Update =>
    case Delete =>
    case Restore =>
    case ListDeleted =>
  }

  const AlwaysExcluded := ["id", "created_at", "updated_at"]
  const SoftDeleteColumns := ["is_soft_deleted", "soft_deleted_at"]

  /** The exclusion list of a generated create or update schema: the caller's list, then
      the primary key and timestamps, then the soft-delete columns when the model has them. */
  function GeneratedExcludeList(given: Option<seq<string>>, softDelete: bool): (ex: seq<string>)
    ensures |Schema.ExcludeList(given)| <= |ex| && ex[..|Schema.ExcludeList(given)|] == Schema.ExcludeList(given)
    ensures forall x :: x in ex <==>
      x in Schema.ExcludeList(given) || x in AlwaysExcluded || (softDelete && x in SoftDeleteColumns)
  {
    Schema.ExcludeList(given) + AlwaysExcluded + (if softDelete then SoftDeleteColumns else [])
  }

  /** The list as `make_crud_router` builds it, extended in place for a soft-delete model. */
  method GeneratedExclude(given: Option<seq<string>>, softDelete: bool) returns (ex: seq<string>)
    ensures ex == GeneratedExcludeList(given, softDelete)
  {
    ex := Schema.ExcludeList(given) + AlwaysExcluded;
    if softDelete {
      ex := ex + SoftDeleteColumns;
    }
  }

  /** A model as the router factory sees it: its class name, its mapper attributes, whether
      it has the soft-delete columns (`hasattr(model, "is_soft_deleted")`), the columns
      the database keeps unique, and the scalar `default=` of each column that has one. */
  datatype Model = Model(name: string, attrs: seq<Schema.MapperAttr>, softDelete: bool, unique: set<string>,
                         defaults: map<string, Value>)

  /** What `make_crud_router` builds: the prefix, the three schemas and the endpoints. */
  datatype CrudRouter = CrudRouter(
    prefix: string,
    schema: Schema.PydanticModel,
    createSchema: Schema.PydanticModel,
    updateSchema: Schema.PydanticModel,
    endpoints: set<Endpoint>)

  /** `make_crud_router` for a model without explicit schemas. The update schema is
      derived with `all_optional` honoured (see `Schema.CallAsWritten` for the call as it
      stands). */
  method MakeCrudRouter(m: Model, prefix: Option<string>, excludeFields: Option<seq<string>>,
                        excludeCreate: Option<seq<string>>, excludeUpdate: Option<seq<string>>,
                        disabled: set<Endpoint>)
    returns (r: Result<CrudRouter, Schema.SchemaError>)
    ensures r.Err? <==>
      || Schema.DerivedSchema(m.name, m.attrs, Some(Schema.ExcludeList(excludeFields)), false).Err?
      || Schema.DerivedSchema(m.name, m.attrs, Some(GeneratedExcludeList(excludeCreate, m.softDelete)), false).Err?
      || Schema.DerivedSchema(m.name, m.attrs, Some(GeneratedExcludeList(excludeUpdate, m.softDelete)), true).Err?
    ensures r.Err? ==>
      var read := Schema.DerivedSchema(m.name, m.attrs, Some(Schema.ExcludeList(excludeFields)), false);
      var create := Schema.DerivedSchema(m.name, m.attrs, Some(GeneratedExcludeList(excludeCreate, m.softDelete)), false);
      var update := Schema.DerivedSchema(m.name, m.attrs, Some(GeneratedExcludeList(excludeUpdate, m.softDelete)), true);
      r.error == (if read.Err? then read.error else if create.Err? then create.error else update.error)
    ensures r.Ok? ==> r.value.endpoints == Registered(disabled, m.softDelete)
    ensures r.Ok? ==> Schema.DerivedSchema(m.name, m.attrs, Some(Schema.ExcludeList(excludeFields)), false) == Ok(r.value.schema)
    ensures r.Ok? ==> Schema.DerivedSchema(m.name, m.attrs, Some(GeneratedExcludeList(excludeCreate, m.softDelete)), false) == Ok(r.value.createSchema)
    ensures r.Ok? ==> Schema.DerivedSchema(m.name, m.attrs, Some(GeneratedExcludeList(excludeUpdate, m.softDelete)), true) == Ok(r.value.updateSchema)
    ensures r.Ok? ==> r.value.prefix == if prefix.None? || prefix.value == "" then "/" + Lower(m.name) else prefix.value
    ensures r.Ok? ==> forall x :: x in AlwaysExcluded || (m.softDelete && x in SoftDeleteColumns) ==>
      x !in r.value.createSchema.fields && x !in r.value.updateSchema.fields
    ensures r.Ok? ==> forall x :: x in Schema.ExcludeList(excludeCreate) ==> x !in r.value.createSchema.fields
    ensures r.Ok? ==> forall x :: x in Schema.ExcludeList(excludeUpdate) ==> x !in r.value.updateSchema.fields
    ensures r.Ok? ==> forall x :: x in r.value.updateSchema.fields ==>
      r.value.updateSchema.fields[x].default == Schema.DefaultNone
  {
    var schema := Schema.SqlalchemyToPydantic(m.name, m.attrs, Some(Schema.ExcludeList(excludeFields)));
    if schema.Err? {
      return Err(schema.error);
    }
    var createExclude := GeneratedExclude(excludeCreate, m.softDelete);
    var createSchema := Schema.SqlalchemyToPydantic(m.name, m.attrs, Some(createExclude));
    if createSchema.Err? {
      return Err(createSchema.error);
    }
    var updateExclude := GeneratedExclude(excludeUpdate, m.softDelete);
    var updateSchema := Schema.SqlalchemyToPydantic(m.name, m.attrs, Some(updateExclude), allOptional := true);
    if updateSchema.Err? {
      return Err(updateSchema.error);
    }
    forall x | x in createExclude
      ensures x !in createSchema.value.fields
    {
      Schema.ExcludedNeverField(m.attrs, createExclude, false, x);
    }
    forall x | x in updateExclude
      ensures x !in updateSchema.value.fields
    {
      Schema.ExcludedNeverField(m.attrs, updateExclude, true, x);
    }
    Schema.AllOptionalFields(m.attrs, updateExclude);
    var p := if prefix.None? || prefix.value == "" then "/" + Lower(m.name) else prefix.value;
    r := Ok(CrudRouter(p, schema.value, createSchema.value, updateSchema.value, Registered(disabled, m.softDelete)));
  }

  // ---------------------------------------------------------------------------------
  // The table and its consistency.
  // ---------------------------------------------------------------------------------

  /** One model's table, in insertion order. */
  datatype Store = Store(rows: seq<Row>)

  /** The id the database gives a row inserted without one. The primary key is a plain
      `INTEGER PRIMARY KEY` on SQLite, without AUTOINCREMENT, so a new row gets one more
      than the largest id present, or 1 in an empty table; an id freed by a hard delete
      of the newest row is handed out again. */
  function NextRowId(rows: seq<Row>): (n: int)
    ensures forall r :: r in rows ==> r.id < n
    ensures rows == [] ==> n == 1
    ensures rows != [] ==> exists r :: r in rows && r.id == n - 1
  {
    if rows == [] then 1
    else if |rows| == 1 then rows[0].id + 1
    else
      var n := NextRowId(rows[..|rows| - 1]);
      var last := rows[|rows| - 1];
      assert forall r :: r in rows ==> r in rows[..|rows| - 1] || r == last;
      if last.id + 1 > n then last.id + 1 else n
  }

  /** Two rows hold the same non-NULL value in a unique column. */
  predicate Clash(m: Model, a: Row, b: Row) {
    exists k :: k in m.unique && k in a.fields && k in b.fields && a.fields[k] != VNone && a.fields[k] == b.fields[k]
  }

  /** Committing `row` would break a unique constraint against another row of the table,
      soft-deleted rows included. */
  predicate Conflicts(m: Model, rows: seq<Row>, row: Row) {
    exists k :: 0 <= k < |rows| && rows[k].id != row.id && Clash(m, rows[k], row)
  }

  predicate Compatible(m: Model, a: Row, b: Row) {
    a.id != b.id && !Clash(m, a, b)
  }

  ghost predicate Pairwise(m: Model, rows: seq<Row>) {
    forall i, j :: 0 <= i < |rows| && 0 <= j < |rows| && i != j ==> Compatible(m, rows[i], rows[j])
  }

  /** Distinct positive primary keys, no unique column duplicated, and no flagged row in a
      model without soft delete. */
  ghost predicate ValidStore(m: Model, s: Store) {
    && (forall r :: r in s.rows ==> 1 <= r.id && (!m.softDelete ==> !r.isSoftDeleted))
    && Pairwise(m, s.rows)
  }

  // ---------------------------------------------------------------------------------
  // The handlers, each wrapped in `protected`.
  // ---------------------------------------------------------------------------------

  /** `list_items`: a page of the rows `base_query` selects. */
  function ListItems(m: Model, s: Store, page: nat, pageSize: nat): seq<Row> {
    Query.Paginate(Query.BaseQuery(m.softDelete, s.rows), page * pageSize, pageSize)
  }

  /** `get_item`. */
  function GetItem(m: Model, s: Store, id: int): Outcome<Row> {
    Protected(
      match Query.FindId(Query.BaseQuery(m.softDelete, s.rows), id)
      case None => Raised(HttpException(NotFound))
      case Some(row) => Returned(row))
  }

  /** The columns the INSERT for `model(**item.dict())` stores. The ORM leaves an attribute
      holding `None` out of the INSERT, so a column with a default gets that default, and
      one without stays NULL; a column the body does not mention gets its default too. */
  function InsertedFields(defaults: map<string, Value>, item: map<string, Value>): (f: map<string, Value>)
    ensures f.Keys == item.Keys + defaults.Keys
    ensures forall k :: k in item && item[k] != VNone ==> f[k] == item[k]
    ensures forall k :: k in defaults && (k !in item || item[k] == VNone) ==> f[k] == defaults[k]
    ensures forall k :: k in item && item[k] == VNone && k !in defaults ==> f[k] == VNone
  {
    map k | k in item.Keys + defaults.Keys ::
      if k in item && item[k] != VNone then item[k] else if k in defaults then defaults[k] else VNone
  }

  /** `create_item`: the validated body, with the column defaults filled in, becomes a new
      row with the id the database allocates; a commit that breaks a unique constraint
      rolls back. */
  function CreateItem(m: Model, s: Store, item: map<string, Value>): (Outcome<Row>, Store) {
    var row := Row(NextRowId(s.rows), InsertedFields(m.defaults, item), false);
    if Conflicts(m, s.rows, row) then (Protected(Raised(IntegrityError)), s)
    else (Protected(Returned(row)), Store(s.rows + [row]))
  }

  /** `update_item`: the explicitly set fields of the body overwrite those of the row. */
  function UpdateItem(m: Model, s: Store, id: int, patch: map<string, Value>): (Outcome<Row>, Store) {
    match Query.FindId(Query.BaseQuery(m.softDelete, s.rows), id)
    case None => (Protected(Raised(HttpException(NotFound))), s)
    case Some(row) =>
      var updated := row.(fields := row.fields + patch);
      if Conflicts(m, s.rows, updated) then (Protected(Raised(IntegrityError)), s)
      else (Protected(Returned(updated)), s.(rows := Query.ReplaceId(s.rows, updated)))
  }

  /** `delete_item`: soft delete unless `hard` is asked for; a model without soft delete
      has no `hard` parameter and always removes the row. */
  function DeleteItem(m: Model, s: Store, id: int, hard: bool): (Outcome<string>, Store) {
    match Query.FindId(Query.BaseQuery(m.softDelete, s.rows), id)
    case None => (Protected(Raised(HttpException(NotFound))), s)
    case Some(row) =>
      if m.softDelete && !hard then
        (Protected(Returned(SoftDeletedMessage)), s.(rows := Query.ReplaceId(s.rows, row.(isSoftDeleted := true))))
      else
        (Protected(Returned(DeletedMessage)), s.(rows := Query.RemoveId(s.rows, id)))
  }

  /** `restore_item` (soft-delete models only): looked up with a plain select, so it sees
      soft-deleted rows. */
  function RestoreItem(m: Model, s: Store, id: int): (Outcome<Row>, Store)
    requires m.softDelete
  {
    match Query.FindId(s.rows, id)
    case None => (Protected(Raised(HttpException(NotFound))), s)
    case Some(row) =>
      if !row.isSoftDeleted then (Protected(Raised(HttpException(NotSoftDeleted))), s)
      else
        var restored := row.(isSoftDeleted := false);
        (Protected(Returned(restored)), s.(rows := Query.ReplaceId(s.rows, restored)))
  }

  /** `list_deleted_items` (soft-delete models only): a page of `query_deleted`. */
  function ListDeletedItems(m: Model, s: Store, page: nat, pageSize: nat): seq<Row>
    requires m.softDelete
  {
    Query.Paginate(Query.QueryDeleted(m.softDelete, s.rows), page * pageSize, pageSize)
  }

  // ---------------------------------------------------------------------------------
  // Helper facts about the table.
  // ---------------------------------------------------------------------------------

  lemma BaseQueryMember(softDelete: bool, rows: seq<Row>, row: Row)
    ensures row in Query.BaseQuery(softDelete, rows) <==> row in rows && (softDelete ==> !row.isSoftDeleted)
  {
    if softDelete {
      Query.BaseQuerySelectsLive(rows, row);
    }
  }

  /** In a valid table, a row with the id is found by the lookup any query runs. */
  lemma FindLive(m: Model, s: Store, id: int)
    requires ValidStore(m, s)
    ensures Query.FindId(Query.BaseQuery(m.softDelete, s.rows), id).Some? <==>
      exists r :: r in s.rows && r.id == id && (m.softDelete ==> !r.isSoftDeleted)
    ensures Query.FindId(Query.BaseQuery(m.softDelete, s.rows), id).Some? ==>
      var r := Query.FindId(Query.BaseQuery(m.softDelete, s.rows), id).value;
      r in s.rows && r.id == id && (m.softDelete ==> !r.isSoftDeleted)
  {
    var q := Query.BaseQuery(m.softDelete, s.rows);
    if exists r :: r in s.rows && r.id == id && (m.softDelete ==> !r.isSoftDeleted) {
      var r :| r in s.rows && r.id == id && (m.softDelete ==> !r.isSoftDeleted);
      BaseQueryMember(m.softDelete, s.rows, r);
      var k :| 0 <= k < |q| && q[k] == r;
    }
    if Query.FindId(q, id).Some? {
      BaseQueryMember(m.softDelete, s.rows, Query.FindId(q, id).value);
    }
  }

  /** Distinct ids: two rows of the table with the same id are the same position. */
  lemma SameIdSamePosition(m: Model, s: Store, i: int, j: int)
    requires ValidStore(m, s) && 0 <= i < |s.rows| && 0 <= j < |s.rows| && s.rows[i].id == s.rows[j].id
    ensures i == j
  {
    assert i != j ==> Compatible(m, s.rows[i], s.rows[j]);
  }

  lemma ClashSymmetric(m: Model, a: Row, b: Row)
    ensures Clash(m, a, b) <==> Clash(m, b, a)
  {
  }

  /** Writing back a row under its own id keeps the table valid when the row clashes with
      no other row and keeps the flag rule. */
  lemma ReplaceKeepsValid(m: Model, s: Store, row: Row)
    requires ValidStore(m, s)
    requires exists k :: 0 <= k < |s.rows| && s.rows[k].id == row.id
    requires !m.softDelete ==> !row.isSoftDeleted
    requires forall k :: 0 <= k < |s.rows| && s.rows[k].id != row.id ==> !Clash(m, s.rows[k], row)
    ensures ValidStore(m, s.(rows := Query.ReplaceId(s.rows, row)))
  {
    var rows' := Query.ReplaceId(s.rows, row);
    forall r | r in rows'
      ensures 1 <= r.id && (!m.softDelete ==> !r.isSoftDeleted)
    {
      var k :| 0 <= k < |rows'| && rows'[k] == r;
      assert s.rows[k] in s.rows;
      if s.rows[k].id == row.id {
        assert r == row;
      }
    }
    forall i, j | 0 <= i < |rows'| && 0 <= j < |rows'| && i != j
      ensures Compatible(m, rows'[i], rows'[j])
    {
      if s.rows[i].id == row.id {
        assert Compatible(m, s.rows[i], s.rows[j]);
        ClashSymmetric(m, s.rows[j], row);
      } else if s.rows[j].id == row.id {
        assert !Clash(m, s.rows[i], row);
      } else {
        assert Compatible(m, s.rows[i], s.rows[j]);
      }
    }
  }

  lemma {:induction false} RemoveKeepsPairwise(m: Model, rows: seq<Row>, id: int)
    requires Pairwise(m, rows)
    ensures Pairwise(m, Query.RemoveId(rows, id))
  {
    if rows != [] {
      var init, last := rows[..|rows| - 1], rows[|rows| - 1];
      assert Pairwise(m, init) by {
        forall i, j | 0 <= i < |init| && 0 <= j < |init| && i != j
          ensures Compatible(m, init[i], init[j])
        {
          assert init[i] == rows[i] && init[j] == rows[j];
        }
      }
      RemoveKeepsPairwise(m, init, id);
      var rest := Query.RemoveId(init, id);
      if last.id != id {
        var rows' := rest + [last];
        forall i, j | 0 <= i < |rows'| && 0 <= j < |rows'| && i != j
          ensures Compatible(m, rows'[i], rows'[j])
        {
          if i < |rest| && j < |rest| {
            assert rows'[i] == rest[i] && rows'[j] == rest[j];
          } else {
            var x := if i < |rest| then rest[i] else rest[j];
            assert x in rest;
            Query.RemoveIdSelects(init, id, x);
            var k :| 0 <= k < |init| && init[k] == x;
            assert rows[k] == x && rows[|rows| - 1] == last;
            assert Compatible(m, rows[k], last) && Compatible(m, last, rows[k]);
          }
        }
      }
    }
  }

  lemma RemoveKeepsValid(m: Model, s: Store, id: int)
    requires ValidStore(m, s)
    ensures ValidStore(m, s.(rows := Query.RemoveId(s.rows, id)))
  {
    RemoveKeepsPairwise(m, s.rows, id);
    forall r | r in Query.RemoveId(s.rows, id)
      ensures r in s.rows
    {
      Query.RemoveIdSelects(s.rows, id, r);
    }
  }

  // ---------------------------------------------------------------------------------
  // Every handler keeps the table valid.
  // ---------------------------------------------------------------------------------

  lemma CreateKeepsValid(m: Model, s: Store, item: map<string, Value>)
    requires ValidStore(m, s)
    ensures ValidStore(m, CreateItem(m, s, item).1)
  {
    var row := Row(NextRowId(s.rows), InsertedFields(m.defaults, item), false);
    if !Conflicts(m, s.rows, row) {
      var rows' := s.rows + [row];
      forall i, j | 0 <= i < |rows'| && 0 <= j < |rows'| && i != j
        ensures Compatible(m, rows'[i], rows'[j])
      {
        if i < |s.rows| && j < |s.rows| {
          assert Compatible(m, s.rows[i], s.rows[j]);
        } else {
          var k := if i < |s.rows| then i else j;
          assert s.rows[k] in s.rows;
          ClashSymmetric(m, s.rows[k], row);
        }
      }
    }
  }

  lemma UpdateKeepsValid(m: Model, s: Store, id: int, patch: map<string, Value>)
    requires ValidStore(m, s)
    ensures ValidStore(m, UpdateItem(m, s, id, patch).1)
  {
    FindLive(m, s, id);
    var found := Query.FindId(Query.BaseQuery(m.softDelete, s.rows), id);
    if found.Some? {
      var updated := found.value.(fields := found.value.fields + patch);
      if !Conflicts(m, s.rows, updated) {
        var k :| 0 <= k < |s.rows| && s.rows[k] == found.value;
        ReplaceKeepsValid(m, s, updated);
      }
    }
  }

  lemma DeleteKeepsValid(m: Model, s: Store, id: int, hard: bool)
    requires ValidStore(m, s)
    ensures ValidStore(m, DeleteItem(m, s, id, hard).1)
  {
    FindLive(m, s, id);
    var found := Query.FindId(Query.BaseQuery(m.softDelete, s.rows), id);
    if found.Some? {
      if m.softDelete && !hard {
        var row := found.value;
        var k :| 0 <= k < |s.rows| && s.rows[k] == row;
        forall j | 0 <= j < |s.rows| && s.rows[j].id != row.id
          ensures !Clash(m, s.rows[j], row.(isSoftDeleted := true))
        {
          assert Compatible(m, s.rows[j], s.rows[k]);
        }
        ReplaceKeepsValid(m, s, row.(isSoftDeleted := true));
      } else {
        RemoveKeepsValid(m, s, id);
      }
    }
  }

  lemma RestoreKeepsValid(m: Model, s: Store, id: int)
    requires m.softDelete && ValidStore(m, s)
    ensures ValidStore(m, RestoreItem(m, s, id).1)
  {
    var found := Query.FindId(s.rows, id);
    if found.Some? && found.value.isSoftDeleted {
      var row := found.value;
      var k :| 0 <= k < |s.rows| && s.rows[k] == row;
      forall j | 0 <= j < |s.rows| && s.rows[j].id != row.id
        ensures !Clash(m, s.rows[j], row.(isSoftDeleted := false))
      {
        assert Compatible(m, s.rows[j], s.rows[k]);
      }
      ReplaceKeepsValid(m, s, row.(isSoftDeleted := false));
    }
  }

  // ---------------------------------------------------------------------------------
  // What the handlers do.
  // ---------------------------------------------------------------------------------

  /** Get answers the row with that id when a non-deleted one exists, and 404 otherwise. */
  lemma GetFindsLive(m: Model, s: Store, id: int)
    requires ValidStore(m, s)
    ensures GetItem(m, s, id).Returned? <==>
      exists r :: r in s.rows && r.id == id && (m.softDelete ==> !r.isSoftDeleted)
    ensures GetItem(m, s, id).Returned? ==>
      var r := GetItem(m, s, id).value;
      r in s.rows && r.id == id && (m.softDelete ==> !r.isSoftDeleted)
    ensures GetItem(m, s, id).Raised? ==> GetItem(m, s, id) == Raised(HttpException(NotFound))
  {
    FindLive(m, s, id);
  }

  /** A page of the list is the stretch of non-deleted rows, in table order, that starts
      at `page * pageSize` and is at most `pageSize` long. */
  lemma ListIsPage(m: Model, s: Store, page: nat, pageSize: nat)
    ensures |ListItems(m, s, page, pageSize)| <= pageSize
    ensures forall k :: 0 <= k < |ListItems(m, s, page, pageSize)| ==>
      var r := ListItems(m, s, page, pageSize)[k];
      r == Query.BaseQuery(m.softDelete, s.rows)[page * pageSize + k] && r in s.rows && (m.softDelete ==> !r.isSoftDeleted)
  {
    var q := Query.BaseQuery(m.softDelete, s.rows);
    forall k | 0 <= k < |ListItems(m, s, page, pageSize)|
      ensures ListItems(m, s, page, pageSize)[k] in s.rows
      ensures m.softDelete ==> !ListItems(m, s, page, pageSize)[k].isSoftDeleted
    {
      assert q[page * pageSize + k] in q;
      BaseQueryMember(m.softDelete, s.rows, q[page * pageSize + k]);
    }
  }

  /** With the default page size, page 1 is items 11 to 20 of the non-deleted rows. */
  lemma SecondPage(m: Model, s: Store)
    requires |Query.BaseQuery(m.softDelete, s.rows)| >= 20
    ensures ListItems(m, s, 1, 10) == Query.BaseQuery(m.softDelete, s.rows)[10..20]
  {
  }

  /** A successful create appends one new, non-deleted row with a fresh id holding the
      body with the column defaults filled in, which get then finds. */
  lemma CreateAppends(m: Model, s: Store, item: map<string, Value>)
    requires ValidStore(m, s)
    requires CreateItem(m, s, item).0.Returned?
    ensures var (o, s') := CreateItem(m, s, item);
      && o.value == Row(NextRowId(s.rows), InsertedFields(m.defaults, item), false)
      && s'.rows == s.rows + [o.value]
      && (forall r :: r in s.rows ==> r.id != o.value.id)
      && GetItem(m, s', o.value.id) == Returned(o.value)
  {
    CreateKeepsValid(m, s, item);
    var (o, s') := CreateItem(m, s, item);
    assert o.value in s'.rows;
    GetFindsLive(m, s', o.value.id);
    var r := GetItem(m, s', o.value.id).value;
    var k :| 0 <= k < |s'.rows| && s'.rows[k] == r;
    SameIdSamePosition(m, s', k, |s'.rows| - 1);
  }

  /** A create whose unique column repeats the value of any row, even a soft-deleted one,
      is answered 400 "Operation failed" and changes nothing. */
  lemma CreateUniqueViolation(m: Model, s: Store, item: map<string, Value>, other: Row, k: string)
    requires ValidStore(m, s)
    requires other in s.rows && k in m.unique && k in item && k in other.fields
    requires item[k] != VNone && item[k] == other.fields[k]
    ensures CreateItem(m, s, item) == (Raised(HttpException(OperationFailed)), s)
  {
    var j :| 0 <= j < |s.rows| && s.rows[j] == other;
    assert Clash(m, s.rows[j], Row(NextRowId(s.rows), InsertedFields(m.defaults, item), false));
  }

  /** A failed update leaves the table as it was: 404 when no non-deleted row has the id,
      400 "Operation failed" when the patch would break a unique constraint. */
  lemma UpdateFailure(m: Model, s: Store, id: int, patch: map<string, Value>)
    requires ValidStore(m, s)
    requires UpdateItem(m, s, id, patch).0.Raised?
    ensures UpdateItem(m, s, id, patch).1 == s
    ensures UpdateItem(m, s, id, patch).0 == Raised(HttpException(NotFound)) <==>
      !exists r :: r in s.rows && r.id == id && (m.softDelete ==> !r.isSoftDeleted)
    ensures UpdateItem(m, s, id, patch).0 == Raised(HttpException(NotFound))
         || UpdateItem(m, s, id, patch).0 == Raised(HttpException(OperationFailed))
  {
    FindLive(m, s, id);
  }

  /** `after` is `before` with the row at position p, which has id `id`, patched: the
      fields in the patch take the patch's values, every other field, the id and the flag
      stay, and every other row stays. */
  ghost predicate PatchedAt(before: seq<Row>, after: seq<Row>, p: int, id: int, patch: map<string, Value>) {
    && |after| == |before| && 0 <= p < |before|
    && before[p].id == id && after[p].id == id
    && after[p].isSoftDeleted == before[p].isSoftDeleted
    && after[p].fields.Keys == before[p].fields.Keys + patch.Keys
    && (forall f :: f in patch ==> after[p].fields[f] == patch[f])
    && (forall f :: f in before[p].fields && f !in patch ==> after[p].fields[f] == before[p].fields[f])
    && (forall q :: 0 <= q < |before| && q != p ==> after[q] == before[q])
  }

  /** A successful update patches exactly one row, the non-deleted one with that id, and
      returns it as stored. */
  lemma UpdateSetsOnlyGivenFields(m: Model, s: Store, id: int, patch: map<string, Value>)
    requires ValidStore(m, s)
    requires UpdateItem(m, s, id, patch).0.Returned?
    ensures exists p :: (PatchedAt(s.rows, UpdateItem(m, s, id, patch).1.rows, p, id, patch)
      && (m.softDelete ==> !s.rows[p].isSoftDeleted)
      && UpdateItem(m, s, id, patch).0.value == UpdateItem(m, s, id, patch).1.rows[p])
  {
    FindLive(m, s, id);
    var row := Query.FindId(Query.BaseQuery(m.softDelete, s.rows), id).value;
    var updated := row.(fields := row.fields + patch);
    var rows' := Query.ReplaceId(s.rows, updated);
    assert UpdateItem(m, s, id, patch) == (Returned(updated), s.(rows := rows'));
    var p :| 0 <= p < |s.rows| && s.rows[p] == row;
    forall q | 0 <= q < |s.rows| && q != p
      ensures rows'[q] == s.rows[q]
    {
      if s.rows[q].id == id {
        SameIdSamePosition(m, s, p, q);
      }
    }
    assert rows'[p] == updated;
    assert PatchedAt(s.rows, rows', p, id, patch);
  }

  /** Soft delete keeps the row, flagged: get no longer finds it and the deleted listing
      holds it. */
  lemma SoftDeleteHides(m: Model, s: Store, id: int)
    requires m.softDelete && ValidStore(m, s)
    requires DeleteItem(m, s, id, false).0.Returned?
    ensures var s' := DeleteItem(m, s, id, false).1;
      && DeleteItem(m, s, id, false).0 == Returned(SoftDeletedMessage)
      && |s'.rows| == |s.rows|
      && (exists r :: r in s.rows && r.id == id && !r.isSoftDeleted && r.(isSoftDeleted := true) in s'.rows)
      && GetItem(m, s', id) == Raised(HttpException(NotFound))
      && (exists r :: r in Query.QueryDeleted(true, s'.rows) && r.id == id)
  {
    FindLive(m, s, id);
    DeleteKeepsValid(m, s, id, false);
    var row := Query.FindId(Query.BaseQuery(m.softDelete, s.rows), id).value;
    var s' := DeleteItem(m, s, id, false).1;
    var p :| 0 <= p < |s.rows| && s.rows[p] == row;
    assert s'.rows[p] == row.(isSoftDeleted := true);
    Query.QueryDeletedSelectsDeleted(s'.rows, s'.rows[p]);
    forall r | r in s'.rows && r.id == id
      ensures r.isSoftDeleted
    {
      var q :| 0 <= q < |s'.rows| && s'.rows[q] == r;
      SameIdSamePosition(m, s', p, q);
    }
    GetFindsLive(m, s', id);
  }

  /** Writing back a row under an id the table holds at position p changes position p only. */
  lemma ReplaceAtPosition(m: Model, s: Store, p: int, row: Row)
    requires ValidStore(m, s) && 0 <= p < |s.rows| && s.rows[p].id == row.id
    ensures Query.ReplaceId(s.rows, row) == s.rows[p := row]
  {
    forall q | 0 <= q < |s.rows| && q != p
      ensures s.rows[q].id != row.id
    {
      if s.rows[q].id == row.id {
        SameIdSamePosition(m, s, p, q);
      }
    }
  }

  /** Soft-deleting the live row at position p flags that position and nothing else. */
  lemma SoftDeleteAt(m: Model, s: Store, p: int)
    requires m.softDelete && ValidStore(m, s) && 0 <= p < |s.rows| && !s.rows[p].isSoftDeleted
    ensures DeleteItem(m, s, s.rows[p].id, false) ==
      (Returned(SoftDeletedMessage), s.(rows := s.rows[p := s.rows[p].(isSoftDeleted := true)]))
  {
    var id := s.rows[p].id;
    FindLive(m, s, id);
    var found := Query.FindId(Query.BaseQuery(m.softDelete, s.rows), id).value;
    var q :| 0 <= q < |s.rows| && s.rows[q] == found;
    SameIdSamePosition(m, s, p, q);
    ReplaceAtPosition(m, s, p, found.(isSoftDeleted := true));
  }

  /** In a valid table, removing the id of the row at a position drops that position and
      keeps every other row in order. */
  lemma RemoveAtPosition(m: Model, s: Store, p: int)
    requires ValidStore(m, s) && 0 <= p < |s.rows|
    ensures Query.RemoveId(s.rows, s.rows[p].id) == s.rows[..p] + s.rows[p + 1..]
  {
    forall k | 0 <= k < |s.rows| && k != p
      ensures s.rows[k].id != s.rows[p].id
    {
      assert Compatible(m, s.rows[k], s.rows[p]);
    }
    Query.RemoveIdAt(s.rows, p);
  }

  /** Restoring the soft-deleted row at position p clears that position's flag and
      nothing else. */
  lemma RestoreAt(m: Model, s: Store, p: int)
    requires m.softDelete && ValidStore(m, s) && 0 <= p < |s.rows| && s.rows[p].isSoftDeleted
    ensures RestoreItem(m, s, s.rows[p].id) ==
      (Returned(s.rows[p].(isSoftDeleted := false)), s.(rows := s.rows[p := s.rows[p].(isSoftDeleted := false)]))
  {
    var id := s.rows[p].id;
    var found := Query.FindId(s.rows, id);
    assert found.Some?;
    var q :| 0 <= q < |s.rows| && s.rows[q] == found.value;
    SameIdSamePosition(m, s, p, q);
    ReplaceAtPosition(m, s, p, found.value.(isSoftDeleted := false));
  }

  /** Restoring a row right after soft-deleting it gives back the table exactly as it was. */
  lemma SoftDeleteThenRestore(m: Model, s: Store, id: int)
    requires m.softDelete && ValidStore(m, s)
    requires DeleteItem(m, s, id, false).0.Returned?
    ensures var s' := DeleteItem(m, s, id, false).1;
      && RestoreItem(m, s', id).0.Returned?
      && RestoreItem(m, s', id).1 == s
      && GetItem(m, RestoreItem(m, s', id).1, id) == GetItem(m, s, id)
  {
    FindLive(m, s, id);
    var row := Query.FindId(Query.BaseQuery(m.softDelete, s.rows), id).value;
    var p :| 0 <= p < |s.rows| && s.rows[p] == row;
    SoftDeleteAt(m, s, p);
    DeleteKeepsValid(m, s, id, false);
    var s' := DeleteItem(m, s, id, false).1;
    RestoreAt(m, s', p);
    assert s'.rows[p := row] == s.rows;
  }

  /** Hard delete, and any delete of a model without soft delete, removes the row for
      good: no row keeps the id, and get and restore answer 404. */
  lemma HardDeleteIsFinal(m: Model, s: Store, id: int, hard: bool)
    requires ValidStore(m, s)
    requires hard || !m.softDelete
    requires DeleteItem(m, s, id, hard).0.Returned?
    ensures var s' := DeleteItem(m, s, id, hard).1;
      && DeleteItem(m, s, id, hard).0 == Returned(DeletedMessage)
      && (exists r :: r in s.rows && r.id == id)
      && (forall r :: r in s'.rows <==> r in s.rows && r.id != id)
      && GetItem(m, s', id) == Raised(HttpException(NotFound))
      && (m.softDelete ==> RestoreItem(m, s', id).0 == Raised(HttpException(NotFound)))
  {
    FindLive(m, s, id);
    var s' := DeleteItem(m, s, id, hard).1;
    forall r
      ensures r in s'.rows <==> r in s.rows && r.id != id
    {
      Query.RemoveIdSelects(s.rows, id, r);
    }
    DeleteKeepsValid(m, s, id, hard);
    GetFindsLive(m, s', id);
  }

  /** Hard-deleting the row with the largest id gives that id back to the database: the
      next create gets an id no larger than the deleted one, and exactly the deleted one
      when the id just below it is still in use. */
  lemma HardDeleteReusesId(m: Model, s: Store, id: int, hard: bool)
    requires ValidStore(m, s)
    requires hard || !m.softDelete
    requires DeleteItem(m, s, id, hard).0.Returned?
    requires NextRowId(s.rows) == id + 1
    ensures NextRowId(DeleteItem(m, s, id, hard).1.rows) <= id
    ensures (exists r :: r in s.rows && r.id == id - 1) ==> NextRowId(DeleteItem(m, s, id, hard).1.rows) == id
  {
    HardDeleteIsFinal(m, s, id, hard);
    var s' := DeleteItem(m, s, id, hard).1;
    if exists r :: r in s.rows && r.id == id - 1 {
      var r :| r in s.rows && r.id == id - 1;
      assert r in s'.rows;
    }
  }

  /** Restore answers 404 when no row at all has the id and 400 "Item is not soft
      deleted" when the row is live; either way the table is unchanged. */
  lemma RestoreErrors(m: Model, s: Store, id: int)
    requires m.softDelete && ValidStore(m, s)
    ensures RestoreItem(m, s, id).0 == Raised(HttpException(NotFound)) <==>
      !exists r :: r in s.rows && r.id == id
    ensures RestoreItem(m, s, id).0 == Raised(HttpException(NotSoftDeleted)) <==>
      exists r :: r in s.rows && r.id == id && !r.isSoftDeleted
    ensures RestoreItem(m, s, id).0.Raised? ==> RestoreItem(m, s, id).1 == s
  {
    var found := Query.FindId(s.rows, id);
    if exists r :: r in s.rows && r.id == id {
      var r :| r in s.rows && r.id == id;
      var k :| 0 <= k < |s.rows| && s.rows[k] == r;
      assert found.Some?;
      var q :| 0 <= q < |s.rows| && s.rows[q] == found.value;
      SameIdSamePosition(m, s, k, q);
      assert forall r' :: r' in s.rows && r'.id == id ==> r' == found.value by {
        forall r' | r' in s.rows && r'.id == id
          ensures r' == found.value
        {
          var k' :| 0 <= k' < |s.rows| && s.rows[k'] == r';
          SameIdSamePosition(m, s, k', q);
        }
      }
    }
  }

  /** A successful restore clears the flag of the soft-deleted row with the id, and get
      finds the row again. */
  lemma RestoreMakesVisible(m: Model, s: Store, id: int)
    requires m.softDelete && ValidStore(m, s)
    requires RestoreItem(m, s, id).0.Returned?
    ensures exists r :: (r in s.rows && r.id == id && r.isSoftDeleted &&
      RestoreItem(m, s, id).0.value == r.(isSoftDeleted := false))
    ensures GetItem(m, RestoreItem(m, s, id).1, id) == RestoreItem(m, s, id).0
  {
    var found := Query.FindId(s.rows, id);
    var restored := found.value.(isSoftDeleted := false);
    var s' := s.(rows := Query.ReplaceId(s.rows, restored));
    assert RestoreItem(m, s, id) == (Returned(restored), s');
    RestoreKeepsValid(m, s, id);
    var p :| 0 <= p < |s.rows| && s.rows[p] == found.value;
    assert s'.rows[p] == restored;
    GetFindsLive(m, s', id);
    var r := GetItem(m, s', id).value;
    var q :| 0 <= q < |s'.rows| && s'.rows[q] == r;
    SameIdSamePosition(m, s', p, q);
  }

  /** The deleted listing only ever shows soft-deleted rows of the table, in table order. */
  lemma ListDeletedOnlyDeleted(m: Model, s: Store, page: nat, pageSize: nat)
    requires m.softDelete
    ensures |ListDeletedItems(m, s, page, pageSize)| <= pageSize
    ensures forall k :: 0 <= k < |ListDeletedItems(m, s, page, pageSize)| ==>
      var r := ListDeletedItems(m, s, page, pageSize)[k];
      r == Query.QueryDeleted(true, s.rows)[page * pageSize + k] && r in s.rows && r.isSoftDeleted
  {
    var q := Query.QueryDeleted(true, s.rows);
    forall k | 0 <= k < |ListDeletedItems(m, s, page, pageSize)|
      ensures ListDeletedItems(m, s, page, pageSize)[k] in s.rows
      ensures ListDeletedItems(m, s, page, pageSize)[k].isSoftDeleted
    {
      assert q[page * pageSize + k] in q;
      Query.QueryDeletedSelectsDeleted(s.rows, q[page * pageSize + k]);
    }
  }
}
