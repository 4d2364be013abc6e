/** One model's table behind the generic router (src/fastbg/router/core.py): every handler
    is a method that runs as one transaction, committed on success and rolled back when it
    raises. Each method is proved against the matching transition of module `Crud`. */
module CrudTable {
  import opened Db
  import opened Http
  import Query
  import opened Crud

  /** The `setattr` loop over the fields the body sets: those take the body's values and
      every other field keeps its own. */
  method SetFields(fields: map<string, Value>, patch: map<string, Value>) returns (result: map<string, Value>)
    ensures result.Keys == fields.Keys + patch.Keys
    ensures forall f :: f in result ==> result[f] == if f in patch then patch[f] else fields[f]
  {
    result := fields;
    var unset := patch.Keys;
    while unset != {}
      invariant unset <= patch.Keys
      invariant result == fields + map f | f in patch.Keys - unset :: patch[f]
      decreases unset
    {
      var field :| field in unset;
      result := result[field := patch[field]];
      unset := unset - {field};
    }
  }

  class Table {
    const model: Model
    /** The rows in insertion order. */
    var rows: seq<Row>

    function State(): Store
      reads this
    {
      Store(rows)
    }

    ghost predicate Valid()
      reads this
    {
      ValidStore(model, State())
    }

    constructor (m: Model)
      ensures Valid() && model == m && rows == []
    {
      model := m;
      rows := [];
    }

    /** `list_items`. */
    method List(page: nat := 0, pageSize: nat := 10) returns (items: seq<Row>)
      ensures items == ListItems(model, State(), page, pageSize)
    {
      var limit := pageSize;
      var offset := page * pageSize;
      items := Query.Paginate(Query.BaseQuery(model.softDelete, rows), offset, limit);
    }

    /** `get_item`. */
    method Get(id: int) returns (r: Outcome<Row>)
      ensures r == GetItem(model, State(), id)
    {
      var item := Query.FindId(Query.BaseQuery(model.softDelete, rows), id);
      if item.None? {
        r := Protected(Raised(HttpException(NotFound)));
      } else {
        r := Protected(Returned(item.value));
      }
    }

    /** `db.add(model(**item.dict()))`, commit and refresh, under `protected`: shared by
        the generic create and the unauthenticated user create. */
    method Insert(item: map<string, Value>) returns (r: Outcome<Row>)
      requires Valid()
      modifies this
      ensures Valid()
      ensures (r, State()) == CreateItem(model, old(State()), item)
    {
      // the database assigns the primary key and the column defaults on insert
      var dbItem := Row(NextRowId(rows), InsertedFields(model.defaults, item), false);
      CreateKeepsValid(model, State(), item);
      if Conflicts(model, rows, dbItem) {
        // the commit fails and the session rolls back
        r := Protected(Raised(IntegrityError));
        return;
      }
      rows := rows + [dbItem];
      r := Protected(Returned(dbItem));
    }

    /** `create_item`, which needs an authenticated caller. */
    method Create(item: map<string, Value>, user: CurrentUser) returns (r: Outcome<Row>)
      requires Valid()
      modifies this
      ensures Valid()
      ensures (r, State()) == CreateItem(model, old(State()), item)
    {
      r := Insert(item);
    }

    /** `update_item`: `setattr` for every explicitly set field of the body, one at a time. */
    method Update(id: int, patch: map<string, Value>, user: CurrentUser) returns (r: Outcome<Row>)
      requires Valid()
      modifies this
      ensures Valid()
      ensures (r, State()) == UpdateItem(model, old(State()), id, patch)
    {
      UpdateKeepsValid(model, State(), id, patch);
      var found := Query.FindId(Query.BaseQuery(model.softDelete, rows), id);
      if found.None? {
        r := Protected(Raised(HttpException(NotFound)));
        return;
      }
      var dbItem := found.value;
      var fields := SetFields(dbItem.fields, patch);
      assert fields == dbItem.fields + patch;
      dbItem := dbItem.(fields := fields);
      if Conflicts(model, rows, dbItem) {
        // the commit fails and the session rolls back
        r := Protected(Raised(IntegrityError));
        return;
      }
      rows := Query.ReplaceId(rows, dbItem);
      r := Protected(Returned(dbItem));
    }

    /** `delete_item`; `hard` only exists, and only matters, for a soft-delete model. */
    method Delete(id: int, user: CurrentUser, hard: bool := false) returns (r: Outcome<string>)
      requires Valid()
      modifies this
      ensures Valid()
      ensures (r, State()) == DeleteItem(model, old(State()), id, hard)
    {
      DeleteKeepsValid(model, State(), id, hard);
      var found := Query.FindId(Query.BaseQuery(model.softDelete, rows), id);
      if found.None? {
        r := Protected(Raised(HttpException(NotFound)));
        return;
      }
      var dbItem := found.value;
      if model.softDelete && !hard {
        rows := Query.ReplaceId(rows, dbItem.(isSoftDeleted := true));
        r := Protected(Returned(SoftDeletedMessage));
      } else {
        rows := Query.RemoveId(rows, dbItem.id);
        r := Protected(Returned(DeletedMessage));
      }
    }

    /** `restore_item`, registered only for a soft-delete model. */
    method Restore(id: int, user: CurrentUser) returns (r: Outcome<Row>)
      requires Valid() && model.softDelete
      modifies this
      ensures Valid()
      ensures (r, State()) == RestoreItem(model, old(State()), id)
    {
      RestoreKeepsValid(model, State(), id);
      var found := Query.FindId(rows, id);
      if found.None? {
        r := Protected(Raised(HttpException(NotFound)));
        return;
      }
      var dbItem := found.value;
      if !dbItem.isSoftDeleted {
        r := Protected(Raised(HttpException(NotSoftDeleted)));
        return;
      }
      dbItem := dbItem.(isSoftDeleted := false);
      rows := Query.ReplaceId(rows, dbItem);
      r := Protected(Returned(dbItem));
    }

    /** `list_deleted_items`, registered only for a soft-delete model. */
    method ListDeleted(user: CurrentUser, page: nat := 0, pageSize: nat := 10) returns (items: seq<Row>)
      requires model.softDelete
      ensures items == ListDeletedItems(model, State(), page, pageSize)
    {
      var limit := pageSize;
      var offset := page * pageSize;
      items := Query.Paginate(Query.QueryDeleted(model.softDelete, rows), offset, limit);
    }
  }
}
