/** The post router (src/fastbg/router/post.py): the generic router with update and delete
    disabled, replaced by versions guarded by an ownership check on `author_id`. */
module PostRouter {
  import opened Wrappers
  import opened Db
  import opened Http
  import Query
  import Schema
  import opened Crud
  import CrudTable
  import Authorization

  const Disabled: set<Endpoint> := {Update, Delete}

  /** The exclusions of the dedicated update schema. */
  const UpdateExclude := ["id", "created_at", "updated_at", "is_soft_deleted", "soft_deleted_at"]

  /** `is_owner(Post, owner_field="author_id")`. */
  function Owner(m: Model): Authorization.OwnerAuthorizer {
    Authorization.OwnerAuthorizer(m, ownerField := "author_id")
  }

  /** The keyword arguments the owner check reads: the path parameter `item_id`. */
  function Kwargs(id: int): map<string, int> {
    map["item_id" := id]
  }

  /** The body of the replacement `delete_item`. Without `hard` it calls `soft_delete()`,
      which a model without the soft-delete mixin lacks: that attribute error is not an
      `HTTPException` and `protected` turns it into 400. */
  function DeleteBody(m: Model, s: Store, id: int, hard: bool): (Outcome<string>, Store) {
    match Query.FindId(Query.BaseQuery(m.softDelete, s.rows), id)
    case None => (Protected(Raised(HttpException(NotFound))), s)
    case Some(row) =>
      if !hard then
        if m.softDelete then
          (Protected(Returned(SoftDeletedMessage)), s.(rows := Query.ReplaceId(s.rows, row.(isSoftDeleted := true))))
        else
          (Protected(Raised(OtherException("AttributeError"))), s)
      else
        (Protected(Returned(DeletedMessage)), s.(rows := Query.RemoveId(s.rows, id)))
  }

  /** `update_item` of the post router: the owner check, then the generic update body. */
  function OwnerUpdate(m: Model, s: Store, user: CurrentUser, id: int, patch: map<string, Value>): (Outcome<Row>, Store) {
    Authorization.Guarded(Owner(m), user, s, Kwargs(id), s0 => UpdateItem(m, s0, id, patch))
  }

  /** `delete_item` of the post router: the owner check, then the delete body. */
  function OwnerDelete(m: Model, s: Store, user: CurrentUser, id: int, hard: bool): (Outcome<string>, Store) {
    Authorization.Guarded(Owner(m), user, s, Kwargs(id), s0 => DeleteBody(m, s0, id, hard))
  }

  /** The replacement `update_item` on the post table. */
  method UpdatePost(t: CrudTable.Table, id: int, patch: map<string, Value>, user: CurrentUser) returns (r: Outcome<Row>)
    requires t.Valid()
    modifies t
    ensures t.Valid()
    ensures (r, t.State()) == OwnerUpdate(t.model, old(t.State()), user, id, patch)
  {
    var auth := Authorization.Authorize(Owner(t.model), user, t.State(), Kwargs(id));
    if auth.Raised? {
      r := Raised(auth.exc);
      return;
    }
    r := t.Update(id, patch, user);
  }

  /** The replacement `delete_item` on the post table; `hard` defaults to false. */
  method DeletePost(t: CrudTable.Table, id: int, user: CurrentUser, hard: bool := false) returns (r: Outcome<string>)
    requires t.Valid()
    modifies t
    ensures t.Valid()
    ensures (r, t.State()) == OwnerDelete(t.model, old(t.State()), user, id, hard)
  {
    var auth := Authorization.Authorize(Owner(t.model), user, t.State(), Kwargs(id));
    if auth.Raised? {
      r := Raised(auth.exc);
      return;
    }
    if hard || t.model.softDelete {
      DeleteBodyIsGeneric(t.model, t.State(), id, hard);
      r := t.Delete(id, user, hard);
    } else {
      var found := Query.FindId(Query.BaseQuery(t.model.softDelete, t.rows), id);
      if found.None? {
        r := Protected(Raised(HttpException(NotFound)));
      } else {
        r := Protected(Raised(OtherException("AttributeError")));
      }
    }
  }

  /** On a model without soft delete the owner's default delete, which calls the missing
      `soft_delete()`, is answered 400 "Operation failed" and changes nothing. */
  lemma OwnerDeleteWithoutSoftDelete(m: Model, s: Store, user: CurrentUser, id: int, post: Row)
    requires !m.softDelete && ValidStore(m, s) && id != 0
    requires post in s.rows && post.id == id && Attr(post, "author_id") == VInt(user.id)
    ensures DeleteBody(m, s, id, false) == (Raised(HttpException(OperationFailed)), s)
    ensures OwnerDelete(m, s, user, id, false) == (Raised(HttpException(OperationFailed)), s)
  {
    Authorization.CheckIff(Owner(m), user, s, Kwargs(id));
    FindLive(m, s, id);
  }

  /** Wherever the generic delete exists with the same behaviour, the post delete body is
      that delete: always for a soft-delete model, and for a hard delete. */
  lemma DeleteBodyIsGeneric(m: Model, s: Store, id: int, hard: bool)
    requires m.softDelete || hard
    ensures DeleteBody(m, s, id, hard) == DeleteItem(m, s, id, hard)
  {
  }

  /** A caller who does not own the post is refused with 401 and the table is unchanged,
      for update and for delete. */
  lemma NonOwnerRefused(m: Model, s: Store, user: CurrentUser, id: int, patch: map<string, Value>, hard: bool, post: Row)
    requires ValidStore(m, s)
    requires post in s.rows && post.id == id && Attr(post, "author_id") != VInt(user.id)
    ensures OwnerUpdate(m, s, user, id, patch) == (Raised(HttpException(Authorization.NotAuthorized)), s)
    ensures OwnerDelete(m, s, user, id, hard) == (Raised(HttpException(Authorization.NotAuthorized)), s)
  {
    Authorization.CheckIff(Owner(m), user, s, Kwargs(id));
    forall r | r in s.rows && r.id == id
      ensures r == post
    {
      var p :| 0 <= p < |s.rows| && s.rows[p] == post;
      var q :| 0 <= q < |s.rows| && s.rows[q] == r;
      SameIdSamePosition(m, s, p, q);
    }
  }

  /** A missing or soft-deleted post answers 401, not the handler's 404, because the owner
      check runs first; the table is unchanged. */
  lemma MissingPostIsUnauthorized(m: Model, s: Store, user: CurrentUser, id: int, patch: map<string, Value>, hard: bool)
    requires ValidStore(m, s)
    requires !exists r :: r in s.rows && r.id == id && !(m.softDelete && r.isSoftDeleted)
    ensures OwnerUpdate(m, s, user, id, patch) == (Raised(HttpException(Authorization.NotAuthorized)), s)
    ensures OwnerDelete(m, s, user, id, hard) == (Raised(HttpException(Authorization.NotAuthorized)), s)
    ensures UpdateItem(m, s, id, patch) == (Raised(HttpException(NotFound)), s)
  {
    Authorization.CheckNeedsVisibleRow(Owner(m), user, s, Kwargs(id));
    FindLive(m, s, id);
  }

  /** The owner of a visible post gets the generic update, so exactly the fields set in
      the body change. */
  lemma OwnerUpdates(m: Model, s: Store, user: CurrentUser, id: int, patch: map<string, Value>, post: Row)
    requires ValidStore(m, s) && id != 0
    requires post in s.rows && post.id == id && !(m.softDelete && post.isSoftDeleted)
    requires Attr(post, "author_id") == VInt(user.id)
    ensures OwnerUpdate(m, s, user, id, patch) == UpdateItem(m, s, id, patch)
    ensures OwnerUpdate(m, s, user, id, patch).0.Returned? ==>
      exists p :: PatchedAt(s.rows, OwnerUpdate(m, s, user, id, patch).1.rows, p, id, patch)
  {
    Authorization.CheckIff(Owner(m), user, s, Kwargs(id));
    if UpdateItem(m, s, id, patch).0.Returned? {
      UpdateSetsOnlyGivenFields(m, s, id, patch);
    }
  }

  /** The owner of a visible post of a soft-delete model soft-deletes it by default (the
      row stays, flagged) and removes it with `hard`. */
  lemma OwnerDeletes(m: Model, s: Store, user: CurrentUser, id: int, hard: bool, post: Row)
    requires m.softDelete && ValidStore(m, s) && id != 0
    requires post in s.rows && post.id == id && !post.isSoftDeleted
    requires Attr(post, "author_id") == VInt(user.id)
    ensures var (r, s') := OwnerDelete(m, s, user, id, hard);
      && (!hard ==> r == Returned(SoftDeletedMessage) && post.(isSoftDeleted := true) in s'.rows
                    && GetItem(m, s', id) == Raised(HttpException(NotFound)))
      && (hard ==> r == Returned(DeletedMessage) && forall x :: x in s'.rows <==> x in s.rows && x.id != id)
  {
    Authorization.CheckIff(Owner(m), user, s, Kwargs(id));
    DeleteBodyIsGeneric(m, s, id, hard);
    if hard {
      FindLive(m, s, id);
      HardDeleteIsFinal(m, s, id, hard);
    } else {
      var p :| 0 <= p < |s.rows| && s.rows[p] == post;
      SoftDeleteAt(m, s, p);
      assert DeleteItem(m, s, id, false).1.rows[p] == post.(isSoftDeleted := true);
      SoftDeleteHides(m, s, id);
    }
  }

  /** The generic router of a soft-delete post model keeps list, get, create, restore and
      list_deleted, the last two without any owner check. */
  lemma PostEndpoints(softDelete: bool)
    ensures Registered(Disabled, softDelete) ==
      {List, Get, Create} + (if softDelete then {Restore, ListDeleted} else {})
  {
    forall e ensures e in Registered(Disabled, softDelete) <==>
      e in {List, Get, Create} + (if softDelete then {Restore, ListDeleted} else {})
    {
      RegisteredIff(Disabled, softDelete, e);
    }
  }

  /** The dedicated update schema has none of the id, timestamp and soft-delete fields, and
      every field it has is optional with default `None`. */
  lemma UpdateSchemaFields(m: Model)
    requires Schema.DerivedSchema(m.name, m.attrs, Some(UpdateExclude), true).Ok?
    ensures var fields := Schema.DerivedSchema(m.name, m.attrs, Some(UpdateExclude), true).value.fields;
      && (forall c :: c in UpdateExclude ==> c !in fields)
      && (forall k :: k in fields ==> fields[k].default == Schema.DefaultNone && fields[k].typ.OptionalOf?)
  {
    var fields := Schema.DerivedSchema(m.name, m.attrs, Some(UpdateExclude), true).value.fields;
    forall c | c in UpdateExclude
      ensures c !in fields
    {
      Schema.ExcludedNeverField(m.attrs, UpdateExclude, true, c);
    }
    forall k | k in fields
      ensures fields[k].default == Schema.DefaultNone && fields[k].typ.OptionalOf?
    {
      Schema.DerivedFieldShape(m.attrs, UpdateExclude, true, k);
    }
  }
}
