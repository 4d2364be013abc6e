/** Ownership authorization (src/fastbg/auth/authorization.py): an owner check over the
    model's table and the decorator that runs it before a handler. */
module Authorization {
  import opened Db
  import opened Http
  import Query
  import Crud

  const NotAuthorized := HttpError(401, "Not authorized to perform this action")

  /** `OwnerAuthorizer(model_class, id_param, owner_field)`, with the constructor's
      defaults. */
  datatype OwnerAuthorizer = OwnerAuthorizer(modelClass: Crud.Model, idParam: string := "item_id",
                                             ownerField: string := "user_id")

  /** `OwnerAuthorizer.check`. The handler's keyword arguments name the item through
      `idParam`; a missing or zero id fails at once. Otherwise the item is looked up with
      `base_query`, so a soft-deleted item is not found, and its owner field (`None` when
      the model has no such column) must equal the caller's id. */
  predicate Check(a: OwnerAuthorizer, user: CurrentUser, s: Crud.Store, kwargs: map<string, int>) {
    var itemId := if a.idParam in kwargs then VInt(kwargs[a.idParam]) else VNone;
    if !Truthy(itemId) then false
    else
      match Query.FindId(Query.BaseQuery(a.modelClass.softDelete, s.rows), itemId.i)
      case None => false
      case Some(item) => Attr(item, a.ownerField) == VInt(user.id)
  }

  /** `authorize`: raises 401 exactly when the check fails. */
  function Authorize(a: OwnerAuthorizer, user: CurrentUser, s: Crud.Store, kwargs: map<string, int>): (r: Outcome<()>)
    ensures r.Raised? <==> !Check(a, user, s, kwargs)
    ensures r.Raised? ==> r.exc == HttpException(NotAuthorized)
  {
    if Check(a, user, s, kwargs) then Returned(())
    else Raised(HttpException(NotAuthorized))
  }

  /** `is_owner(model_class, id_param, owner_field)` applied to a handler: the wrapper
      authorizes first and only then runs the handler on the table. */
  function Guarded<T>(a: OwnerAuthorizer, user: CurrentUser, s: Crud.Store, kwargs: map<string, int>,
                      handler: Crud.Store -> (Outcome<T>, Crud.Store)): (r: (Outcome<T>, Crud.Store))
    ensures !Check(a, user, s, kwargs) ==> r == (Raised(HttpException(NotAuthorized)), s)
    ensures Check(a, user, s, kwargs) ==> r == handler(s)
  {
    match Authorize(a, user, s, kwargs)
    case Raised(e) => (Raised(e), s)
    case Returned(_) => handler(s)
  }

  /** In a valid table the check holds exactly when the id argument is present and
      non-zero and a row with that id, not soft-deleted, has the caller as owner. */
  lemma CheckIff(a: OwnerAuthorizer, user: CurrentUser, s: Crud.Store, kwargs: map<string, int>)
    requires Crud.ValidStore(a.modelClass, s)
    ensures Check(a, user, s, kwargs) <==>
      && a.idParam in kwargs && kwargs[a.idParam] != 0
      && exists r :: (r in s.rows && r.id == kwargs[a.idParam] && !(a.modelClass.softDelete && r.isSoftDeleted)
           && Attr(r, a.ownerField) == VInt(user.id))
  {
    if a.idParam in kwargs && kwargs[a.idParam] != 0 {
      var id := kwargs[a.idParam];
      Crud.FindLive(a.modelClass, s, id);
      var found := Query.FindId(Query.BaseQuery(a.modelClass.softDelete, s.rows), id);
      if found.Some? {
        var p :| 0 <= p < |s.rows| && s.rows[p] == found.value;
        forall r | r in s.rows && r.id == id
          ensures r == found.value
        {
          var q :| 0 <= q < |s.rows| && s.rows[q] == r;
          Crud.SameIdSamePosition(a.modelClass, s, p, q);
        }
      }
    }
  }

  /** The check fails when no row with the id is visible to `base_query`, whoever asks. */
  lemma CheckNeedsVisibleRow(a: OwnerAuthorizer, user: CurrentUser, s: Crud.Store, kwargs: map<string, int>)
    requires Crud.ValidStore(a.modelClass, s)
    requires a.idParam in kwargs
    requires !exists r :: r in s.rows && r.id == kwargs[a.idParam] && !(a.modelClass.softDelete && r.isSoftDeleted)
    ensures !Check(a, user, s, kwargs)
  {
    Crud.FindLive(a.modelClass, s, kwargs[a.idParam]);
  }

  /** An owner field the row does not have reads as `None` and never matches a user id. */
  lemma MissingOwnerFieldFails(a: OwnerAuthorizer, user: CurrentUser, s: Crud.Store, kwargs: map<string, int>)
    requires Crud.ValidStore(a.modelClass, s)
    requires a.ownerField != "id"
    requires forall r :: r in s.rows ==> a.ownerField !in r.fields
    ensures !Check(a, user, s, kwargs)
  {
    if a.idParam in kwargs && kwargs[a.idParam] != 0 {
      Crud.FindLive(a.modelClass, s, kwargs[a.idParam]);
    }
  }

  /** The defaults of `is_owner` and of the authorizer: the id comes from `item_id` and
      the owner is read from `user_id`. */
  lemma DefaultAuthorizer(m: Crud.Model, user: CurrentUser, s: Crud.Store, id: int)
    requires Crud.ValidStore(m, s)
    ensures Check(OwnerAuthorizer(m), user, s, map["item_id" := id]) <==>
      && id != 0
      && exists r :: (r in s.rows && r.id == id && !(m.softDelete && r.isSoftDeleted)
           && Attr(r, "user_id") == VInt(user.id))
  {
    CheckIff(OwnerAuthorizer(m), user, s, map["item_id" := id]);
  }
}
