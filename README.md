# fastbg core in Dafny

This project models the core of fastbg, a FastAPI/SQLAlchemy blog backend:

- the ORM base class: the table name derived from a class name, and `as_dict`;
- the two query builders that hide or select soft-deleted rows;
- the conversion of a mapped model into a Pydantic schema;
- the generic CRUD router factory: `protected`, the endpoint gating, the generated exclusion lists, and the list/get/create/update/delete/restore/list_deleted handlers;
- the ownership authorizer and the `is_owner` decorator;
- the post router, with owner-guarded update and delete;
- the user router, with an unauthenticated create and `login`.

Layout, one module per file:

| file | module | models |
|---|---|---|
| `wrappers.dfy` | `Wrappers` | `Option`, `Result` |
| `http.dfy` | `Http` | HTTP errors, raised exceptions, handler outcomes |
| `db.dfy` | `Db` | column values, rows, `getattr`, `__tablename__` (a loop, as in the source), `as_dict` |
| `query.dfy` | `Query` | `base_query`, `query_deleted`, offset/limit, lookup by id, write-back and delete by id |
| `schema.dfy` | `Schema` | `sqlalchemy_to_pydantic` (a loop that fills `fields`, as in the source) |
| `crud.dfy` | `Crud` | `protected`, gating, exclusion lists, `make_crud_router`, each handler as a transition of a table, and the table invariant |
| `crud_table.dfy` | `CrudTable` | class `Table`: each handler as a method that updates the table in place, proved against the transition in `Crud` |
| `authorization.dfy` | `Authorization` | `OwnerAuthorizer.check`, `authorize`, `is_owner` |
| `post.dfy` | `PostRouter` | the post router |
| `user.dfy` | `UserRouter` | the user router and `login` |

A table is a sequence of rows in insertion order. The id a new row gets is computed from them (`Crud.NextRowId`: one more than the largest id present, or 1 when the table is empty). Each row holds:

- its primary key;
- a map from column name to value;
- its `is_soft_deleted` flag.

A model is described by five things:

- its class name;
- its mapper attributes;
- whether it has the soft-delete columns;
- the set of columns the database keeps unique;
- the scalar `default=` of each column that has one (for `User`, `name` defaults to "Anonymous").

The table invariant `Crud.ValidStore` says:

- primary keys are distinct and positive;
- no two rows share a value in a unique column;
- a model without soft delete has no flagged rows.

Every handler is proved to keep the invariant. Each handler call is one atomic transaction. A commit that breaks a unique constraint raises a database error. `protected` turns that error into 400 "Operation failed", and the table is left unchanged.

The model description is a parameter everywhere. `src/fastbg/db.py` defines `User` with only `name`, and `Post` with a `content` that is not a `Column`. Nothing in the model depends on which columns a model has, beyond the five items listed above.

## Model

| member | source | states |
|---|---|---|
| Db.AsDict | src/fastbg/db.py:37-40 | one entry per table column, each holding that attribute's value |
| Db.Attr | src/fastbg/auth/authorization.py:40 | `getattr(row, name, None)`: the primary key, the soft-delete flag, a stored column, or None; `Authorization.MissingOwnerFieldFails` uses its None case |
| Db.Truthy | src/fastbg/auth/authorization.py:28-30 | Python truthiness of a value, as `if not item_id` tests it: `None`, 0, the empty string and False are falsy; `Authorization.Check` uses it |
| Db.Lower | src/fastbg/db.py:35 | same length; each character is lowered on its own |
| Db.TableName | src/fastbg/db.py:28-35 | the insert loop yields the lowered snake form of the class name; no capitals remain; the length is the name's length plus one per capital after the first character |
| Db.ScanStep | src/fastbg/db.py:33-34 | one more scanned character appends its mark and recounts the capitals |
| Db.InsertUnderscore | src/fastbg/db.py:34 | `insert(match.end() + index, "_")` lands just before the capital, as if that capital had been marked |
| Db.KeepCharacter | src/fastbg/db.py:33-34 | a character that is not a capital stays where it is |
| Db.LowerHasNoCapitals | src/fastbg/db.py:35 | a lowered string holds no ASCII capital |
| Db.MarkedLength | src/fastbg/db.py:33-34 | the scanned part grows by one underscore per capital |
| Db.TableNameLength | src/fastbg/db.py:33-35 | table name length = class name length + capitals in `cls_name[1:]` |
| Db.MarkedAt | src/fastbg/db.py:33-34 | the running `index` offset: scanned character j moves right by the capitals up to it, with `_` just before it when it is a capital |
| Db.TableNameAt | src/fastbg/db.py:30-35 | each class-name character lands, lowered, at its shifted position; the first stays at 0; an interior capital sits two places after its predecessor with `_` between, any other character one place after |
| Db.PosStep | src/fastbg/db.py:33-34 | character i lands one place after character i - 1, or two when an `_` goes before it |
| Db.StripConcat | src/fastbg/db.py:35 | removing underscores distributes over concatenation |
| Db.StripMarked | src/fastbg/db.py:33-34 | the insertions add only underscores |
| Db.LowerStrip | src/fastbg/db.py:35 | lowering commutes with removing underscores |
| Db.UnderscoresRemoved | src/fastbg/db.py:28-35 | removing underscores from the table name gives back the lowered class name without its underscores |
| Db.UnderscoresRemovedPlain | src/fastbg/db.py:28-35 | for a class name without `_`, removing them gives exactly the lowered class name |
| Db.StripNoUnderscore | src/fastbg/db.py:35 | removing underscores from a string without any changes nothing |
| Db.MarkedNoCapitals | src/fastbg/db.py:33-34 | without capitals nothing is inserted |
| Db.NoInteriorCapitals | src/fastbg/db.py:28-35 | a name with no capital after its first character becomes its lowercase |
| Db.MarkedConcat | src/fastbg/db.py:33-34 | the insertions for a concatenation are those of its parts |
| Db.TwoWords | src/fastbg/db.py:28-35 | a two-word name gets exactly one `_`, in front of the second capital |
| Db.UserTable | src/fastbg/db.py:51 | `User` maps to table `user` |
| Db.PostTagsTable | alembic/versions/63428ea3174d_remove_wrong_composite_pk.py:33-38 | `PostTags` maps to table `post_tags` |
| Query.Paginate | src/fastbg/router/core.py:100-102 | offset/limit: the page is the stretch from `offset`, at most `limit` long, in order |
| Query.Where | src/fastbg/query.py:6 | `where(model.is_soft_deleted == flag)`, order kept; stated by `Query.WhereSelects` |
| Query.BaseQuery | src/fastbg/query.py:4-7 | `base_query`: the live rows of a soft-delete model, the whole table otherwise; stated by `Query.BaseQuerySelectsLive` and `Query.WithoutSoftDelete` |
| Query.QueryDeleted | src/fastbg/query.py:10-13 | `query_deleted`: the flagged rows of a soft-delete model, the whole table otherwise; stated by `Query.QueryDeletedSelectsDeleted` and `Query.WithoutSoftDelete` |
| Query.FindId | src/fastbg/router/core.py:129-130 | the lookup by id finds a row with that id, or reports that none exists |
| Query.ReplaceId | src/fastbg/router/core.py:150-155 | writing back replaces the rows with that id and keeps every other row in place |
| Query.RemoveId | src/fastbg/router/core.py:195-198 | `db.delete` of the row with the key, order kept; stated by `Query.RemoveIdSelects`, `Query.RemoveIdAbsent` and `Query.RemoveIdAt` |
| Query.WhereSelects | src/fastbg/query.py:6 | the flag filter selects exactly the rows with that flag |
| Query.BaseQuerySelectsLive | src/fastbg/query.py:4-7 | for a soft-delete model, `base_query` selects exactly the rows whose flag is false |
| Query.QueryDeletedSelectsDeleted | src/fastbg/query.py:10-13 | for a soft-delete model, `query_deleted` selects exactly the rows whose flag is true |
| Query.QueriesPartition | src/fastbg/query.py:4-13 | the two selections are disjoint and together hold the table exactly (as multisets) |
| Query.WithoutSoftDelete | src/fastbg/query.py:4-13 | without soft delete both return the whole table, so `query_deleted` of a non-empty table is not empty |
| Query.RemoveIdSelects | src/fastbg/router/core.py:195-198 | deleting a key keeps exactly the rows with other keys |
| Query.RemoveIdAbsent | src/fastbg/router/core.py:195-198 | deleting an absent key changes nothing |
| Query.RemoveIdAt | src/fastbg/router/core.py:195-198 | removing a key that only one position holds drops exactly that position and keeps the other rows in order |
| Query.FindIdExact | src/fastbg/router/core.py:129-130 | the lookup returns the first row with the id |
| Schema.SqlalchemyToPydantic | src/fastbg/schema.py:10-57 | the loop builds the derived schema, stops at the first attribute whose type cannot be resolved, and names the model `<Model>Schema` |
| Schema.ResolveType | src/fastbg/schema.py:28-35 | the Python type of the first column: the `impl`'s when the type has an `impl`, else the type's own, else none; `Schema.ImplWithoutPythonTypeFails` states the missing fallback |
| Schema.FieldOf | src/fastbg/schema.py:40-47 | the field tuple: required when the column has no default and is not nullable, Optional with default None when nullable; stated by `Schema.DerivedFieldShape` |
| Schema.DeriveFields | src/fastbg/schema.py:21-47 | the fields the loop collects, as a fold over the mapper attributes; stated by `Schema.DerivedKeys`, `Schema.DerivedFieldShape` and `Schema.DeriveFailsIff` |
| Schema.DerivedSchema | src/fastbg/schema.py:50-57 | the model named `<class>Schema` with the derived fields, or the derivation's error; `Schema.SqlalchemyToPydantic` is proved equal to it |
| Schema.DeriveErrorSticks | src/fastbg/schema.py:37-38 | after the raise, later attributes play no part |
| Schema.DerivedKeys | src/fastbg/schema.py:21-47 | the fields are exactly the keys of the column properties that have columns and are not excluded |
| Schema.ExcludedNeverField | src/fastbg/schema.py:25-26 | an excluded name is never a field |
| Schema.DeriveFailsIff | src/fastbg/schema.py:31-38 | derivation fails iff an eligible attribute's first column has no resolvable type |
| Schema.DerivedFieldShape | src/fastbg/schema.py:27-47 | each field comes from the first column of the last attribute with its key; it is Optional iff the column is nullable; it is required iff the column has no default and is not nullable |
| Schema.NoneExcludeIsEmpty | src/fastbg/schema.py:14-17 | a missing exclude list is the same as an empty one |
| Schema.ImplWithoutPythonTypeFails | src/fastbg/schema.py:31-38 | a type whose `impl` has no `python_type` fails, even if the type itself has one |
| Schema.SkippedAttributes | src/fastbg/schema.py:22-23 | relationships and column properties without columns give no field |
| Schema.AllOptionalRejected | src/fastbg/schema.py:10-12 | the signature as written rejects the `all_optional` keyword on every call |
| Schema.AllOptionalFields | src/fastbg/router/core.py:83-85 | with `all_optional` honoured: the same fields as without it, each Optional with default None; it fails exactly when the plain derivation fails |
| Schema.CallAsWritten | src/fastbg/schema.py:10-12 | the signature as written: any `all_optional` argument is an unexpected keyword; otherwise the call is the derivation; stated by `Schema.AllOptionalRejected` |
| Crud.Protected | src/fastbg/router/core.py:27-45 | values and HTTP exceptions pass through; any other exception becomes 400 "Operation failed" |
| Crud.ProtectedOnlyHttp | src/fastbg/router/core.py:34-43 | only HTTP errors escape the guard, and guarding twice changes nothing |
| Crud.Registered | src/fastbg/router/core.py:91-227 | the endpoints the factory registers; stated by `Crud.RegisteredIff` |
| Crud.RegisteredIff | src/fastbg/router/core.py:91-227 | an endpoint is registered iff it is not disabled and, for restore and list_deleted, the model has soft delete |
| Crud.GeneratedExcludeList | src/fastbg/router/core.py:66-82 | the caller's list comes first; then a name is excluded iff the caller listed it, it is id or a timestamp, or it is a soft-delete column of a soft-delete model |
| Crud.GeneratedExclude | src/fastbg/router/core.py:66-82 | the list built in place, extended for a soft-delete model, is `GeneratedExcludeList` |
| Crud.MakeCrudRouter | src/fastbg/router/core.py:48-89 | the factory with `all_optional` honoured, which is the corrected call of the Findings row (as written, deriving the update schema raises TypeError, so `make_crud_router(Post)` and `make_crud_router(User)` fail at import; see `Schema.CallAsWritten`): the three schemas are exactly the derivations `sqlalchemy_to_pydantic` gives over the caller's read exclusions and the two generated exclusion lists, with `all_optional` for update; building fails iff one derivation fails, with the first failure's error; create and update never carry id, the timestamps or (for soft delete) the soft-delete columns; every update field defaults to None; the prefix defaults to `/` + lowercased class name; the endpoints are the registered ones |
| Crud.BaseQueryMember | src/fastbg/query.py:4-7 | `base_query` membership for either kind of model |
| Crud.NextRowId | src/fastbg/db.py:42 | the id the database gives a new row is above every id present, is 1 in an empty table, and is otherwise one more than an id present (the largest) |
| Crud.ValidStore | src/fastbg/db.py:42 | the table invariant: positive distinct primary keys, no duplicated value in a unique column, no flagged row without soft delete; kept by every handler (the `*KeepsValid` lemmas) |
| Crud.Clash | src/fastbg/router/core.py:115-117 | two rows hold the same non-NULL value in a unique column; shown symmetric by `Crud.ClashSymmetric` |
| Crud.Conflicts | src/fastbg/router/core.py:150-153 | the commit of a row would break a unique constraint against another row, soft-deleted rows included; used by `Crud.CreateUniqueViolation` and `Crud.UpdateFailure` |
| Crud.InsertedFields | src/fastbg/router/core.py:115-117 | the stored columns of a new row: a non-`None` body value is kept; a `None` or absent one takes the column's default, or stays NULL without one |
| Crud.FindLive | src/fastbg/router/core.py:129-130 | in a valid table, the handlers' lookup finds a row iff a non-deleted row has the id, and returns that row |
| Crud.SameIdSamePosition | src/fastbg/db.py:42 | the primary key identifies one position |
| Crud.ReplaceAtPosition | src/fastbg/router/core.py:150-153 | in a valid table, writing back a row changes only the position of its id |
| Crud.ClashSymmetric | src/fastbg/router/core.py:115-117 | a unique-constraint clash is symmetric |
| Crud.ListItems | src/fastbg/router/core.py:95-104 | `list_items` as a function of the table; stated by `Crud.ListIsPage` |
| Crud.GetItem | src/fastbg/router/core.py:125-133 | `get_item`; stated by `Crud.GetFindsLive` |
| Crud.CreateItem | src/fastbg/router/core.py:108-119 | `create_item` with its rollback; stated by `Crud.CreateAppends`, `Crud.CreateUniqueViolation` and `Crud.CreateKeepsValid` |
| Crud.UpdateItem | src/fastbg/router/core.py:137-155 | `update_item`; stated by `Crud.UpdateSetsOnlyGivenFields`, `Crud.UpdateFailure` and `Crud.UpdateKeepsValid` |
| Crud.DeleteItem | src/fastbg/router/core.py:157-198 | both `delete_item` variants; stated by `Crud.SoftDeleteHides`, `Crud.HardDeleteIsFinal` and `Crud.DeleteKeepsValid` |
| Crud.RestoreItem | src/fastbg/router/core.py:204-225 | `restore_item`; stated by `Crud.RestoreErrors`, `Crud.RestoreMakesVisible` and `Crud.SoftDeleteThenRestore` |
| Crud.ListDeletedItems | src/fastbg/router/core.py:229-245 | `list_deleted_items`; stated by `Crud.ListDeletedOnlyDeleted` |
| Crud.ReplaceKeepsValid | src/fastbg/router/core.py:150-153 | a write-back that clashes with nothing keeps the table valid |
| Crud.RemoveKeepsPairwise | src/fastbg/router/core.py:195-198 | deleting rows keeps keys and unique values distinct |
| Crud.RemoveKeepsValid | src/fastbg/router/core.py:195-198 | deleting a row keeps the table valid |
| Crud.CreateKeepsValid | src/fastbg/router/core.py:110-119 | create keeps the table valid |
| Crud.UpdateKeepsValid | src/fastbg/router/core.py:139-155 | update keeps the table valid |
| Crud.DeleteKeepsValid | src/fastbg/router/core.py:157-198 | delete keeps the table valid |
| Crud.RestoreKeepsValid | src/fastbg/router/core.py:204-225 | restore keeps the table valid |
| Crud.GetFindsLive | src/fastbg/router/core.py:125-133 | get returns the non-deleted row with the id when one exists, and otherwise 404 "Item not found" |
| Crud.ListIsPage | src/fastbg/router/core.py:95-104 | the list is the page of non-deleted rows starting at `page * page_size`, at most `page_size` long |
| Crud.SecondPage | src/fastbg/router/core.py:96-102 | with the default page size, page 1 is rows 11 to 20 of `base_query` |
| Crud.CreateAppends | src/fastbg/router/core.py:110-119 | a successful create appends a non-deleted row holding the body with the column defaults filled in, with the id the database allocates, which no row had; get then finds it |
| Crud.CreateUniqueViolation | src/fastbg/router/core.py:108-119 | repeating a unique value of any row, even a soft-deleted one, gives 400 "Operation failed" and changes nothing |
| Crud.UpdateFailure | src/fastbg/router/core.py:145-153 | a failed update changes nothing; it is 404 iff no non-deleted row has the id, and otherwise 400 |
| Crud.UpdateSetsOnlyGivenFields | src/fastbg/router/core.py:145-155 | a successful update changes one row, the non-deleted one with the id: the set fields take the body's values and everything else stays |
| Crud.SoftDeleteHides | src/fastbg/router/core.py:186-194 | soft delete keeps the row, flagged; get then answers 404 and the deleted listing holds it |
| Crud.SoftDeleteAt | src/fastbg/router/core.py:186-194 | soft-deleting the live row at a position flags that position and nothing else |
| Crud.RestoreAt | src/fastbg/router/core.py:211-225 | restoring the flagged row at a position clears that flag and nothing else |
| Crud.RemoveAtPosition | src/fastbg/router/core.py:195-198 | in a valid table, removing the id of the row at a position drops that position and keeps every other row in order |
| Crud.SoftDeleteThenRestore | src/fastbg/router/core.py:186-225 | restoring right after a soft delete gives back exactly the same table |
| Crud.HardDeleteIsFinal | src/fastbg/router/core.py:158-198 | a hard delete, or any delete without soft delete, removes exactly the rows with the id; get and restore then answer 404 |
| Crud.HardDeleteReusesId | src/fastbg/db.py:42 | hard-deleting the row with the largest id lets the next create get an id no larger than it, and that very id when the id below it is still in use |
| Crud.RestoreErrors | src/fastbg/router/core.py:211-220 | restore is 404 iff no row at all has the id, 400 "Item is not soft deleted" iff the row is live, and changes nothing on error |
| Crud.RestoreMakesVisible | src/fastbg/router/core.py:211-225 | a successful restore clears the flag of the deleted row, and get finds it again |
| Crud.ListDeletedOnlyDeleted | src/fastbg/router/core.py:234-245 | the deleted listing is a page of soft-deleted rows of the table |
| CrudTable.Table.constructor | src/fastbg/router/core.py:48-89 | an empty, valid table for a model |
| CrudTable.SetFields | src/fastbg/router/core.py:150-151 | after the `setattr` loop, the fields the body sets take its values and every other field keeps its own |
| CrudTable.Table.List | src/fastbg/router/core.py:95-104 | returns the list transition's page |
| CrudTable.Table.Get | src/fastbg/router/core.py:125-133 | returns get's outcome |
| CrudTable.Table.Insert | src/fastbg/router/core.py:115-119 | adds, commits or rolls back as the create transition does; keeps the table valid |
| CrudTable.Table.Create | src/fastbg/router/core.py:108-119 | the authenticated create, as the create transition |
| CrudTable.Table.Update | src/fastbg/router/core.py:137-155 | the `setattr` loop over the set fields gives the update transition's row and table |
| CrudTable.Table.Delete | src/fastbg/router/core.py:157-198 | soft or hard delete, as the delete transition |
| CrudTable.Table.Restore | src/fastbg/router/core.py:204-225 | as the restore transition |
| CrudTable.Table.ListDeleted | src/fastbg/router/core.py:229-245 | returns the deleted listing's page |
| Authorization.Authorize | src/fastbg/auth/authorization.py:43-55 | raises 401 "Not authorized to perform this action" iff the check fails |
| Authorization.Check | src/fastbg/auth/authorization.py:27-40 | `OwnerAuthorizer.check`: a falsy id fails, then the `base_query` lookup and the owner comparison; stated by `Authorization.CheckIff` |
| Authorization.Guarded | src/fastbg/auth/authorization.py:58-68 | the wrapper authorizes first: unauthorized gives 401 with the handler never run and the table unchanged; otherwise the handler's result |
| Authorization.CheckIff | src/fastbg/auth/authorization.py:27-40 | in a valid table, the check holds iff the id argument is present and non-zero and the non-deleted row with that id has the caller's id in the owner field |
| Authorization.CheckNeedsVisibleRow | src/fastbg/auth/authorization.py:32-38 | with no visible row for the id, the check fails for everyone |
| Authorization.MissingOwnerFieldFails | src/fastbg/auth/authorization.py:40 | an owner field the rows lack reads as None and never matches |
| Authorization.DefaultAuthorizer | src/fastbg/auth/authorization.py:19-25 | the defaults read the id from `item_id` and the owner from `user_id` |
| PostRouter.UpdatePost | src/fastbg/router/post.py:22-41 | the guarded update on the table, as the owner-update transition |
| PostRouter.DeletePost | src/fastbg/router/post.py:44-65 | the guarded delete on the table, as the owner-delete transition |
| PostRouter.DeleteBody | src/fastbg/router/post.py:53-65 | the post delete body: it soft-deletes when `hard` is false and the model has soft delete, and otherwise answers 400 with the table unchanged; stated by `PostRouter.DeleteBodyIsGeneric` and `PostRouter.OwnerDeleteWithoutSoftDelete` |
| PostRouter.Owner | src/fastbg/router/post.py:44-45 | the authorizer of both replacement handlers: the post model, the `item_id` parameter, ownership read from `author_id`; used by `PostRouter.NonOwnerRefused` and `PostRouter.OwnerDeletes` |
| PostRouter.OwnerUpdate | src/fastbg/router/post.py:22-41 | the update behind `is_owner`; stated by `PostRouter.NonOwnerRefused`, `PostRouter.MissingPostIsUnauthorized` and `PostRouter.OwnerUpdates` |
| PostRouter.OwnerDelete | src/fastbg/router/post.py:44-65 | the delete behind `is_owner`; stated by `PostRouter.NonOwnerRefused`, `PostRouter.MissingPostIsUnauthorized`, `PostRouter.OwnerDeletes` and `PostRouter.OwnerDeleteWithoutSoftDelete` |
| PostRouter.DeleteBodyIsGeneric | src/fastbg/router/post.py:53-65 | for a soft-delete model or a hard delete, the post delete body is the generic delete |
| PostRouter.NonOwnerRefused | src/fastbg/router/post.py:22-65 | a caller who does not own the post gets 401 for update and delete, and the table is unchanged |
| PostRouter.MissingPostIsUnauthorized | src/fastbg/router/post.py:22-34 | a missing or soft-deleted post gives 401 rather than the handler's 404, and nothing changes |
| PostRouter.OwnerUpdates | src/fastbg/router/post.py:22-41 | the owner gets the generic update, so only the set fields change |
| PostRouter.OwnerDeletes | src/fastbg/router/post.py:44-65 | the owner soft-deletes by default (the row stays, flagged, and get answers 404) and removes the row with `hard` |
| PostRouter.OwnerDeleteWithoutSoftDelete | src/fastbg/router/post.py:58-59 | on a model without soft delete, the owner's default delete calls the missing `soft_delete()` and gets 400 "Operation failed", with the table unchanged |
| PostRouter.PostEndpoints | src/fastbg/router/post.py:13 | the generic router keeps list, get and create, plus restore and list_deleted without any owner check |
| PostRouter.UpdateSchemaFields | src/fastbg/router/post.py:15-19 | the update schema has no id, timestamp or soft-delete field, and every field is Optional with default None |
| UserRouter.CreateUser | src/fastbg/router/user.py:37-48 | create with no current user, as the create transition |
| UserRouter.UnnamedUserIsAnonymous | src/fastbg/db.py:52 | a user created without a name, or with `None`, is stored as "Anonymous", and the login query for "Anonymous" finds it |
| UserRouter.Login | src/fastbg/router/user.py:51-70 | `login`; stated by `UserRouter.LoginOutcomes`, `UserRouter.DuplicateNameRaises` and the three refusal lemmas |
| UserRouter.Matching | src/fastbg/router/user.py:55 | the login query `base_query(User).where(User.name == username)`, in table order; stated by `UserRouter.MatchingSelects` and `UserRouter.MatchingAtMostOne` |
| UserRouter.MatchingSelects | src/fastbg/router/user.py:55 | the login query selects exactly the non-deleted rows with that name |
| UserRouter.MatchingNone | src/fastbg/router/user.py:55 | with no candidate the query is empty |
| UserRouter.MatchingAtMostOne | src/fastbg/router/user.py:55-56 | with `name` unique the query selects at most one user |
| UserRouter.MatchingIsName | src/fastbg/router/user.py:55-67 | the user found carries the name asked for |
| UserRouter.MatchingTwo | src/fastbg/router/user.py:55 | two candidates anywhere in the table put at least two rows in the login query |
| UserRouter.LoginOutcomes | src/fastbg/router/user.py:51-70 | with unique names, login succeeds iff a non-deleted user with the name accepts the password; the token is then "bearer" with the name as subject, and every failure is the same 401 |
| UserRouter.DuplicateNameRaises | src/fastbg/router/user.py:55-56 | two live users with the name make login raise MultipleResultsFound, unmasked, whatever the password |
| UserRouter.UnknownUserRefused | src/fastbg/router/user.py:58-63 | an unknown name gives 401 "Incorrect email or password" |
| UserRouter.DeletedUserRefused | src/fastbg/router/user.py:55-63 | a soft-deleted user is refused like an unknown one |
| UserRouter.WrongPasswordRefused | src/fastbg/router/user.py:58-63 | a wrong password gives the same 401 as an unknown name |
| UserRouter.UserEndpoints | src/fastbg/router/user.py:27-29 | the generic user router registers everything but create |
| UserRouter.ReadSchemaHidesPassword | src/fastbg/router/user.py:27-29 | the read schema never has `password` |
| UserRouter.CreateSchemaKeepsPassword | src/fastbg/router/user.py:32-35 | the create schema has no id, timestamp or soft-delete field, and has `password` iff the model maps a password column |

## Left out

- The session lifecycle of `src/fastbg/api.py` (engine, commit, rollback, close) is left out; each handler call is one atomic step on the table.
- Timestamps (`created_at`, `updated_at`, `soft_deleted_at`) are left out because they depend on the clock; rows do not store them. Their callable defaults (`datetime.now`) and `onupdate` are therefore not among the model's column defaults.
- The bodies of `soft_delete()` and `restore()` are not part of this model; it only sets and clears the flag.
- FastAPI routing, dependency injection, Pydantic validation and `response_model` filtering are left out. Update takes the validated body as a map of the fields it set (`item.dict(exclude_unset=True)`). Create takes `item.dict()` as a map, where an unset field may be `None` or absent; the ORM leaves a `None` out of the INSERT, so the new row gets the column's default (`Crud.InsertedFields`). Handlers return rows as stored.
- Authentication is left out. `get_current_user`, password hashing, `check_password` and JWT creation are not part of this model. The handlers take the authenticated user as a parameter. Login takes the password check and the token builder as functions.
- The `WWW-Authenticate: Bearer` header of the login error is not modelled.
- The token expiry (`ACCESS_TOKEN_EXPIRE_MINUTES`) is folded into the token builder parameter.
- Rows are kept in insertion order, because the queries have no ORDER BY. Negative `page`/`page_size` are excluded by typing them as naturals, because their effect is database-defined.
- New primary keys follow SQLite's rule for an `INTEGER PRIMARY KEY` without AUTOINCREMENT: one more than the largest id present, or 1 in an empty table. SQLite's fallback to a random unused id once the largest id is 2^63 - 1 is left out, because integers are unbounded here.
- `protected` also logs each exception it masks (`log.error`). Logging is output only, so it is left out.
- The only database failure modelled is a unique-constraint violation. Foreign keys, NOT NULL and other failures are not.
- Relationships and cascades are left out, and the Comment, Tag and PostTags models are not part of this model; `PostTags` appears only through its table name.
- `make_crud_router`'s explicit `schema`, `create_schema` and `update_schema` arguments are left out; the model always derives the three schemas.
- `__str__` and `__repr__` are left out; they only format `as_dict`.
- `str.lower` is modelled on ASCII letters only.
- Schema.SqlalchemyToPydantic: the error message at `src/fastbg/schema.py:38` names `type_str`, which is undefined, so Python raises a NameError instead of the intended ValueError. The model only records that derivation fails, and at which attribute.
- `BaseAuthorizer.check` only raises NotImplementedError; only its subclass `OwnerAuthorizer` is modelled.
- Authorization.Authorize returns unit instead of the current user. The wrapper calls it without a user, so the value returned is the dependency marker, and the wrapper discards it.
- Authorization.Check reads the handler's keyword arguments as a map to integers. The id parameter is an integer path parameter, and the other arguments play no part.
- CrudTable.Table.Delete takes `hard` for every model. For a model without soft delete, the source's handler has no such parameter, and the method ignores it.
- `scalar_one_or_none` raising MultipleResultsFound is modelled only in login. By-id lookups cannot hit it, because primary keys are distinct.
- UserRouter.LoginOutcomes assumes `name` is a unique column. Without that, two live users with the same name make login raise an unguarded MultipleResultsFound, which `UserRouter.Login` models and `UserRouter.DuplicateNameRaises` states.

## Findings

| source | as written | input that shows it | evidently intended | confidence | as-written member | corrected member |
|---|---|---|---|---|---|---|
| src/fastbg/schema.py:10-12 with src/fastbg/router/core.py:83-85 and src/fastbg/router/post.py:15-19 | `sqlalchemy_to_pydantic` takes only the keyword `exclude`, yet the router factory and the post router pass `all_optional=True` | any model, with the update schema generated, e.g. `make_crud_router(User)`: the call raises TypeError for the unexpected keyword | `all_optional=True` makes every field of the update schema Optional with default None, so a partial update body validates | not executed | Schema.CallAsWritten, Schema.AllOptionalRejected | Schema.SqlalchemyToPydantic, Schema.AllOptionalFields |
