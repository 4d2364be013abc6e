/** The user router (src/fastbg/router/user.py): the generic router without its create,
    hiding `password` from reads, an unauthenticated create and `login`. */
module UserRouter {
  import opened Wrappers
  import opened Db
  import opened Http
  import Query
  import Schema
  import opened Crud
  import CrudTable

  const Disabled: set<Endpoint> := {Create}

  /** `exclude_fields` of the generic user router: the read schema. */
  const ReadExclude := ["password"]

  /** The exclusions of the dedicated create schema. */
  const CreateExclude := ["id", "created_at", "updated_at", "is_soft_deleted", "soft_deleted_at"]

  /** The response of a successful login. */
  datatype Token = Token(accessToken: string, tokenType: string)

  const IncorrectCredentials := HttpError(401, "Incorrect email or password")

  /** What `scalar_one_or_none` raises when the query selects more than one row. */
  const MultipleResultsFound := OtherException("MultipleResultsFound")

  /** The replacement `create_item`: the generic insert, with no current user. */
  method CreateUser(t: CrudTable.Table, item: map<string, Value>) returns (r: Outcome<Row>)
    requires t.Valid()
    modifies t
    ensures t.Valid()
    ensures (r, t.State()) == CreateItem(t.model, old(t.State()), item)
  {
    r := t.Insert(item);
  }

  /** `User.name` has the default "Anonymous": a user created without a name, or with
      `None`, is stored under that name, and the login query for "Anonymous" finds it. */
  lemma UnnamedUserIsAnonymous(m: Model, s: Store, item: map<string, Value>)
    requires "name" in m.defaults && m.defaults["name"] == VStr("Anonymous")
    requires "name" !in item || item["name"] == VNone
    requires CreateItem(m, s, item).0.Returned?
    ensures Attr(CreateItem(m, s, item).0.value, "name") == VStr("Anonymous")
    ensures CreateItem(m, s, item).0.value in Matching(m.softDelete, CreateItem(m, s, item).1.rows, "Anonymous")
  {
    var (o, s') := CreateItem(m, s, item);
    assert o.value in s'.rows;
    MatchingSelects(m.softDelete, s'.rows, "Anonymous", o.value);
  }

  predicate Candidate(softDelete: bool, row: Row, username: string) {
    (softDelete ==> !row.isSoftDeleted) && Attr(row, "name") == VStr(username)
  }

  /** `base_query(User).where(User.name == username)`: the rows both conditions select,
      in table order. */
  function Matching(softDelete: bool, rows: seq<Row>, username: string): seq<Row> {
    if rows == [] then []
    else
      var last := rows[|rows| - 1];
      Matching(softDelete, rows[..|rows| - 1], username) + (if Candidate(softDelete, last, username) then [last] else [])
  }

  /** `user.name`. */
  function NameOf(row: Row): string {
    match Attr(row, "name")
    case VStr(n) => n
    case _ => ""
  }

  /** `login`. `checkPassword` stands for `User.check_password` and `createAccessToken` for
      the signed token with the given subject and the configured expiry. */
  function Login(m: Model, s: Store, username: string, password: string,
                 checkPassword: (Row, string) -> bool, createAccessToken: string -> string): Outcome<Token>
  {
    var matches := Matching(m.softDelete, s.rows, username);
    if |matches| > 1 then Raised(MultipleResultsFound)
    else if matches == [] || !checkPassword(matches[0], password) then Raised(HttpException(IncorrectCredentials))
    else Returned(Token(createAccessToken(NameOf(matches[0])), "bearer"))
  }

  lemma {:induction false} MatchingSelects(softDelete: bool, rows: seq<Row>, username: string, row: Row)
    ensures row in Matching(softDelete, rows, username) <==> row in rows && Candidate(softDelete, row, username)
  {
    if rows != [] {
      var init := rows[..|rows| - 1];
      MatchingSelects(softDelete, init, username, row);
      assert rows == init + [rows[|rows| - 1]];
    }
  }

  lemma {:induction false} MatchingNone(softDelete: bool, rows: seq<Row>, username: string)
    requires forall i :: 0 <= i < |rows| ==> !Candidate(softDelete, rows[i], username)
    ensures Matching(softDelete, rows, username) == []
  {
    if rows != [] {
      MatchingNone(softDelete, rows[..|rows| - 1], username);
    }
  }

  /** Names are unique in a valid table when `name` is a unique column, so the query
      selects at most one user. */
  lemma {:induction false} MatchingAtMostOne(m: Model, rows: seq<Row>, username: string)
    requires "name" in m.unique && Pairwise(m, rows)
    ensures |Matching(m.softDelete, rows, username)| <= 1
  {
    if rows != [] {
      var n := |rows| - 1;
      var init := rows[..n];
      assert Pairwise(m, init) by {
        forall i, j | 0 <= i < |init| && 0 <= j < |init| && i != j
          ensures Compatible(m, init[i], init[j])
        {
          assert init[i] == rows[i] && init[j] == rows[j];
        }
      }
      MatchingAtMostOne(m, init, username);
      if Candidate(m.softDelete, rows[n], username) {
        forall i | 0 <= i < |init|
          ensures !Candidate(m.softDelete, init[i], username)
        {
          assert init[i] == rows[i] && Compatible(m, rows[i], rows[n]);
        }
        MatchingNone(m.softDelete, init, username);
      }
    }
  }

  lemma MatchingIsName(softDelete: bool, rows: seq<Row>, username: string)
    requires Matching(softDelete, rows, username) != []
    ensures var x := Matching(softDelete, rows, username)[0];
      x in rows && Candidate(softDelete, x, username) && NameOf(x) == username
  {
    MatchingSelects(softDelete, rows, username, Matching(softDelete, rows, username)[0]);
  }

  /** Two candidates anywhere in the table put at least two rows in the query. */
  lemma {:induction false} MatchingTwo(softDelete: bool, rows: seq<Row>, username: string, i: int, j: int)
    requires 0 <= i < j < |rows|
    requires Candidate(softDelete, rows[i], username) && Candidate(softDelete, rows[j], username)
    ensures |Matching(softDelete, rows, username)| >= 2
  {
    var n := |rows| - 1;
    var init := rows[..n];
    assert init[i] == rows[i];
    if j == n {
      MatchingSelects(softDelete, init, username, rows[i]);
    } else {
      assert init[j] == rows[j];
      MatchingTwo(softDelete, init, username, i, j);
    }
  }

  /** Without a unique `name`, two live users sharing the name make `scalar_one_or_none`
      raise MultipleResultsFound, whatever the password; `login` is not wrapped in
      `protected`, so the error reaches the caller as it is. */
  lemma DuplicateNameRaises(m: Model, s: Store, username: string, password: string,
                            checkPassword: (Row, string) -> bool, createAccessToken: string -> string,
                            i: int, j: int)
    requires 0 <= i < j < |s.rows|
    requires Candidate(m.softDelete, s.rows[i], username) && Candidate(m.softDelete, s.rows[j], username)
    ensures Login(m, s, username, password, checkPassword, createAccessToken) == Raised(MultipleResultsFound)
  {
    MatchingTwo(m.softDelete, s.rows, username, i, j);
  }

  /** With unique names, login succeeds exactly when a user with that name, not soft
      deleted, accepts the password; it then returns a bearer token whose subject is the
      name, and every failure is the same 401. */
  lemma LoginOutcomes(m: Model, s: Store, username: string, password: string,
                      checkPassword: (Row, string) -> bool, createAccessToken: string -> string)
    requires ValidStore(m, s) && "name" in m.unique
    ensures Login(m, s, username, password, checkPassword, createAccessToken).Returned? <==>
      exists u :: u in s.rows && Candidate(m.softDelete, u, username) && checkPassword(u, password)
    ensures Login(m, s, username, password, checkPassword, createAccessToken).Returned? ==>
      Login(m, s, username, password, checkPassword, createAccessToken).value == Token(createAccessToken(username), "bearer")
    ensures Login(m, s, username, password, checkPassword, createAccessToken).Raised? ==>
      Login(m, s, username, password, checkPassword, createAccessToken) == Raised(HttpException(IncorrectCredentials))
  {
    var matches := Matching(m.softDelete, s.rows, username);
    MatchingAtMostOne(m, s.rows, username);
    if matches != [] {
      MatchingIsName(m.softDelete, s.rows, username);
      forall u | u in s.rows && Candidate(m.softDelete, u, username)
        ensures u == matches[0]
      {
        MatchingSelects(m.softDelete, s.rows, username, u);
        var k :| 0 <= k < |matches| && matches[k] == u;
      }
    } else {
      forall u | u in s.rows && Candidate(m.softDelete, u, username)
        ensures false
      {
        MatchingSelects(m.softDelete, s.rows, username, u);
      }
    }
  }

  /** An unknown name is refused with the same 401 as a wrong password, whatever the table
      holds otherwise. */
  lemma UnknownUserRefused(m: Model, s: Store, username: string, password: string,
                           checkPassword: (Row, string) -> bool, createAccessToken: string -> string)
    requires forall u :: u in s.rows ==> !Candidate(m.softDelete, u, username)
    ensures Login(m, s, username, password, checkPassword, createAccessToken) == Raised(HttpException(IncorrectCredentials))
  {
    if Matching(m.softDelete, s.rows, username) != [] {
      MatchingSelects(m.softDelete, s.rows, username, Matching(m.softDelete, s.rows, username)[0]);
    }
  }

  /** A soft-deleted user cannot log in: when every user with the name is soft deleted,
      login answers as for an unknown name. */
  lemma DeletedUserRefused(m: Model, s: Store, username: string, password: string,
                           checkPassword: (Row, string) -> bool, createAccessToken: string -> string)
    requires m.softDelete
    requires forall u :: u in s.rows && Attr(u, "name") == VStr(username) ==> u.isSoftDeleted
    ensures Login(m, s, username, password, checkPassword, createAccessToken) == Raised(HttpException(IncorrectCredentials))
  {
    UnknownUserRefused(m, s, username, password, checkPassword, createAccessToken);
  }

  /** A known user with a password the check rejects gets the same 401 as an unknown name. */
  lemma WrongPasswordRefused(m: Model, s: Store, username: string, password: string,
                             checkPassword: (Row, string) -> bool, createAccessToken: string -> string, u: Row)
    requires ValidStore(m, s) && "name" in m.unique
    requires u in s.rows && Candidate(m.softDelete, u, username) && !checkPassword(u, password)
    ensures Login(m, s, username, password, checkPassword, createAccessToken) == Raised(HttpException(IncorrectCredentials))
  {
    MatchingAtMostOne(m, s.rows, username);
    MatchingSelects(m.softDelete, s.rows, username, u);
    var matches := Matching(m.softDelete, s.rows, username);
    var k :| 0 <= k < |matches| && matches[k] == u;
  }

  /** The generic user router keeps everything but create. */
  lemma UserEndpoints(softDelete: bool)
    ensures Registered(Disabled, softDelete) ==
      {List, Get, Update, Delete} + (if softDelete then {Restore, ListDeleted} else {})
  {
    forall e ensures e in Registered(Disabled, softDelete) <==>
      e in {List, Get, Update, Delete} + (if softDelete then {Restore, ListDeleted} else {})
    {
      RegisteredIff(Disabled, softDelete, e);
    }
  }

  /** The read schema of the generic user router never has a `password` field. */
  lemma ReadSchemaHidesPassword(m: Model)
    requires Schema.DerivedSchema(m.name, m.attrs, Some(ReadExclude), false).Ok?
    ensures "password" !in Schema.DerivedSchema(m.name, m.attrs, Some(ReadExclude), false).value.fields
  {
    Schema.ExcludedNeverField(m.attrs, ReadExclude, false, "password");
  }

  /** The dedicated create schema has none of the id, timestamp and soft-delete fields but
      keeps `password` whenever the model maps a password column. */
  lemma CreateSchemaKeepsPassword(m: Model)
    requires Schema.DerivedSchema(m.name, m.attrs, Some(CreateExclude), false).Ok?
    ensures var fields := Schema.DerivedSchema(m.name, m.attrs, Some(CreateExclude), false).value.fields;
      && (forall c :: c in CreateExclude ==> c !in fields)
      && ("password" in fields <==>
            exists i :: 0 <= i < |m.attrs| && m.attrs[i].ColumnProperty? && |m.attrs[i].columns| > 0
                        && m.attrs[i].key == "password")
  {
    forall c | c in CreateExclude
      ensures c !in Schema.DerivedSchema(m.name, m.attrs, Some(CreateExclude), false).value.fields
    {
      Schema.ExcludedNeverField(m.attrs, CreateExclude, false, c);
    }
    Schema.DerivedKeys(m.attrs, CreateExclude, false, "password");
  }
}
