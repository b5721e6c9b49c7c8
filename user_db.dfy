/** The tenant table behind `UserExt for DBClient` (src/db.rs): one row per tenant, read by a
    conjunction of optional filters and changed one field group at a time. The table's own
    definition is not part of this model; as the registration handler reads a unique
    violation as a taken address, ids and addresses are taken to be unique. */
module UserDb {
  import opened Text
  import opened Wrappers
  import opened Models

  /** `($1 IS NULL OR id = $1) AND ...`: every supplied filter holds and an absent one is no
      constraint. An API key never matches a row whose `api_keys` is NULL. */
  predicate Matches(u: User, id: Option<Uuid>, name: Option<string>, email: Option<string>, apiKey: Option<string>) {
    (id.Some? ==> u.id == id.value)
    && (name.Some? ==> u.name == name.value)
    && (email.Some? ==> u.email == email.value)
    && (apiKey.Some? ==> u.apiKeys == Some(apiKey.value))
  }

  /** `get_user`: `fetch_optional` yields the first matching row the scan meets; with no
      `ORDER BY`, storage order stands in for it. */
  function GetUser(users: seq<User>, id: Option<Uuid>, name: Option<string>, email: Option<string>, apiKey: Option<string>)
    : (r: Option<User>)
    ensures r.Some? ==> r.value in users && Matches(r.value, id, name, email, apiKey)
    ensures r.None? <==> forall i :: 0 <= i < |users| ==> !Matches(users[i], id, name, email, apiKey)
  {
    if users == [] then None
    else if Matches(users[0], id, name, email, apiKey) then Some(users[0])
    else GetUser(users[1..], id, name, email, apiKey)
  }

  /** The row returned is the first that matches: every row before it fails some filter. */
  lemma {:induction false} GetUserFirst(users: seq<User>, id: Option<Uuid>, name: Option<string>, email: Option<string>, apiKey: Option<string>)
    requires GetUser(users, id, name, email, apiKey).Some?
    ensures var r := GetUser(users, id, name, email, apiKey).value;
      exists k :: 0 <= k < |users| && users[k] == r && (forall j :: 0 <= j < k ==> !Matches(users[j], id, name, email, apiKey))
  {
    if !Matches(users[0], id, name, email, apiKey) {
      GetUserFirst(users[1..], id, name, email, apiKey);
      var r := GetUser(users, id, name, email, apiKey).value;
      var k :| 0 <= k < |users[1..]| && users[1..][k] == r
        && (forall j :: 0 <= j < k ==> !Matches(users[1..][j], id, name, email, apiKey));
      assert users[k + 1] == r;
      forall j | 0 <= j < k + 1 ensures !Matches(users[j], id, name, email, apiKey) {
        if j > 0 {
          assert users[j] == users[1..][j - 1];
        }
      }
    }
  }

  /** With unique ids, looking a tenant up by id finds exactly that tenant. */
  lemma GetUserById(users: seq<User>, k: nat)
    requires UniqueIds(users) && k < |users|
    ensures GetUser(users, Some(users[k].id), None, None, None) == Some(users[k])
  {
    var r := GetUser(users, Some(users[k].id), None, None, None);
    var j :| 0 <= j < |users| && users[j] == r.value;
    assert j == k;
  }

  predicate UniqueIds(users: seq<User>) {
    forall i, j :: 0 <= i < j < |users| ==> users[i].id != users[j].id
  }

  predicate UniqueEmails(users: seq<User>) {
    forall i, j :: 0 <= i < j < |users| ==> users[i].email != users[j].email
  }

  /** The cipher suite and its key are both set or both unset, the way `save_user` and
      `save_user_key` write them; the record type itself allows any combination. */
  predicate Paired(u: User) {
    u.encryptionMethod.Some? <==> u.keys.Some?
  }

  predicate Valid(users: seq<User>) {
    UniqueIds(users) && UniqueEmails(users) && forall i :: 0 <= i < |users| ==> Paired(users[i])
  }

  function IdTaken(users: seq<User>, id: Uuid): bool {
    exists i :: 0 <= i < |users| && users[i].id == id
  }

  function EmailTaken(users: seq<User>, email: string): bool {
    exists i :: 0 <= i < |users| && users[i].email == email
  }

  /** `save_user`: a row with a new id holding the name, address, password hash and API key,
      both timestamps set to the time of the insert, and no cipher suite, key or connection. */
  function InsertUser(users: seq<User>, id: Uuid, name: string, email: string, password: string, apiKey: string, now: Timestamp)
    : (r: Result<(seq<User>, User), DbError>)
    ensures r.Err? <==> IdTaken(users, id) || EmailTaken(users, email)
    ensures r.Err? ==> r.error == UniqueViolation
    ensures r.Ok? ==> r.value.0 == users + [r.value.1]
    ensures r.Ok? ==> var u := r.value.1;
      u.id == id && u.name == name && u.email == email && u.password == password
      && u.apiKeys == Some(apiKey) && u.encryptionMethod.None? && u.keys.None? && u.dbConnection.None?
      && u.createdAt == Some(now) && u.updatedAt == Some(now)
  {
    if IdTaken(users, id) || EmailTaken(users, email) then Err(UniqueViolation)
    else
      var u := User(id, name, email, password, None, None, Some(apiKey), None, Some(now), Some(now));
      Ok((users + [u], u))
  }

  /** Registration keeps the table valid. */
  lemma SaveUserPreservesValid(users: seq<User>, id: Uuid, name: string, email: string, password: string, apiKey: string, now: Timestamp)
    requires Valid(users)
    requires InsertUser(users, id, name, email, password, apiKey, now).Ok?
    ensures Valid(InsertUser(users, id, name, email, password, apiKey, now).value.0)
  {
    var t := InsertUser(users, id, name, email, password, apiKey, now).value.0;
    assert forall i :: 0 <= i < |users| ==> t[i] == users[i];
  }

  /** `UPDATE users SET ... WHERE id = $n`: f applied to every row with the id, all other rows
      kept. */
  function UpdateWhere(users: seq<User>, id: Uuid, f: User -> User): (r: seq<User>)
    ensures |r| == |users|
    ensures forall i :: 0 <= i < |users| && users[i].id != id ==> r[i] == users[i]
    ensures forall i :: 0 <= i < |users| && users[i].id == id ==> r[i] == f(users[i])
  {
    seq(|users|, i requires 0 <= i < |users| => if users[i].id == id then f(users[i]) else users[i])
  }

  /** `SET name = $1, updated_at = Now()`. */
  function Renamed(name: string, now: Timestamp): User -> User {
    (u: User) => u.(name := name, updatedAt := Some(now))
  }

  /** `SET password = $1, updated_at = Now()`. */
  function Repassworded(password: string, now: Timestamp): User -> User {
    (u: User) => u.(password := password, updatedAt := Some(now))
  }

  /** `SET db_connection = $1`, leaving `updated_at` alone. */
  function Connected(c: DbConnection): User -> User {
    (u: User) => u.(dbConnection := Some(c))
  }

  /** `SET keys = $1, encryption_method = $2, updated_at = NOW()`. */
  function Keyed(key: Bytes, m: EncryptionMethod, now: Timestamp): User -> User {
    (u: User) => u.(keys := Some(key), encryptionMethod := Some(m), updatedAt := Some(now))
  }

  /** An update with `RETURNING ... fetch_one`: the changed row, or the missing-row error when
      no row has the id (the table is then unchanged). */
  function UpdateReturning(users: seq<User>, id: Uuid, f: User -> User): (r: (seq<User>, Result<User, DbError>))
    ensures r.0 == UpdateWhere(users, id, f)
    ensures r.1.Err? <==> !IdTaken(users, id)
    ensures r.1.Err? ==> r.1.error == RowNotFound && r.0 == users
    ensures r.1.Ok? ==> exists i :: 0 <= i < |users| && users[i].id == id && r.1.value == f(users[i])
  {
    var t := UpdateWhere(users, id, f);
    match GetUser(users, Some(id), None, None, None)
    case None =>
      assert t == users;
      (t, Err(RowNotFound))
    case Some(u) => (t, Ok(f(u)))
  }

  /** `update_user_name` changes the name and `updated_at` of the tenant with the id and
      nothing else, in that row or any other. */
  lemma RenameChangesOnlyName(users: seq<User>, id: Uuid, name: string, now: Timestamp, i: nat)
    requires i < |users|
    ensures var r := UpdateReturning(users, id, Renamed(name, now)).0[i];
      var u := users[i];
      if u.id == id then
        r.name == name && r.updatedAt == Some(now)
        && r == u.(name := r.name, updatedAt := r.updatedAt)
      else r == u
  {
  }

  /** `update_user_password` changes the password hash and `updated_at` and nothing else. */
  lemma RepasswordChangesOnlyPassword(users: seq<User>, id: Uuid, password: string, now: Timestamp, i: nat)
    requires i < |users|
    ensures var r := UpdateReturning(users, id, Repassworded(password, now)).0[i];
      var u := users[i];
      if u.id == id then
        r.password == password && r.updatedAt == Some(now)
        && r == u.(password := r.password, updatedAt := r.updatedAt)
      else r == u
  {
  }

  /** `save_database_details` replaces the connection of the tenant with the id and neither
      refreshes `updated_at` nor touches the cipher settings. */
  lemma ConnectChangesOnlyConnection(users: seq<User>, id: Uuid, c: DbConnection, i: nat)
    requires i < |users|
    ensures var r := UpdateWhere(users, id, Connected(c))[i];
      var u := users[i];
      if u.id == id then r.dbConnection == Some(c) && r.updatedAt == u.updatedAt && r == u.(dbConnection := r.dbConnection)
      else r == u
  {
  }

  /** `save_user_key` sets the key and the method together, overwriting whatever pair was
      there, refreshes `updated_at`, and changes nothing else. */
  lemma KeyChangesOnlyCipher(users: seq<User>, id: Uuid, key: Bytes, m: EncryptionMethod, now: Timestamp, i: nat)
    requires i < |users|
    ensures var r := UpdateWhere(users, id, Keyed(key, m, now))[i];
      var u := users[i];
      if u.id == id then
        r.keys == Some(key) && r.encryptionMethod == Some(m) && r.updatedAt == Some(now)
        && r == u.(keys := r.keys, encryptionMethod := r.encryptionMethod, updatedAt := r.updatedAt)
      else r == u
  {
  }

  /** An update whose change keeps ids, addresses and pairing keeps the table valid. */
  lemma UpdatePreservesValid(users: seq<User>, id: Uuid, f: User -> User)
    requires Valid(users)
    requires forall u :: f(u).id == u.id && f(u).email == u.email && (Paired(u) ==> Paired(f(u)))
    ensures Valid(UpdateWhere(users, id, f))
  {
  }

  /** None of the four updates breaks uniqueness or the pairing of method and key. */
  lemma UpdatesPreserveValid(users: seq<User>, id: Uuid, name: string, password: string, c: DbConnection,
                              key: Bytes, m: EncryptionMethod, now: Timestamp)
    requires Valid(users)
    ensures Valid(UpdateWhere(users, id, Renamed(name, now)))
    ensures Valid(UpdateWhere(users, id, Repassworded(password, now)))
    ensures Valid(UpdateWhere(users, id, Connected(c)))
    ensures Valid(UpdateWhere(users, id, Keyed(key, m, now)))
  {
    UpdatePreservesValid(users, id, Renamed(name, now));
    UpdatePreservesValid(users, id, Repassworded(password, now));
    UpdatePreservesValid(users, id, Connected(c));
    UpdatePreservesValid(users, id, Keyed(key, m, now));
  }

  /** The tenant table as the server's pool sees it. */
  class UserTable {
    var users: seq<User>

    constructor ()
      ensures users == []
      ensures Valid(users)
    {
      users := [];
    }

    method SaveUser(id: Uuid, name: string, email: string, password: string, apiKey: string, now: Timestamp)
      returns (r: Result<User, DbError>)
      modifies this
      ensures var s := InsertUser(old(users), id, name, email, password, apiKey, now);
        if s.Ok? then r == Ok(s.value.1) && users == s.value.0 else r == Err(s.error) && users == old(users)
      ensures old(Valid(users)) ==> Valid(users)
    {
      var s := InsertUser(users, id, name, email, password, apiKey, now);
      if s.Err? {
        return Err(s.error);
      }
      if Valid(users) {
        SaveUserPreservesValid(users, id, name, email, password, apiKey, now);
      }
      users := s.value.0;
      r := Ok(s.value.1);
    }

    method UpdateUserName(id: Uuid, name: string, now: Timestamp) returns (r: Result<User, DbError>)
      modifies this
      ensures (users, r) == UpdateReturning(old(users), id, Renamed(name, now))
      ensures old(Valid(users)) ==> Valid(users)
    {
      var u := UpdateReturning(users, id, Renamed(name, now));
      UpdatePreservesValidIf(users, id, Renamed(name, now));
      users, r := u.0, u.1;
    }

    method UpdateUserPassword(id: Uuid, password: string, now: Timestamp) returns (r: Result<User, DbError>)
      modifies this
      ensures (users, r) == UpdateReturning(old(users), id, Repassworded(password, now))
      ensures old(Valid(users)) ==> Valid(users)
    {
      var u := UpdateReturning(users, id, Repassworded(password, now));
      UpdatePreservesValidIf(users, id, Repassworded(password, now));
      users, r := u.0, u.1;
    }

    /** `execute` rather than `fetch_one`: an id that matches no row is no error. */
    method SaveDatabaseDetails(id: Uuid, c: DbConnection)
      modifies this
      ensures users == UpdateWhere(old(users), id, Connected(c))
      ensures old(Valid(users)) ==> Valid(users)
    {
      UpdatePreservesValidIf(users, id, Connected(c));
      users := UpdateWhere(users, id, Connected(c));
    }

    method SaveUserKey(id: Uuid, key: Bytes, m: EncryptionMethod, now: Timestamp)
      modifies this
      ensures users == UpdateWhere(old(users), id, Keyed(key, m, now))
      ensures old(Valid(users)) ==> Valid(users)
    {
      UpdatePreservesValidIf(users, id, Keyed(key, m, now));
      users := UpdateWhere(users, id, Keyed(key, m, now));
    }
  }

  lemma UpdatePreservesValidIf(users: seq<User>, id: Uuid, f: User -> User)
    requires forall u :: f(u).id == u.id && f(u).email == u.email && (Paired(u) ==> Paired(f(u)))
    ensures Valid(users) ==> Valid(UpdateWhere(users, id, f))
  {
    if Valid(users) {
      UpdatePreservesValid(users, id, f);
    }
  }
}
