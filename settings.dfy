/** The settings endpoints (src/handler/setting.rs): register the tenant's own database, and
    choose the tenant's cipher suite, which comes with a freshly generated key. Opening a
    connection and creating the tenant tables are I/O and appear as the outcomes `reachable`
    and `createTables`; the random source is `rng` and the clock `now`. */
module Settings {
  import opened Text
  import opened Wrappers
  import opened Models
  import opened Cipher
  import opened Dtos
  import opened KeyGen
  import opened UserDb
  import opened Reveal

  // ---- database ----

  /** `database`: validate the form; copy it into a descriptor; open a connection with it and
      create the tenant tables there; only then store the descriptor on the tenant's row. */
  function DatabaseRequest(body: DatabaseDto, userId: Uuid, reachable: DbConnection -> bool,
                           createTables: DbConnection -> bool, users: seq<User>): (seq<User>, Result<(), HandlerError>)
  {
    if !ValidDatabase(body) then (users, Err(BadRequest))
    else
      var c := ToDbConnection(body);
      if !reachable(c) then (users, Err(ServerError(ConnectFailed)))
      else if !createTables(c) then (users, Err(ServerError(TablesNotCreated)))
      else (UpdateWhere(users, userId, Connected(c)), Ok(()))
  }

  method SetDatabase(body: DatabaseDto, userId: Uuid, reachable: DbConnection -> bool,
                     createTables: DbConnection -> bool, db: UserTable) returns (r: Result<(), HandlerError>)
    modifies db
    ensures (db.users, r) == DatabaseRequest(body, userId, reachable, createTables, old(db.users))
    ensures old(Valid(db.users)) ==> Valid(db.users)
  {
    if !ValidDatabase(body) {
      return Err(BadRequest);
    }
    var c := DbConnection(body.host, body.username, body.password, body.database, body.port);
    if !reachable(c) {
      return Err(ServerError(ConnectFailed));
    }
    if !createTables(c) {
      return Err(ServerError(TablesNotCreated));
    }
    db.SaveDatabaseDetails(userId, c);
    r := Ok(());
  }

  /** The descriptor is stored only once the form is valid, the database answers and its
      tables exist; any failure leaves the tenant table as it was. A stored descriptor is the
      form field for field with a port that fits 16 bits, and the rest of the row, its
      `updated_at` included, is unchanged. */
  lemma DatabaseOutcome(body: DatabaseDto, userId: Uuid, reachable: DbConnection -> bool,
                        createTables: DbConnection -> bool, users: seq<User>, i: nat)
    requires i < |users|
    ensures var (after, r) := DatabaseRequest(body, userId, reachable, createTables, users);
      (r.Ok? <==> ValidDatabase(body) && reachable(ToDbConnection(body)) && createTables(ToDbConnection(body)))
      && (r.Err? ==> after == users)
    ensures var (after, r) := DatabaseRequest(body, userId, reachable, createTables, users);
      r.Ok? && users[i].id == userId ==>
        var c := after[i].dbConnection.value;
        after[i] == users[i].(dbConnection := Some(c))
        && c.host == body.host && c.username == body.username && c.password == body.password
        && c.database == body.database && c.port == body.port && 0 < c.port < 0x1_0000
    ensures var (after, r) := DatabaseRequest(body, userId, reachable, createTables, users);
      users[i].id != userId ==> after[i] == users[i]
  {
    if ValidDatabase(body) {
      ValidDatabasePort(body);
      ConnectChangesOnlyConnection(users, userId, ToDbConnection(body), i);
    }
  }

  // ---- encryption_method ----

  /** The key `generate_key` draws for a method. */
  function DrawnKey(m: EncryptionMethod, rng: nat -> byte): Bytes {
    seq(GeneratedKeyLength(m), i requires 0 <= i < GeneratedKeyLength(m) => rng(i))
  }

  /** `encryption_method`: validate the form; draw a key of the method's length; store key and
      method on the tenant's row together. */
  function EncryptionMethodRequest(body: EncryptionMethodDto, userId: Uuid, rng: nat -> byte, now: Timestamp,
                                   users: seq<User>): (seq<User>, Result<(), HandlerError>)
  {
    if !ValidEncryptionMethodDto(body) then (users, Err(BadRequest))
    else
      var m := body.encryptionMethod;
      (UpdateWhere(users, userId, Keyed(DrawnKey(m, rng), m, now)), Ok(()))
  }

  method SetEncryptionMethod(body: EncryptionMethodDto, userId: Uuid, rng: nat -> byte, now: Timestamp, db: UserTable)
    returns (r: Result<(), HandlerError>)
    modifies db
    ensures (db.users, r) == EncryptionMethodRequest(body, userId, rng, now, old(db.users))
    ensures old(Valid(db.users)) ==> Valid(db.users)
  {
    if !ValidEncryptionMethodDto(body) {
      return Err(BadRequest);
    }
    var key := GenerateKey(body.encryptionMethod, rng);
    assert key == DrawnKey(body.encryptionMethod, rng);
    db.SaveUserKey(userId, key, body.encryptionMethod, now);
    r := Ok(());
  }

  /** Choosing a cipher suite always succeeds. It stores, with the method asked for, a new key
      of that method's length drawn byte by byte from the random source, whatever method and key
      the tenant held before (secrets stored under the old key are not looked at), and `decrypt`
      never rejects that key's length. Other tenants are untouched. */
  lemma EncryptionMethodOutcome(body: EncryptionMethodDto, userId: Uuid, rng: nat -> byte, now: Timestamp,
                                users: seq<User>, i: nat, p: Primitives, data: Bytes)
    requires i < |users|
    ensures var (after, r) := EncryptionMethodRequest(body, userId, rng, now, users);
      r == Ok(()) && |after| == |users|
    ensures var (after, r) := EncryptionMethodRequest(body, userId, rng, now, users);
      var m := body.encryptionMethod;
      users[i].id == userId ==>
        after[i].encryptionMethod == Some(m) && after[i].keys.Some?
        && |after[i].keys.value| == GeneratedKeyLength(m)
        && (forall j :: 0 <= j < |after[i].keys.value| ==> after[i].keys.value[j] == rng(j))
        && after[i] == users[i].(keys := after[i].keys, encryptionMethod := Some(m), updatedAt := Some(now))
        && Decryption(p, m, after[i].keys.value, data) != Err(KeyLengthMismatch)
    ensures var (after, r) := EncryptionMethodRequest(body, userId, rng, now, users);
      users[i].id != userId ==> after[i] == users[i]
  {
    var m := body.encryptionMethod;
    var key := DrawnKey(m, rng);
    KeyChangesOnlyCipher(users, userId, key, m, now, i);
    GeneratedKeyAccepted(p, m, key, data);
  }
}
