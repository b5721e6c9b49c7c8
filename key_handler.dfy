/** The API-key endpoint (src/handler/keys.rs): a caller holding a tenant's API key reads one
    secret by id, in clear; no session is involved. The tenant database a connection descriptor
    leads to is `tablesOf`, and whether it can be opened is `reachable`. */
module KeyHandler {
  import opened Text
  import opened Wrappers
  import opened Models
  import opened Cipher
  import opened Utf8
  import opened Dtos
  import opened SecretRepo
  import opened UserDb
  import opened Reveal

  /** `RequestQuerySecretByKeyResponseDto`: the secret's value alone. */
  datatype SecretByKeyResponse = SecretByKeyResponse(value: string)

  /** The tenant the key belongs to: the first holding it. */
  function KeyHolder(users: seq<User>, key: string): Option<User> {
    GetUser(users, None, None, None, Some(key))
  }

  /** `get_secret_by_key`: the tenant whose API key it is; their database, found and opened;
      the secret with the id; only then the cipher suite and key; decrypt and decode. */
  function SecretByKey(q: RequestQuerySecretByKeyDto, users: seq<User>, reachable: DbConnection -> bool,
                       tablesOf: DbConnection -> Tables, p: Primitives): Result<SecretByKeyResponse, HandlerError>
  {
    match KeyHolder(users, q.key)
    case None => Err(Unauthorized)
    case Some(u) =>
      if u.dbConnection.None? then Err(ServerError(NoDbConnection))
      else if !reachable(u.dbConnection.value) then Err(ServerError(ConnectFailed))
      else
        match GetSecretsById(tablesOf(u.dbConnection.value).secrets, q.secret)
        case Err(e) => Err(ServerError(Repo(e)))
        case Ok(secret) =>
          if u.encryptionMethod.None? then Err(ServerError(MethodNotFound))
          else if u.keys.None? then Err(ServerError(KeyNotFound))
          else
            match Decryption(p, u.encryptionMethod.value, u.keys.value, secret.encryptedSecretValue)
            case Err(a) => Err(Panic(a))
            case Ok(plain) =>
              match FromUtf8(plain)
              case None => Err(ServerError(InvalidUtf8))
              case Some(text) => Ok(SecretByKeyResponse(text))
  }

  /** The caller is turned away exactly when no tenant holds the key. */
  lemma UnauthorizedIffUnknownKey(q: RequestQuerySecretByKeyDto, users: seq<User>, reachable: DbConnection -> bool,
                                  tablesOf: DbConnection -> Tables, p: Primitives)
    ensures SecretByKey(q, users, reachable, tablesOf, p) == Err(Unauthorized)
            <==> forall i :: 0 <= i < |users| ==> users[i].apiKeys != Some(q.key)
  {
    assert forall i :: 0 <= i < |users| ==>
      (Matches(users[i], None, None, None, Some(q.key)) <==> users[i].apiKeys == Some(q.key));
  }

  /** A holder without a database, or whose database cannot be reached, fails before any
      secret is looked up: the outcome does not depend on what the databases hold. */
  lemma KeyFailsBeforeLookup(q: RequestQuerySecretByKeyDto, users: seq<User>, reachable: DbConnection -> bool,
                             tablesOf1: DbConnection -> Tables, tablesOf2: DbConnection -> Tables, p: Primitives)
    requires KeyHolder(users, q.key).Some?
    requires var u := KeyHolder(users, q.key).value; u.dbConnection.None? || !reachable(u.dbConnection.value)
    ensures SecretByKey(q, users, reachable, tablesOf1, p).Err?
    ensures SecretByKey(q, users, reachable, tablesOf1, p) == SecretByKey(q, users, reachable, tablesOf2, p)
  {
  }

  /** An id the holder's database does not store fails at the fetch, with the missing row,
      whether or not the cipher suite and key are set. */
  lemma KeyUnknownSecret(q: RequestQuerySecretByKeyDto, users: seq<User>, reachable: DbConnection -> bool,
                         tablesOf: DbConnection -> Tables, p: Primitives)
    requires KeyHolder(users, q.key).Some?
    requires var u := KeyHolder(users, q.key).value; u.dbConnection.Some? && reachable(u.dbConnection.value)
    requires var u := KeyHolder(users, q.key).value; !HasSecret(tablesOf(u.dbConnection.value).secrets, q.secret)
    ensures SecretByKey(q, users, reachable, tablesOf, p) == Err(ServerError(Repo(RowNotFound)))
  {
  }

  /** On success the holder of the key is configured and reachable, and the value returned is
      the text whose bytes are the decryption, under the holder's method and key, of the
      stored secret with the requested id; in a consistent database, of every row with that id. */
  lemma KeyRevealsRequested(q: RequestQuerySecretByKeyDto, users: seq<User>, reachable: DbConnection -> bool,
                            tablesOf: DbConnection -> Tables, p: Primitives)
    requires SecretByKey(q, users, reachable, tablesOf, p).Ok?
    ensures KeyHolder(users, q.key).Some?
    ensures var u := KeyHolder(users, q.key).value;
      u in users && u.apiKeys == Some(q.key)
      && u.dbConnection.Some? && reachable(u.dbConnection.value)
      && u.encryptionMethod.Some? && u.keys.Some?
    ensures var u := KeyHolder(users, q.key).value;
      var t := tablesOf(u.dbConnection.value);
      var value := SecretByKey(q, users, reachable, tablesOf, p).value.value;
      (exists s :: s in t.secrets && s.id == q.secret
                   && Decryption(p, u.encryptionMethod.value, u.keys.value, s.encryptedSecretValue) == Ok(AsBytes(value)))
      && (UniqueSecretIds(t.secrets) ==>
            forall j :: 0 <= j < |t.secrets| && t.secrets[j].id == q.secret ==>
              Decryption(p, u.encryptionMethod.value, u.keys.value, t.secrets[j].encryptedSecretValue) == Ok(AsBytes(value)))
  {
    var u := KeyHolder(users, q.key).value;
    var t := tablesOf(u.dbConnection.value);
    var s := GetSecretsById(t.secrets, q.secret).value;
    var plain := Decryption(p, u.encryptionMethod.value, u.keys.value, s.encryptedSecretValue).value;
    var text := FromUtf8(plain).value;
    AsBytesFromUtf8(plain, text);
    if UniqueSecretIds(t.secrets) {
      forall j | 0 <= j < |t.secrets| && t.secrets[j].id == q.secret
        ensures t.secrets[j] == s
      {
        IdIndexed(t.secrets, j, q.secret);
      }
    }
  }
}
