/** The history endpoint (src/handler/secrets_version.rs): a page of one secret's past
    versions, decrypted. */
module VersionHandler {
  import opened Text
  import opened Wrappers
  import opened Models
  import opened Cipher
  import opened Utf8
  import opened Dtos
  import opened SecretRepo
  import opened Reveal
  import opened SecretHandlers

  /** `get_secret_version`: validate the query; find and open the tenant database; read the
      page of the secret's history (count first); only then look for the cipher suite and key;
      reveal every history row, in order, under its own id. */
  function ListVersions(q: RequestQuerySecretVersionDto, u: User, reachable: DbConnection -> bool, t: Tables, p: Primitives)
    : Result<SecretResponseDto, HandlerError>
  {
    if !ValidVersionQuery(q) then Err(BadRequest)
    else if u.dbConnection.None? then Err(ServerError(NoDbConnection))
    else if !reachable(u.dbConnection.value) then Err(ServerError(ConnectFailed))
    else
      var (count, page) := GetSecretsVersion(t, q.id, PageOrDefault(q.page), LimitOrDefault(q.limit));
      if u.encryptionMethod.None? then Err(ServerError(MethodNotFound))
      else if u.keys.None? then Err(ServerError(KeyNotFound))
      else
        match RevealAll(p, u.encryptionMethod.value, u.keys.value, FromVersions(page))
        case Err(e) => Err(e)
        case Ok(sent) => Ok(SecretResponseDto(FilterSecrets(sent), count))
  }

  /** The page of history rows the listing reads, under the defaults. */
  function ListedVersions(q: RequestQuerySecretVersionDto, t: Tables): seq<SecretVersion>
    requires ValidVersionQuery(q)
  {
    GetSecretsVersion(t, q.id, PageOrDefault(q.page), LimitOrDefault(q.limit)).1
  }

  method GetSecretVersionRequest(q: RequestQuerySecretVersionDto, u: User, reachable: DbConnection -> bool,
                                 store: SecretStore, p: Primitives) returns (r: Result<SecretResponseDto, HandlerError>)
    ensures r == ListVersions(q, u, reachable, store.State(), p)
  {
    if !ValidVersionQuery(q) {
      return Err(BadRequest);
    }
    var secretId := q.id;
    var page := PageOrDefault(q.page);
    var limit := LimitOrDefault(q.limit);
    if u.dbConnection.None? {
      return Err(ServerError(NoDbConnection));
    }
    if !reachable(u.dbConnection.value) {
      return Err(ServerError(ConnectFailed));
    }
    var (count, history) := GetSecretsVersion(store.State(), secretId, page, limit);
    if u.encryptionMethod.None? {
      return Err(ServerError(MethodNotFound));
    }
    if u.keys.None? {
      return Err(ServerError(KeyNotFound));
    }
    var sent := RevealRows(p, u.encryptionMethod.value, u.keys.value, FromVersions(history));
    if sent.Err? {
      return Err(sent.error);
    }
    r := Ok(SecretResponseDto(FilterSecrets(sent.value), count));
  }

  /** The history listing succeeds exactly when the query is valid, the tenant is fully
      configured and reachable, and every history row of the page is readable. */
  lemma ListVersionsSucceeds(q: RequestQuerySecretVersionDto, u: User, reachable: DbConnection -> bool, t: Tables, p: Primitives)
    ensures ListVersions(q, u, reachable, t, p).Ok? <==>
      ValidVersionQuery(q) && u.dbConnection.Some? && reachable(u.dbConnection.value)
      && u.encryptionMethod.Some? && u.keys.Some?
      && forall i :: 0 <= i < |ListedVersions(q, t)| ==>
           Readable(p, u.encryptionMethod.value, u.keys.value, ListedVersions(q, t)[i].encryptedSecretValue)
  {
    if ValidVersionQuery(q) && u.dbConnection.Some? && reachable(u.dbConnection.value)
      && u.encryptionMethod.Some? && u.keys.Some? {
      RevealAllOk(p, u.encryptionMethod.value, u.keys.value, FromVersions(ListedVersions(q, t)));
    }
  }

  /** A successful history listing shows rows of the asked-for secret only, in the order of the
      page: each under the history row's own id (not the secret's), with the version the row
      recorded and the decryption of its ciphertext; the count is that of the secret's history. */
  lemma ListVersionsShows(q: RequestQuerySecretVersionDto, u: User, reachable: DbConnection -> bool, t: Tables, p: Primitives)
    requires ListVersions(q, u, reachable, t, p).Ok?
    ensures ValidVersionQuery(q) && u.encryptionMethod.Some? && u.keys.Some?
    ensures var resp := ListVersions(q, u, reachable, t, p).value;
      var page := ListedVersions(q, t);
      resp.totalCount == |HistoryOf(t.versions, q.id)| && |resp.secret| == |page|
      && forall i :: 0 <= i < |page| ==>
           page[i] in t.versions && page[i].secretId == q.id
           && resp.secret[i].id == UuidString(page[i].id)
           && resp.secret[i].secretName == page[i].secretName
           && resp.secret[i].version == page[i].version
           && Decryption(p, u.encryptionMethod.value, u.keys.value, page[i].encryptedSecretValue).Ok?
           && AsBytes(resp.secret[i].secretValue)
              == Decryption(p, u.encryptionMethod.value, u.keys.value, page[i].encryptedSecretValue).value
  {
    var page := ListedVersions(q, t);
    var rows := FromVersions(page);
    RevealAllEach(p, u.encryptionMethod.value, u.keys.value, rows);
    var sent := RevealAll(p, u.encryptionMethod.value, u.keys.value, rows).value;
    assert forall i :: 0 <= i < |page| ==> RevealOne(p, u.encryptionMethod.value, u.keys.value, rows[i]) == Ok(sent[i]);
  }

  /** An invalid query, a tenant without a database, or one whose database cannot be reached,
      fails before the history is read. */
  lemma VersionsFailBeforeFetch(q: RequestQuerySecretVersionDto, u: User, reachable: DbConnection -> bool,
                                t1: Tables, t2: Tables, p: Primitives)
    requires !ValidVersionQuery(q) || u.dbConnection.None? || !reachable(u.dbConnection.value)
    ensures ListVersions(q, u, reachable, t1, p).Err?
    ensures ListVersions(q, u, reachable, t1, p) == ListVersions(q, u, reachable, t2, p)
  {
  }

  /** Each successful edit adds one entry to the edited secret's history count, and none to any
      other secret's. */
  lemma EditAddsOneVersion(body: EditSecretDto, u: User, reachable: DbConnection -> bool, encrypt: Encrypt,
                           t: Tables, versionId: Uuid, now: Timestamp, other: Uuid, page: nat, limit: nat)
    requires Consistent(t) && page >= 1
    requires EditRequest(body, u, reachable, encrypt, t, versionId, now).1.Ok?
    ensures var t2 := EditRequest(body, u, reachable, encrypt, t, versionId, now).0;
      GetSecretsVersion(t2, body.id, page, limit).0 == GetSecretsVersion(t, body.id, page, limit).0 + 1
      && (other != body.id ==> GetSecretsVersion(t2, other, page, limit).0 == GetSecretsVersion(t, other, page, limit).0)
  {
    EditRequestEdits(body, u, reachable, encrypt, t, versionId, now);
    var sealed := encrypt(u.encryptionMethod.value, u.keys.value, AsBytes(body.secretValue));
    EditSucceeds(t, body.id, body.secretName, sealed, versionId, now);
    var k :| 0 <= k < |t.secrets| && t.secrets[k].id == body.id;
    EditHistory(t, k, body.secretName, sealed, versionId, now, other);
  }
}
