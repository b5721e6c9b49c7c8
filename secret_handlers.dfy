/** The secret endpoints (src/handler/secrets.rs): list a page of secrets in clear, store a
    batch of new secrets, and replace the value of one. The tenant's database is the store the
    tenant's connection descriptor leads to; whether that connection can be opened is the
    parameter `reachable`, and the cipher of src/utils/encrypt.rs the parameter `encrypt`. */
module SecretHandlers {
  import opened Text
  import opened Wrappers
  import opened Models
  import opened Cipher
  import opened Utf8
  import opened Dtos
  import opened SecretRepo
  import opened Reveal

  /** `encrypt(method, key, plaintext)`. */
  type Encrypt = (EncryptionMethod, Bytes, Bytes) -> Bytes

  /** Decrypting what `encrypt` produced gives the plaintext back, under one method and key. */
  ghost predicate RoundTrips(p: Primitives, encrypt: Encrypt, m: EncryptionMethod, key: Bytes) {
    forall plain :: Decryption(p, m, key, encrypt(m, key, plain)) == Ok(plain)
  }

  // ---- get_secrets ----

  /** `get_secrets`: validate the query; find and open the tenant database; read the page
      (count first); only then look for the cipher suite and key; reveal every row, in order. */
  function ListSecrets(q: RequestQueryDto, u: User, reachable: DbConnection -> bool, t: Tables, p: Primitives)
    : Result<SecretResponseDto, HandlerError>
  {
    if !ValidQuery(q) then Err(BadRequest)
    else if u.dbConnection.None? then Err(ServerError(NoDbConnection))
    else if !reachable(u.dbConnection.value) then Err(ServerError(ConnectFailed))
    else
      var (count, page) := GetSecrets(t, PageOrDefault(q.page), LimitOrDefault(q.limit));
      if u.encryptionMethod.None? then Err(ServerError(MethodNotFound))
      else if u.keys.None? then Err(ServerError(KeyNotFound))
      else
        match RevealAll(p, u.encryptionMethod.value, u.keys.value, FromSecrets(page))
        case Err(e) => Err(e)
        case Ok(sent) => Ok(SecretResponseDto(FilterSecrets(sent), count))
  }

  /** The page of rows the listing reads, under the defaults. */
  function ListedPage(q: RequestQueryDto, t: Tables): seq<Secret>
    requires ValidQuery(q)
  {
    GetSecrets(t, PageOrDefault(q.page), LimitOrDefault(q.limit)).1
  }

  /** The handler: early exits in the order of the source, then the loop that decrypts and
      decodes each row of the page. */
  method GetSecretsRequest(q: RequestQueryDto, u: User, reachable: DbConnection -> bool, store: SecretStore, p: Primitives)
    returns (r: Result<SecretResponseDto, HandlerError>)
    ensures r == ListSecrets(q, u, reachable, store.State(), p)
  {
    if !ValidQuery(q) {
      return Err(BadRequest);
    }
    var page := PageOrDefault(q.page);
    var limit := LimitOrDefault(q.limit);
    if u.dbConnection.None? {
      return Err(ServerError(NoDbConnection));
    }
    if !reachable(u.dbConnection.value) {
      return Err(ServerError(ConnectFailed));
    }
    var (count, secrets) := GetSecrets(store.State(), page, limit);
    if u.encryptionMethod.None? {
      return Err(ServerError(MethodNotFound));
    }
    if u.keys.None? {
      return Err(ServerError(KeyNotFound));
    }
    var sent := RevealRows(p, u.encryptionMethod.value, u.keys.value, FromSecrets(secrets));
    if sent.Err? {
      return Err(sent.error);
    }
    r := Ok(SecretResponseDto(FilterSecrets(sent.value), count));
  }

  /** The listing succeeds exactly when the query is valid, the tenant is fully configured and
      reachable, and every row of the page decrypts to UTF-8 text; one bad row fails it all. */
  lemma ListSecretsSucceeds(q: RequestQueryDto, u: User, reachable: DbConnection -> bool, t: Tables, p: Primitives)
    ensures ListSecrets(q, u, reachable, t, p).Ok? <==>
      ValidQuery(q) && u.dbConnection.Some? && reachable(u.dbConnection.value)
      && u.encryptionMethod.Some? && u.keys.Some?
      && forall i :: 0 <= i < |ListedPage(q, t)| ==>
           Readable(p, u.encryptionMethod.value, u.keys.value, ListedPage(q, t)[i].encryptedSecretValue)
  {
    if ValidQuery(q) && u.dbConnection.Some? && reachable(u.dbConnection.value)
      && u.encryptionMethod.Some? && u.keys.Some? {
      RevealAllOk(p, u.encryptionMethod.value, u.keys.value, FromSecrets(ListedPage(q, t)));
    }
  }

  /** A successful listing shows the page as the repository returned it: same length and
      order, each id printed, name and version copied, each value the text whose bytes are the
      decryption of that row's ciphertext; the count is that of all stored secrets. */
  lemma ListSecretsShows(q: RequestQueryDto, u: User, reachable: DbConnection -> bool, t: Tables, p: Primitives)
    requires ListSecrets(q, u, reachable, t, p).Ok?
    ensures ValidQuery(q) && u.encryptionMethod.Some? && u.keys.Some?
    ensures var resp := ListSecrets(q, u, reachable, t, p).value;
      var page := ListedPage(q, t);
      resp.totalCount == |t.secrets| && |resp.secret| == |page|
      && forall i :: 0 <= i < |page| ==>
           resp.secret[i].id == UuidString(page[i].id)
           && resp.secret[i].secretName == page[i].secretName
           && resp.secret[i].version == page[i].version
           && Decryption(p, u.encryptionMethod.value, u.keys.value, page[i].encryptedSecretValue).Ok?
           && AsBytes(resp.secret[i].secretValue)
              == Decryption(p, u.encryptionMethod.value, u.keys.value, page[i].encryptedSecretValue).value
  {
    var page := ListedPage(q, t);
    var rows := FromSecrets(page);
    RevealAllEach(p, u.encryptionMethod.value, u.keys.value, rows);
    var sent := RevealAll(p, u.encryptionMethod.value, u.keys.value, rows).value;
    assert forall i :: 0 <= i < |page| ==> RevealOne(p, u.encryptionMethod.value, u.keys.value, rows[i]) == Ok(sent[i]);
  }

  /** An invalid query, a tenant without a database, or one whose database cannot be reached,
      fails before the store is read: the outcome is the same whatever the tables hold. */
  lemma ListFailsBeforeFetch(q: RequestQueryDto, u: User, reachable: DbConnection -> bool, t1: Tables, t2: Tables, p: Primitives)
    requires !ValidQuery(q) || u.dbConnection.None? || !reachable(u.dbConnection.value)
    ensures ListSecrets(q, u, reachable, t1, p).Err?
    ensures ListSecrets(q, u, reachable, t1, p) == ListSecrets(q, u, reachable, t2, p)
  {
  }

  // ---- save_secrets ----

  /** The row `save_secrets` builds for one form: the name, the encrypted bytes of the value,
      and version 1. */
  function Sealed1(encrypt: Encrypt, m: EncryptionMethod, key: Bytes, d: SaveSecretDto): SavedSecret {
    SavedSecret(d.secretName, encrypt(m, key, AsBytes(d.secretValue)), 1)
  }

  function Sealing(encrypt: Encrypt, m: EncryptionMethod, key: Bytes, body: seq<SaveSecretDto>): (r: seq<SavedSecret>)
    ensures |r| == |body| && forall i :: 0 <= i < |body| ==> r[i] == Sealed1(encrypt, m, key, body[i])
  {
    seq(|body|, i requires 0 <= i < |body| => Sealed1(encrypt, m, key, body[i]))
  }

  predicate AllValidSave(body: seq<SaveSecretDto>) {
    forall i :: 0 <= i < |body| ==> ValidSave(body[i])
  }

  /** `save_secrets`: validate every form; look for the cipher suite and key; encrypt each
      value; find and open the tenant database; store the batch in one statement. */
  function SaveRequest(body: seq<SaveSecretDto>, u: User, reachable: DbConnection -> bool, encrypt: Encrypt,
                       t: Tables, gen: nat -> Uuid, now: Timestamp): (Tables, Result<(), HandlerError>)
  {
    if !AllValidSave(body) then (t, Err(BadRequest))
    else if u.encryptionMethod.None? then (t, Err(ServerError(MethodNotFound)))
    else if u.keys.None? then (t, Err(ServerError(KeyNotFound)))
    else if u.dbConnection.None? then (t, Err(ServerError(NoDbConnection)))
    else if !reachable(u.dbConnection.value) then (t, Err(ServerError(ConnectFailed)))
    else
      match Save(t, Sealing(encrypt, u.encryptionMethod.value, u.keys.value, body), gen, now)
      case Err(e) => (t, Err(ServerError(Repo(e))))
      case Ok(t2) => (t2, Ok(()))
  }

  /** The handler with its two loops: the validation loop that stops at the first invalid
      form, and the loop that pushes one encrypted row per form. */
  method SaveSecretsRequest(body: seq<SaveSecretDto>, u: User, reachable: DbConnection -> bool, encrypt: Encrypt,
                            store: SecretStore, gen: nat -> Uuid, now: Timestamp) returns (r: Result<(), HandlerError>)
    modifies store
    ensures (store.State(), r) == SaveRequest(body, u, reachable, encrypt, old(store.State()), gen, now)
  {
    for i := 0 to |body|
      invariant forall j :: 0 <= j < i ==> ValidSave(body[j])
    {
      if !ValidSave(body[i]) {
        return Err(BadRequest);
      }
    }
    if u.encryptionMethod.None? {
      return Err(ServerError(MethodNotFound));
    }
    if u.keys.None? {
      return Err(ServerError(KeyNotFound));
    }
    var m, key := u.encryptionMethod.value, u.keys.value;
    var saved: seq<SavedSecret> := [];
    for i := 0 to |body|
      invariant |saved| == i
      invariant forall j :: 0 <= j < i ==> saved[j] == Sealed1(encrypt, m, key, body[j])
    {
      saved := saved + [SavedSecret(body[i].secretName, encrypt(m, key, AsBytes(body[i].secretValue)), 1)];
    }
    assert saved == Sealing(encrypt, m, key, body);
    if u.dbConnection.None? {
      return Err(ServerError(NoDbConnection));
    }
    if !reachable(u.dbConnection.value) {
      return Err(ServerError(ConnectFailed));
    }
    var e := store.SaveSecrets(saved, gen, now);
    if e.Err? {
      return Err(ServerError(Repo(e.error)));
    }
    r := Ok(());
  }

  /** The rows a successful batch adds: one per form, in input order, under the generated ids,
      with the form's name, the encryption of its value and version 1. */
  function SavedRows(body: seq<SaveSecretDto>, encrypt: Encrypt, m: EncryptionMethod, key: Bytes,
                     gen: nat -> Uuid, now: Timestamp): (rows: seq<Secret>)
    ensures |rows| == |body|
    ensures forall i :: 0 <= i < |body| ==>
      rows[i] == Secret(gen(i), body[i].secretName, encrypt(m, key, AsBytes(body[i].secretValue)), 1, now, now)
  {
    NewRows(Sealing(encrypt, m, key, body), gen, now)
  }

  /** What storing the encrypted batch does, once the configuration checks have passed. */
  lemma StoreSealed(body: seq<SaveSecretDto>, encrypt: Encrypt, m: EncryptionMethod, key: Bytes,
                    t: Tables, gen: nat -> Uuid, now: Timestamp)
    ensures var s := Save(t, Sealing(encrypt, m, key, body), gen, now);
      (s.Ok? <==> body != [] && BindableBatch(|body|)
                  && (forall i :: 0 <= i < |body| ==> |body[i].secretName| <= NAME_MAX)
                  && FreshIds(t, SavedRows(body, encrypt, m, key, gen, now)))
      && (s.Ok? ==> s.value == Tables(t.secrets + SavedRows(body, encrypt, m, key, gen, now), t.versions))
  {
    var items := Sealing(encrypt, m, key, body);
    SaveOutcome(t, items, gen, now);
    if body != [] && BindableBatch(|body|) {
      var rows := NewRows(items, gen, now);
      assert NamesFit(rows) <==> forall i :: 0 <= i < |body| ==> |body[i].secretName| <= NAME_MAX by {
        assert forall i :: 0 <= i < |body| ==> rows[i].secretName == body[i].secretName;
      }
    }
  }

  /** A save succeeds exactly when every form is valid, the tenant is configured and reachable,
      the batch is not empty and binds at most 65535 parameters, every name fits its column and the new ids are fresh; it then
      appends the batch's rows after the stored ones and leaves the history alone. Any failure
      leaves the tables as they were. */
  lemma SaveRequestOutcome(body: seq<SaveSecretDto>, u: User, reachable: DbConnection -> bool, encrypt: Encrypt,
                           t: Tables, gen: nat -> Uuid, now: Timestamp)
    ensures var (t2, r) := SaveRequest(body, u, reachable, encrypt, t, gen, now);
      r.Err? ==> t2 == t
    ensures var (t2, r) := SaveRequest(body, u, reachable, encrypt, t, gen, now);
      r.Ok? <==>
        AllValidSave(body) && u.encryptionMethod.Some? && u.keys.Some?
        && u.dbConnection.Some? && reachable(u.dbConnection.value)
        && body != [] && BindableBatch(|body|)
        && (forall i :: 0 <= i < |body| ==> |body[i].secretName| <= NAME_MAX)
        && FreshIds(t, SavedRows(body, encrypt, u.encryptionMethod.value, u.keys.value, gen, now))
    ensures var (t2, r) := SaveRequest(body, u, reachable, encrypt, t, gen, now);
      r.Ok? ==>
        t2 == Tables(t.secrets + SavedRows(body, encrypt, u.encryptionMethod.value, u.keys.value, gen, now), t.versions)
  {
    if AllValidSave(body) && u.encryptionMethod.Some? && u.keys.Some?
      && u.dbConnection.Some? && reachable(u.dbConnection.value) {
      StoreSealed(body, encrypt, u.encryptionMethod.value, u.keys.value, t, gen, now);
    }
  }

  /** One invalid form rejects the whole batch before anything else is looked at. */
  lemma SaveRejectsInvalidForm(body: seq<SaveSecretDto>, i: nat, u: User, reachable: DbConnection -> bool,
                               encrypt: Encrypt, t: Tables, gen: nat -> Uuid, now: Timestamp)
    requires i < |body| && (body[i].secretName == [] || body[i].secretValue == [])
    ensures SaveRequest(body, u, reachable, encrypt, t, gen, now) == (t, Err(BadRequest))
  {
  }

  /** An empty batch passes validation and reaches the database, which rejects the
      `VALUES` clause without tuples. */
  lemma SaveEmptyBatch(u: User, reachable: DbConnection -> bool, encrypt: Encrypt, t: Tables, gen: nat -> Uuid, now: Timestamp)
    requires u.encryptionMethod.Some? && u.keys.Some? && u.dbConnection.Some? && reachable(u.dbConnection.value)
    ensures SaveRequest([], u, reachable, encrypt, t, gen, now) == (t, Err(ServerError(Repo(SyntaxError))))
  {
    SaveOutcome(t, [], gen, now);
  }

  /** A batch of more than 21845 valid forms passes every check of the handler and is refused
      by the driver: it would bind more than 65535 parameters. Nothing is stored. */
  lemma SaveOversizedBatch(body: seq<SaveSecretDto>, u: User, reachable: DbConnection -> bool, encrypt: Encrypt,
                           t: Tables, gen: nat -> Uuid, now: Timestamp)
    requires AllValidSave(body) && !BindableBatch(|body|)
    requires u.encryptionMethod.Some? && u.keys.Some? && u.dbConnection.Some? && reachable(u.dbConnection.value)
    ensures SaveRequest(body, u, reachable, encrypt, t, gen, now) == (t, Err(ServerError(Repo(TooManyArguments))))
  {
    SaveOutcome(t, Sealing(encrypt, u.encryptionMethod.value, u.keys.value, body), gen, now);
  }

  /** Whenever the tenant's cipher decrypts what it encrypts, every secret a successful save
      stored reads back as the form's name and value, at version 1. */
  lemma SaveThenReveal(body: seq<SaveSecretDto>, u: User, reachable: DbConnection -> bool, encrypt: Encrypt,
                       t: Tables, gen: nat -> Uuid, now: Timestamp, p: Primitives, i: nat)
    requires SaveRequest(body, u, reachable, encrypt, t, gen, now).1.Ok?
    requires u.encryptionMethod.Some? && u.keys.Some?
    requires RoundTrips(p, encrypt, u.encryptionMethod.value, u.keys.value)
    requires i < |body|
    ensures var t2 := SaveRequest(body, u, reachable, encrypt, t, gen, now).0;
      |t.secrets| + i < |t2.secrets|
      && RevealOne(p, u.encryptionMethod.value, u.keys.value, FromSecret(t2.secrets[|t.secrets| + i]))
         == Ok(SecretResponse(gen(i), body[i].secretName, body[i].secretValue, 1, now, now))
  {
    var m, key := u.encryptionMethod.value, u.keys.value;
    SavedRowAt(body, u, reachable, encrypt, t, gen, now, i);
    var row := SaveRequest(body, u, reachable, encrypt, t, gen, now).0.secrets[|t.secrets| + i];
    assert FromSecret(row) == Sealed(gen(i), body[i].secretName, encrypt(m, key, AsBytes(body[i].secretValue)), 1, now, now);
    RevealEncrypted(p, encrypt, m, key, gen(i), body[i].secretName, body[i].secretValue, 1, now, now);
  }

  /** The row a successful save stores for form i. */
  lemma SavedRowAt(body: seq<SaveSecretDto>, u: User, reachable: DbConnection -> bool, encrypt: Encrypt,
                   t: Tables, gen: nat -> Uuid, now: Timestamp, i: nat)
    requires SaveRequest(body, u, reachable, encrypt, t, gen, now).1.Ok?
    requires u.encryptionMethod.Some? && u.keys.Some? && i < |body|
    ensures var t2 := SaveRequest(body, u, reachable, encrypt, t, gen, now).0;
      |t.secrets| + i < |t2.secrets|
      && t2.secrets[|t.secrets| + i]
         == Secret(gen(i), body[i].secretName, encrypt(u.encryptionMethod.value, u.keys.value, AsBytes(body[i].secretValue)), 1, now, now)
  {
    SaveRequestOutcome(body, u, reachable, encrypt, t, gen, now);
    var rows := SavedRows(body, encrypt, u.encryptionMethod.value, u.keys.value, gen, now);
    assert SaveRequest(body, u, reachable, encrypt, t, gen, now).0.secrets[|t.secrets| + i] == rows[i];
  }

  /** A row holding the encryption of a text reveals that text, under a cipher that decrypts
      what it encrypts. */
  lemma RevealEncrypted(p: Primitives, encrypt: Encrypt, m: EncryptionMethod, key: Bytes, id: Uuid, name: string,
                        value: string, version: I32, createdAt: Timestamp, updatedAt: Timestamp)
    requires RoundTrips(p, encrypt, m, key)
    ensures RevealOne(p, m, key, Sealed(id, name, encrypt(m, key, AsBytes(value)), version, createdAt, updatedAt))
            == Ok(SecretResponse(id, name, value, version, createdAt, updatedAt))
  {
    assert Decryption(p, m, key, encrypt(m, key, AsBytes(value))) == Ok(AsBytes(value));
    FromUtf8AsBytes(value);
  }

  // ---- edit_secrets ----

  /** `edit_secrets`: validate the form; look for the cipher suite and key; encrypt the new
      value; find and open the tenant database; run the repository edit on the form's id and
      name. A failing edit keeps whatever the repository already wrote. */
  function EditRequest(body: EditSecretDto, u: User, reachable: DbConnection -> bool, encrypt: Encrypt,
                       t: Tables, versionId: Uuid, now: Timestamp): (Tables, Result<(), HandlerError>)
  {
    if !ValidEdit(body) then (t, Err(BadRequest))
    else if u.encryptionMethod.None? then (t, Err(ServerError(MethodNotFound)))
    else if u.keys.None? then (t, Err(ServerError(KeyNotFound)))
    else
      var sealed := encrypt(u.encryptionMethod.value, u.keys.value, AsBytes(body.secretValue));
      if u.dbConnection.None? then (t, Err(ServerError(NoDbConnection)))
      else if !reachable(u.dbConnection.value) then (t, Err(ServerError(ConnectFailed)))
      else
        var (t2, e) := EditOutcome(t, body.id, body.secretName, sealed, versionId, now);
        if e.Err? then (t2, Err(ServerError(Repo(e.error)))) else (t2, Ok(()))
  }

  method EditSecretsRequest(body: EditSecretDto, u: User, reachable: DbConnection -> bool, encrypt: Encrypt,
                            store: SecretStore, versionId: Uuid, now: Timestamp) returns (r: Result<(), HandlerError>)
    modifies store
    ensures (store.State(), r) == EditRequest(body, u, reachable, encrypt, old(store.State()), versionId, now)
  {
    if !ValidEdit(body) {
      return Err(BadRequest);
    }
    if u.encryptionMethod.None? {
      return Err(ServerError(MethodNotFound));
    }
    if u.keys.None? {
      return Err(ServerError(KeyNotFound));
    }
    var sealed := encrypt(u.encryptionMethod.value, u.keys.value, AsBytes(body.secretValue));
    if u.dbConnection.None? {
      return Err(ServerError(NoDbConnection));
    }
    if !reachable(u.dbConnection.value) {
      return Err(ServerError(ConnectFailed));
    }
    var e := store.EditSecrets(body.id, body.secretName, sealed, versionId, now);
    if e.Err? {
      return Err(ServerError(Repo(e.error)));
    }
    r := Ok(());
  }

  /** A successful edit request is the repository edit of the form's id and name with the
      encryption of the form's value under the tenant's current method and key. */
  lemma EditRequestEdits(body: EditSecretDto, u: User, reachable: DbConnection -> bool, encrypt: Encrypt,
                         t: Tables, versionId: Uuid, now: Timestamp)
    requires EditRequest(body, u, reachable, encrypt, t, versionId, now).1.Ok?
    ensures ValidEdit(body) && u.encryptionMethod.Some? && u.keys.Some?
    ensures var sealed := encrypt(u.encryptionMethod.value, u.keys.value, AsBytes(body.secretValue));
      EditOutcome(t, body.id, body.secretName, sealed, versionId, now)
      == (EditRequest(body, u, reachable, encrypt, t, versionId, now).0, Ok(()))
  {
  }

  /** A configuration failure leaves the tables as they were; only the repository edit itself
      can leave a trace behind a failure (the history row of an update that then failed). */
  lemma EditConfigFailureChangesNothing(body: EditSecretDto, u: User, reachable: DbConnection -> bool, encrypt: Encrypt,
                                        t: Tables, versionId: Uuid, now: Timestamp)
    requires !ValidEdit(body) || u.encryptionMethod.None? || u.keys.None?
             || u.dbConnection.None? || !reachable(u.dbConnection.value)
    ensures EditRequest(body, u, reachable, encrypt, t, versionId, now).0 == t
    ensures EditRequest(body, u, reachable, encrypt, t, versionId, now).1.error != ServerError(Repo(RowNotFound))
  {
  }

  /** After a successful edit of the secret stored at index k, under a cipher that decrypts
      what it encrypts: the secret reads back as the form's name and value, one version up, and
      the history row appended last reads back as the secret did before the edit. */
  lemma EditThenReveal(body: EditSecretDto, u: User, reachable: DbConnection -> bool, encrypt: Encrypt,
                       t: Tables, versionId: Uuid, now: Timestamp, p: Primitives, k: nat)
    requires Consistent(t) && k < |t.secrets| && t.secrets[k].id == body.id
    requires EditRequest(body, u, reachable, encrypt, t, versionId, now).1.Ok?
    requires u.encryptionMethod.Some? && u.keys.Some?
    requires RoundTrips(p, encrypt, u.encryptionMethod.value, u.keys.value)
    ensures var t2 := EditRequest(body, u, reachable, encrypt, t, versionId, now).0;
      var was := t.secrets[k];
      |t2.secrets| == |t.secrets| && t2.versions == t.versions + [Snapshot(was, versionId, now)]
      && RevealOne(p, u.encryptionMethod.value, u.keys.value, FromSecret(t2.secrets[k]))
         == Ok(SecretResponse(body.id, body.secretName, body.secretValue, was.version + 1, was.createdAt, now))
      && RevealOne(p, u.encryptionMethod.value, u.keys.value, FromVersion(t2.versions[|t.versions|]))
         == RevealOne(p, u.encryptionMethod.value, u.keys.value, FromSecret(was).(id := versionId, createdAt := now, updatedAt := now))
  {
    var m, key := u.encryptionMethod.value, u.keys.value;
    var sealed := encrypt(m, key, AsBytes(body.secretValue));
    EditSuccess(t, k, body.secretName, sealed, versionId, now);
    var was := t.secrets[k];
    RevealEncrypted(p, encrypt, m, key, body.id, body.secretName, body.secretValue, was.version + 1, was.createdAt, now);
  }

  /** The handlers look at the tenant's configuration in different orders: for a tenant with
      neither a database nor a cipher suite, the listing reports the missing database while
      saving and editing report the missing cipher suite. */
  lemma CheckOrderDiffers(q: RequestQueryDto, save: seq<SaveSecretDto>, edit: EditSecretDto, u: User,
                          reachable: DbConnection -> bool, encrypt: Encrypt, t: Tables, p: Primitives,
                          gen: nat -> Uuid, versionId: Uuid, now: Timestamp)
    requires ValidQuery(q) && AllValidSave(save) && ValidEdit(edit)
    requires u.dbConnection.None? && u.encryptionMethod.None?
    ensures ListSecrets(q, u, reachable, t, p) == Err(ServerError(NoDbConnection))
    ensures SaveRequest(save, u, reachable, encrypt, t, gen, now) == (t, Err(ServerError(MethodNotFound)))
    ensures EditRequest(edit, u, reachable, encrypt, t, versionId, now) == (t, Err(ServerError(MethodNotFound)))
  {
  }
}
