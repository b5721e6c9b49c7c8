/** What the reading handlers (src/handler/secrets.rs, src/handler/secrets_version.rs,
    src/handler/keys.rs) share: their failure outcomes and the per-row step that turns a stored
    ciphertext back into text, `String::from_utf8(decrypt(method, key, ciphertext))`. */
module Reveal {
  import opened Text
  import opened Wrappers
  import opened Models
  import opened Cipher
  import opened Utf8
  import opened Dtos

  /** Why a request ended in a server error. */
  datatype Cause =
    | NoDbConnection      // the tenant has no database descriptor
    | ConnectFailed       // `connect_to_user_database` could not reach it
    | TablesNotCreated    // the tenant tables could not be created
    | MethodNotFound      // the tenant has no cipher suite
    | KeyNotFound         // the tenant has no key
    | Repo(error: DbError) // a statement on the tenant database failed
    | InvalidUtf8         // a decrypted value is not UTF-8

  /** How a request ends when it does not succeed: a rejected body or query, a server error,
      an unknown API key, or a panic inside `decrypt` (its `expect` calls). */
  datatype HandlerError =
    | BadRequest
    | ServerError(cause: Cause)
    | Unauthorized
    | Panic(abort: Abort)

  /** A stored row as the reading loops see it: its id, name, ciphertext, version and
      timestamps, from either table. */
  datatype Sealed = Sealed(id: Uuid, secretName: string, ciphertext: Bytes, version: I32,
                           createdAt: Timestamp, updatedAt: Timestamp)

  function FromSecret(s: Secret): Sealed {
    Sealed(s.id, s.secretName, s.encryptedSecretValue, s.version, s.createdAt, s.updatedAt)
  }

  /** A history row is shown under its own id, not the id of the secret it belongs to, and
      with the version it recorded. */
  function FromVersion(v: SecretVersion): Sealed {
    Sealed(v.id, v.secretName, v.encryptedSecretValue, v.version, v.createdAt, v.updatedAt)
  }

  function FromSecrets(ss: seq<Secret>): (r: seq<Sealed>)
    ensures |r| == |ss| && forall i :: 0 <= i < |ss| ==> r[i] == FromSecret(ss[i])
  {
    seq(|ss|, i requires 0 <= i < |ss| => FromSecret(ss[i]))
  }

  function FromVersions(vs: seq<SecretVersion>): (r: seq<Sealed>)
    ensures |r| == |vs| && forall i :: 0 <= i < |vs| ==> r[i] == FromVersion(vs[i])
  {
    seq(|vs|, i requires 0 <= i < |vs| => FromVersion(vs[i]))
  }

  /** The body of both reading loops for one row: decrypt (which may panic), then decode. */
  function RevealOne(p: Primitives, m: EncryptionMethod, key: Bytes, row: Sealed): (r: Result<SecretResponse, HandlerError>)
    ensures r.Ok? <==> Decryption(p, m, key, row.ciphertext).Ok? && FromUtf8(Decryption(p, m, key, row.ciphertext).value).Some?
    ensures r.Ok? ==> (r.value.id == row.id && r.value.secretName == row.secretName && r.value.version == row.version
                       && r.value.createdAt == row.createdAt && r.value.updatedAt == row.updatedAt
                       && AsBytes(r.value.secretValue) == Decryption(p, m, key, row.ciphertext).value)
    ensures r.Err? ==> r.error.Panic? || r.error == ServerError(InvalidUtf8)
  {
    match Decryption(p, m, key, row.ciphertext)
    case Err(a) => Err(Panic(a))
    case Ok(plain) =>
      match FromUtf8(plain)
      case None => Err(ServerError(InvalidUtf8))
      case Some(text) =>
        AsBytesFromUtf8(plain, text);
        Ok(SecretResponse(row.id, row.secretName, text, row.version, row.createdAt, row.updatedAt))
  }

  /** A reading loop over any per-row step: every row's result in order, or the failure of
      the first row that fails. */
  function Collect(f: Sealed -> Result<SecretResponse, HandlerError>, rows: seq<Sealed>)
    : (r: Result<seq<SecretResponse>, HandlerError>)
    ensures r.Ok? ==> |r.value| == |rows|
  {
    if rows == [] then Ok([])
    else
      var n := |rows| - 1;
      match Collect(f, rows[..n])
      case Err(e) => Err(e)
      case Ok(done) =>
        match f(rows[n])
        case Err(e) => Err(e)
        case Ok(x) => Ok(done + [x])
  }

  /** The loop gets through exactly when every row's step does, and then entry i is row i's. */
  lemma {:induction false} CollectEach(f: Sealed -> Result<SecretResponse, HandlerError>, rows: seq<Sealed>)
    ensures Collect(f, rows).Ok? <==> forall i :: 0 <= i < |rows| ==> f(rows[i]).Ok?
    ensures Collect(f, rows).Ok? ==> forall i :: 0 <= i < |rows| ==> f(rows[i]) == Ok(Collect(f, rows).value[i])
    decreases |rows|
  {
    if rows != [] {
      var n := |rows| - 1;
      var prefix := rows[..n];
      CollectEach(f, prefix);
      assert forall i :: 0 <= i < n ==> prefix[i] == rows[i];
      match Collect(f, prefix)
      case Err(_) =>
        var i :| 0 <= i < n && !f(prefix[i]).Ok?;
        assert !f(rows[i]).Ok?;
      case Ok(done) =>
        match f(rows[n])
        case Err(_) =>
        case Ok(x) =>
          var all := done + [x];
          assert forall i :: 0 <= i < n ==> all[i] == done[i];
    }
  }

  /** A failing loop fails with the error of a row whose step fails, every row before it passing. */
  lemma {:induction false} CollectFirstErr(f: Sealed -> Result<SecretResponse, HandlerError>, rows: seq<Sealed>)
    requires Collect(f, rows).Err?
    ensures exists i :: (0 <= i < |rows| && f(rows[i]) == Err(Collect(f, rows).error)
                         && forall j :: 0 <= j < i ==> f(rows[j]).Ok?)
    decreases |rows|
  {
    var n := |rows| - 1;
    var prefix := rows[..n];
    assert forall i :: 0 <= i < n ==> prefix[i] == rows[i];
    if Collect(f, prefix).Err? {
      CollectFirstErr(f, prefix);
      var i :| 0 <= i < n && f(prefix[i]) == Err(Collect(f, prefix).error)
               && forall j :: 0 <= j < i ==> f(prefix[j]).Ok?;
      assert f(rows[i]) == Err(Collect(f, rows).error);
    } else {
      CollectEach(f, prefix);
      assert f(rows[n]) == Err(Collect(f, rows).error);
    }
  }

  /** A failure in the first k rows is the failure of the whole loop. */
  lemma {:induction false} CollectPrefixErr(f: Sealed -> Result<SecretResponse, HandlerError>, rows: seq<Sealed>, k: nat)
    requires k <= |rows| && Collect(f, rows[..k]).Err?
    ensures Collect(f, rows) == Collect(f, rows[..k])
    decreases |rows| - k
  {
    if k < |rows| {
      var longer := rows[..k + 1];
      assert longer[..|longer| - 1] == rows[..k];
      CollectPrefixErr(f, rows, k + 1);
    } else {
      assert rows[..k] == rows;
    }
  }

  /** The loop of both reading handlers. */
  function RevealAll(p: Primitives, m: EncryptionMethod, key: Bytes, rows: seq<Sealed>): Result<seq<SecretResponse>, HandlerError> {
    Collect(row => RevealOne(p, m, key, row), rows)
  }

  /** The loop gets through exactly when every row reveals, and then entry i is row i revealed. */
  lemma RevealAllEach(p: Primitives, m: EncryptionMethod, key: Bytes, rows: seq<Sealed>)
    ensures RevealAll(p, m, key, rows).Ok? <==> forall i :: 0 <= i < |rows| ==> RevealOne(p, m, key, rows[i]).Ok?
    ensures RevealAll(p, m, key, rows).Ok? ==>
              |RevealAll(p, m, key, rows).value| == |rows|
              && forall i :: 0 <= i < |rows| ==> RevealOne(p, m, key, rows[i]) == Ok(RevealAll(p, m, key, rows).value[i])
  {
    CollectEach(row => RevealOne(p, m, key, row), rows);
  }

  /** A failing loop fails with the error of the first row that does not reveal. */
  lemma RevealAllFirstErr(p: Primitives, m: EncryptionMethod, key: Bytes, rows: seq<Sealed>)
    requires RevealAll(p, m, key, rows).Err?
    ensures exists i :: (0 <= i < |rows| && RevealOne(p, m, key, rows[i]) == Err(RevealAll(p, m, key, rows).error)
                         && forall j :: 0 <= j < i ==> RevealOne(p, m, key, rows[j]).Ok?)
  {
    CollectFirstErr(row => RevealOne(p, m, key, row), rows);
  }

  /** A ciphertext that decrypts under the method and key to bytes that are UTF-8 text. */
  predicate Readable(p: Primitives, m: EncryptionMethod, key: Bytes, ciphertext: Bytes) {
    Decryption(p, m, key, ciphertext).Ok? && FromUtf8(Decryption(p, m, key, ciphertext).value).Some?
  }

  /** The loop gets through exactly when every row's ciphertext is readable. */
  lemma RevealAllOk(p: Primitives, m: EncryptionMethod, key: Bytes, rows: seq<Sealed>)
    ensures RevealAll(p, m, key, rows).Ok? <==> forall i :: 0 <= i < |rows| ==> Readable(p, m, key, rows[i].ciphertext)
  {
    RevealAllEach(p, m, key, rows);
    assert forall i :: 0 <= i < |rows| ==> (RevealOne(p, m, key, rows[i]).Ok? <==> Readable(p, m, key, rows[i].ciphertext));
  }

  /** The loop of the reading handlers: push each revealed row, stop at the first failure. */
  method RevealRows(p: Primitives, m: EncryptionMethod, key: Bytes, rows: seq<Sealed>) returns (r: Result<seq<SecretResponse>, HandlerError>)
    ensures r == RevealAll(p, m, key, rows)
  {
    var sent: seq<SecretResponse> := [];
    for i := 0 to |rows|
      invariant RevealAll(p, m, key, rows[..i]) == Ok(sent)
    {
      assert rows[..i + 1][..i] == rows[..i];
      var plain := Decrypt(p, m, key, rows[i].ciphertext);
      if plain.Err? {
        assert RevealAll(p, m, key, rows[..i + 1]).Err?;
        CollectPrefixErr(row => RevealOne(p, m, key, row), rows, i + 1);
        return Err(Panic(plain.error));
      }
      var text := FromUtf8(plain.value);
      if text.None? {
        CollectPrefixErr(row => RevealOne(p, m, key, row), rows, i + 1);
        return Err(ServerError(InvalidUtf8));
      }
      var row := rows[i];
      sent := sent + [SecretResponse(row.id, row.secretName, text.value, row.version, row.createdAt, row.updatedAt)];
    }
    assert rows[..|rows|] == rows;
    r := Ok(sent);
  }
}
