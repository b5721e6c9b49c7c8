/** `PostgresSecretRespository` (src/secret.rs) over the two tables of a tenant database:
    `secrets`, the live rows, and `secret_versions`, one snapshot per edit. The tables
    are sequences of rows in storage order; the column limits of the table definitions
    (`VARCHAR(100)` names, `INTEGER` versions, primary keys on `id`, `secret_id` referencing
    `secrets(id)`) are the database's checks. Ids the database generates come from `gen`,
    `NOW()` is `now`. */
module SecretRepo {
  import opened Text
  import opened Wrappers
  import opened Models
  import opened InsertQuery

  const NAME_MAX: nat := 100

  datatype Tables = Tables(secrets: seq<Secret>, versions: seq<SecretVersion>)

  // ---- ORDER BY created_at DESC ----

  predicate NewestFirst<T>(rows: seq<T>, at: T -> Timestamp) {
    forall i, j :: 0 <= i < j < |rows| ==> at(rows[i]) >= at(rows[j])
  }

  /** Places x after every row at least as new, before the first strictly older one. */
  function InsertByTime<T>(x: T, sorted: seq<T>, at: T -> Timestamp): (r: seq<T>)
    requires NewestFirst(sorted, at)
    ensures multiset(r) == multiset(sorted) + multiset{x}
    ensures NewestFirst(r, at)
  {
    if sorted == [] then [x]
    else if at(x) > at(sorted[0]) then [x] + sorted
    else
      var rest := InsertByTime(x, sorted[1..], at);
      assert sorted == [sorted[0]] + sorted[1..];
      BoundedByHead(x, sorted, rest, at);
      [sorted[0]] + rest
  }

  lemma BoundedByHead<T>(x: T, sorted: seq<T>, rest: seq<T>, at: T -> Timestamp)
    requires sorted != [] && NewestFirst(sorted, at) && at(x) <= at(sorted[0])
    requires multiset(rest) == multiset(sorted[1..]) + multiset{x}
    ensures forall k :: 0 <= k < |rest| ==> at(rest[k]) <= at(sorted[0])
  {
    forall k | 0 <= k < |rest|
      ensures at(rest[k]) <= at(sorted[0])
    {
      assert rest[k] in multiset(rest);
      if rest[k] != x {
        assert rest[k] in multiset(sorted[1..]);
        assert rest[k] in sorted[1..];
        var j :| 0 <= j < |sorted[1..]| && sorted[1..][j] == rest[k];
        assert sorted[j + 1] == rest[k];
      }
    }
  }

  /** The rows newest first. SQL leaves the order of equal timestamps open; this sort keeps
      them in storage order. */
  function SortNewestFirst<T>(rows: seq<T>, at: T -> Timestamp): (r: seq<T>)
    ensures multiset(r) == multiset(rows)
    ensures NewestFirst(r, at)
  {
    if rows == [] then []
    else
      var n := |rows|;
      assert rows == rows[..n - 1] + [rows[n - 1]];
      InsertByTime(rows[n - 1], SortNewestFirst(rows[..n - 1], at), at)
  }

  function SecretCreatedAt(s: Secret): Timestamp {
    s.createdAt
  }

  function VersionCreatedAt(v: SecretVersion): Timestamp {
    v.createdAt
  }

  // ---- LIMIT / OFFSET ----

  /** `offset = (page - 1) * limit`, written as the rows of the pages before this one so that
      the product stays out of the solver's way; the callers validate `page >= 1`. */
  function Offset(page: nat, limit: nat): nat
    requires page >= 1
  {
    if page == 1 then 0 else Offset(page - 1, limit) + limit
  }

  /** The offset is the product the source computes. */
  lemma {:induction false} OffsetProduct(page: nat, limit: nat)
    requires page >= 1
    ensures Offset(page, limit) == (page - 1) * limit
  {
    if page > 1 {
      OffsetProduct(page - 1, limit);
    }
  }

  function Min(a: nat, b: nat): nat {
    if a <= b then a else b
  }

  /** `LIMIT limit OFFSET offset`: skip `offset` rows, then take up to `limit`. */
  function Window<T>(rows: seq<T>, limit: nat, offset: nat): (w: seq<T>)
    ensures |w| <= limit
    ensures offset >= |rows| ==> w == []
    ensures offset < |rows| ==> |w| == Min(limit, |rows| - offset)
    ensures forall i :: 0 <= i < |w| ==> offset + i < |rows| && w[i] == rows[offset + i]
  {
    if offset >= |rows| then [] else rows[offset..offset + Min(limit, |rows| - offset)]
  }

  /** Pages 1 to k, one after the other. */
  function Pages<T>(rows: seq<T>, limit: nat, k: nat): seq<T> {
    if k == 0 then [] else Pages(rows, limit, k - 1) + Window(rows, limit, Offset(k, limit))
  }

  /** The pages tile the ordering: pages 1 to k are exactly its first k * limit rows, so once
      the pages reach past the end every row has appeared once, in order, and on one page. */
  lemma {:induction false} PagesTile<T>(rows: seq<T>, limit: nat, k: nat)
    requires limit >= 1
    ensures Pages(rows, limit, k) == rows[..Min(k * limit, |rows|)]
  {
    if k > 0 {
      PagesTile(rows, limit, k - 1);
      var off := Offset(k, limit);
      OffsetProduct(k, limit);
      assert k * limit == off + limit;
      var w := Window(rows, limit, off);
      if off >= |rows| {
        assert Min(k * limit, |rows|) == |rows|;
      } else {
        assert rows[..Min(off, |rows|)] + w == rows[..Min(k * limit, |rows|)];
      }
    }
  }

  lemma PagesCoverAll<T>(rows: seq<T>, limit: nat, k: nat)
    requires limit >= 1 && k * limit >= |rows|
    ensures Pages(rows, limit, k) == rows
  {
    PagesTile(rows, limit, k);
  }

  // ---- reads ----

  /** A window of a reordering holds only rows of the original. */
  lemma WindowOfPermutation<T>(sorted: seq<T>, rows: seq<T>, limit: nat, offset: nat)
    requires multiset(sorted) == multiset(rows)
    ensures forall i :: 0 <= i < |Window(sorted, limit, offset)| ==> Window(sorted, limit, offset)[i] in rows
  {
    var w := Window(sorted, limit, offset);
    forall i | 0 <= i < |w|
      ensures w[i] in rows
    {
      assert w[i] == sorted[offset + i];
      assert w[i] in multiset(sorted);
      assert w[i] in multiset(rows);
    }
  }

  /** A reordering has as many rows as the original. */
  lemma SortedLength<T>(rows: seq<T>, at: T -> Timestamp)
    ensures |SortNewestFirst(rows, at)| == |rows|
  {
    assert |multiset(SortNewestFirst(rows, at))| == |multiset(rows)|;
  }

  /** `w` is what `ORDER BY created_at DESC LIMIT limit OFFSET offset` returns over `rows`:
      at most `limit` rows, none past the end, as many as remain otherwise, each the row at its
      place in the newest-first ordering, and each one of `rows`. */
  ghost predicate IsPage<T>(rows: seq<T>, at: T -> Timestamp, offset: nat, limit: nat, w: seq<T>) {
    && |w| <= limit
    && (offset >= |rows| ==> w == [])
    && (offset < |rows| ==> |w| == Min(limit, |rows| - offset))
    && (var sorted := SortNewestFirst(rows, at);
        forall i :: 0 <= i < |w| ==> offset + i < |sorted| && w[i] == sorted[offset + i])
    && (forall i :: 0 <= i < |w| ==> w[i] in rows)
  }

  /** `ORDER BY created_at DESC LIMIT limit OFFSET offset` over some rows. */
  function OrderedWindow<T>(rows: seq<T>, at: T -> Timestamp, limit: nat, offset: nat): (w: seq<T>)
    ensures IsPage(rows, at, offset, limit, w)
  {
    SortedLength(rows, at);
    WindowOfPermutation(SortNewestFirst(rows, at), rows, limit, offset);
    Window(SortNewestFirst(rows, at), limit, offset)
  }

  /** `get_secrets(page, limit)`: the count of all rows, and the page of the newest-first
      ordering that the offset selects. */
  function GetSecrets(t: Tables, page: nat, limit: nat): (r: (nat, seq<Secret>))
    requires page >= 1
    ensures r.0 == |t.secrets|
    ensures IsPage(t.secrets, SecretCreatedAt, Offset(page, limit), limit, r.1)
  {
    (|t.secrets|, OrderedWindow(t.secrets, SecretCreatedAt, limit, Offset(page, limit)))
  }

  /** The count does not depend on the page asked for. */
  lemma CountIndependentOfPage(t: Tables, p1: nat, l1: nat, p2: nat, l2: nat)
    requires p1 >= 1 && p2 >= 1
    ensures GetSecrets(t, p1, l1).0 == GetSecrets(t, p2, l2).0
  {
  }

  /** `get_secrets_by_id`: the row with the id (`fetch_one`: the first one), or `RowNotFound`. */
  function GetSecretsById(secrets: seq<Secret>, id: Uuid): (r: Result<Secret, DbError>)
    ensures r.Ok? ==> r.value in secrets && r.value.id == id
    ensures r.Err? ==> r.error == RowNotFound && forall i :: 0 <= i < |secrets| ==> secrets[i].id != id
  {
    if secrets == [] then Err(RowNotFound)
    else if secrets[0].id == id then Ok(secrets[0])
    else GetSecretsById(secrets[1..], id)
  }

  /** The history rows of one secret, in storage order. */
  function HistoryOf(vs: seq<SecretVersion>, id: Uuid): (h: seq<SecretVersion>)
    ensures forall x :: x in h ==> x in vs && x.secretId == id
    ensures forall x :: x in vs && x.secretId == id ==> x in h
  {
    if vs == [] then []
    else
      var last := vs[|vs| - 1];
      assert vs == vs[..|vs| - 1] + [last];
      HistoryOf(vs[..|vs| - 1], id) + (if last.secretId == id then [last] else [])
  }

  /** `get_secrets_version(secret_id, page, limit)`: count and page both restricted to the
      secret's history, newest first, with the same offset. */
  function GetSecretsVersion(t: Tables, secretId: Uuid, page: nat, limit: nat): (r: (nat, seq<SecretVersion>))
    requires page >= 1
    ensures r.0 == |HistoryOf(t.versions, secretId)|
    ensures IsPage(HistoryOf(t.versions, secretId), VersionCreatedAt, Offset(page, limit), limit, r.1)
    ensures forall i :: 0 <= i < |r.1| ==> r.1[i] in t.versions && r.1[i].secretId == secretId
  {
    var h := HistoryOf(t.versions, secretId);
    (|h|, OrderedWindow(h, VersionCreatedAt, limit, Offset(page, limit)))
  }

  // ---- the table invariant ----

  predicate UniqueSecretIds(secrets: seq<Secret>) {
    forall i, j :: 0 <= i < j < |secrets| ==> secrets[i].id != secrets[j].id
  }

  predicate UniqueVersionIds(vs: seq<SecretVersion>) {
    forall i, j :: 0 <= i < j < |vs| ==> vs[i].id != vs[j].id
  }

  predicate HasSecret(secrets: seq<Secret>, id: Uuid) {
    exists i :: 0 <= i < |secrets| && secrets[i].id == id
  }

  predicate HasVersionId(vs: seq<SecretVersion>, id: Uuid) {
    exists i :: 0 <= i < |vs| && vs[i].id == id
  }

  /** The history of a secret at version v: consecutive versions ending at v - 1, oldest first.
      For a secret created at version 1 it is the versions 1 to v - 1, one row per edit. */
  predicate Chained(h: seq<SecretVersion>, v: int) {
    forall i :: 0 <= i < |h| ==> h[i].version == v - |h| + i
  }

  /** What holds of a tenant database that only this repository writes, starting empty:
      primary keys, the `secret_id` reference, the `VARCHAR(100)` names, and a history that
      records each version a secret has passed through exactly once. */
  predicate Consistent(t: Tables) {
    UniqueSecretIds(t.secrets)
    && UniqueVersionIds(t.versions)
    && (forall i :: 0 <= i < |t.versions| ==> HasSecret(t.secrets, t.versions[i].secretId))
    && (forall i :: 0 <= i < |t.secrets| ==> |t.secrets[i].secretName| <= NAME_MAX)
    && (forall i :: 0 <= i < |t.versions| ==> |t.versions[i].secretName| <= NAME_MAX)
    && (forall i :: 0 <= i < |t.secrets| ==> Chained(HistoryOf(t.versions, t.secrets[i].id), t.secrets[i].version))
  }

  lemma EmptyConsistent()
    ensures Consistent(Tables([], []))
  {
  }

  // ---- save_secrets ----

  /** The rows the database creates for a batch: generated ids, the items' fields, and
      `created_at = updated_at = NOW()`. */
  function NewRows(items: seq<SavedSecret>, gen: nat -> Uuid, now: Timestamp): (rows: seq<Secret>)
    ensures |rows| == |items|
    ensures forall i :: 0 <= i < |items| ==>
      rows[i] == Secret(gen(i), items[i].secretName, items[i].encryptedSecretValue, items[i].version, now, now)
  {
    seq(|items|, i requires 0 <= i < |items| =>
      Secret(gen(i), items[i].secretName, items[i].encryptedSecretValue, items[i].version, now, now))
  }

  predicate NamesFit(rows: seq<Secret>) {
    forall i :: 0 <= i < |rows| ==> |rows[i].secretName| <= NAME_MAX
  }

  predicate FreshIds(t: Tables, rows: seq<Secret>) {
    UniqueSecretIds(rows) && forall i :: 0 <= i < |rows| ==> !HasSecret(t.secrets, rows[i].id)
  }

  /** One INSERT of several rows: every row goes in or, on the first violated column
      constraint, none does. */
  function InsertRows(t: Tables, rows: seq<Secret>): Result<Tables, DbError> {
    if !NamesFit(rows) then Err(ValueTooLong)
    else if !FreshIds(t, rows) then Err(UniqueViolation)
    else Ok(t.(secrets := t.secrets + rows))
  }

  /** What `save_secrets(items)` does to the tables. */
  function Save(t: Tables, items: seq<SavedSecret>, gen: nat -> Uuid, now: Timestamp): Result<Tables, DbError> {
    var params := Bindings(items);
    if |params| > MAX_BIND_PARAMETERS then Err(TooManyArguments)
    else
      match StatementRows(Statement(|items|), params)
      case Err(e) => Err(e)
      case Ok(rows) => InsertRows(t, NewRows(rows, gen, now))
  }

  /** Whether a batch of n items binds few enough parameters to be sent: three per item. */
  predicate BindableBatch(n: nat) {
    3 * n <= MAX_BIND_PARAMETERS
  }

  /** A batch is stored whole, in input order, after the existing rows, or not at all; a batch
      of more than 21845 items needs more than 65535 parameters and is refused before it is
      sent; the empty batch is the syntax error of a `VALUES` without tuples. History is
      untouched. */
  lemma SaveOutcome(t: Tables, items: seq<SavedSecret>, gen: nat -> Uuid, now: Timestamp)
    ensures !BindableBatch(|items|) ==> Save(t, items, gen, now) == Err(TooManyArguments)
    ensures items == [] ==> Save(t, items, gen, now) == Err(SyntaxError)
    ensures items != [] && BindableBatch(|items|) ==> Save(t, items, gen, now) == InsertRows(t, NewRows(items, gen, now))
    ensures Save(t, items, gen, now).Ok? ==>
      var t2 := Save(t, items, gen, now).value;
      t2.versions == t.versions && |t2.secrets| == |t.secrets| + |items|
      && t2.secrets[..|t.secrets|] == t.secrets && t2.secrets[|t.secrets|..] == NewRows(items, gen, now)
  {
    StatementInsertsItems(items);
    if Save(t, items, gen, now).Ok? {
      var t2 := Save(t, items, gen, now).value;
      assert t2.secrets == t.secrets + NewRows(items, gen, now);
    }
  }

  /** Every non-empty batch of at most 21845 items, with names up to 100 characters, under
      fresh ids is stored. */
  lemma SaveAccepts(t: Tables, items: seq<SavedSecret>, gen: nat -> Uuid, now: Timestamp)
    requires items != [] && BindableBatch(|items|)
    requires forall i :: 0 <= i < |items| ==> |items[i].secretName| <= NAME_MAX
    requires FreshIds(t, NewRows(items, gen, now))
    ensures Save(t, items, gen, now).Ok?
  {
    SaveOutcome(t, items, gen, now);
  }

  lemma HistoryMissing(vs: seq<SecretVersion>, id: Uuid)
    requires forall i :: 0 <= i < |vs| ==> vs[i].secretId != id
    ensures HistoryOf(vs, id) == []
  {
  }

  lemma HistoryAppend(vs: seq<SecretVersion>, x: SecretVersion, id: Uuid)
    ensures HistoryOf(vs + [x], id) == HistoryOf(vs, id) + (if x.secretId == id then [x] else [])
  {
    assert (vs + [x])[..|vs|] == vs;
  }

  /** A batch that is stored keeps the invariant: the new ids are fresh, so no history row
      refers to them yet. */
  lemma InsertPreservesConsistent(t: Tables, rows: seq<Secret>)
    requires Consistent(t)
    requires InsertRows(t, rows).Ok?
    ensures Consistent(InsertRows(t, rows).value)
  {
    var t2 := InsertRows(t, rows).value;
    var n := |t.secrets|;
    assert t2.secrets == t.secrets + rows && t2.versions == t.versions;
    forall i, j | 0 <= i < j < |t2.secrets| ensures t2.secrets[i].id != t2.secrets[j].id {
      if j >= n && i < n {
        assert !HasSecret(t.secrets, rows[j - n].id);
      }
    }
    forall i | 0 <= i < |t2.versions| ensures HasSecret(t2.secrets, t2.versions[i].secretId) {
      assert HasSecret(t.secrets, t.versions[i].secretId);
      var k :| 0 <= k < n && t.secrets[k].id == t.versions[i].secretId;
      assert t2.secrets[k] == t.secrets[k];
    }
    forall i | 0 <= i < |t2.secrets|
      ensures Chained(HistoryOf(t2.versions, t2.secrets[i].id), t2.secrets[i].version)
    {
      if i >= n {
        var id := rows[i - n].id;
        forall j | 0 <= j < |t.versions| ensures t.versions[j].secretId != id {
          assert HasSecret(t.secrets, t.versions[j].secretId);
        }
        HistoryMissing(t.versions, id);
      }
    }
  }

  /** The stored batch keeps the invariant. */
  lemma SavePreservesConsistent(t: Tables, items: seq<SavedSecret>, gen: nat -> Uuid, now: Timestamp)
    requires Consistent(t)
    requires Save(t, items, gen, now).Ok?
    ensures Consistent(Save(t, items, gen, now).value)
  {
    SaveOutcome(t, items, gen, now);
    InsertPreservesConsistent(t, NewRows(items, gen, now));
  }

  // ---- edit_secrets ----

  /** The history row `edit_secrets` writes first: the current row's name, value and version
      under a new id, stamped with the time of the insert. */
  function Snapshot(cur: Secret, versionId: Uuid, now: Timestamp): (v: SecretVersion)
    ensures v.secretId == cur.id && v.version == cur.version
    ensures v.secretName == cur.secretName && v.encryptedSecretValue == cur.encryptedSecretValue
  {
    SecretVersion(versionId, cur.id, cur.secretName, cur.encryptedSecretValue, cur.version, now, now)
  }

  /** A row with the id whose `version + 1` would leave the `INTEGER` range. */
  predicate AtMax(secrets: seq<Secret>, id: Uuid) {
    exists i :: 0 <= i < |secrets| && secrets[i].id == id && secrets[i].version == I32_MAX
  }

  /** The `UPDATE ... WHERE id = $3`: each row with the id gets the new name and value, its
      version one up and `updated_at` the time of the update; every other row is untouched. */
  function UpdateRow(secrets: seq<Secret>, id: Uuid, name: string, value: Bytes, now: Timestamp): (r: seq<Secret>)
    requires !AtMax(secrets, id)
    ensures |r| == |secrets|
    ensures forall i :: 0 <= i < |secrets| ==> r[i].id == secrets[i].id && r[i].createdAt == secrets[i].createdAt
    ensures forall i :: 0 <= i < |secrets| && secrets[i].id != id ==> r[i] == secrets[i]
    ensures forall i :: 0 <= i < |secrets| && secrets[i].id == id ==>
      r[i].secretName == name && r[i].encryptedSecretValue == value
      && r[i].version == secrets[i].version + 1 && r[i].updatedAt == now
  {
    seq(|secrets|, i requires 0 <= i < |secrets| =>
      if secrets[i].id == id then
        secrets[i].(secretName := name, encryptedSecretValue := value,
                    version := secrets[i].version + 1, updatedAt := now)
      else secrets[i])
  }

  /** What `edit_secrets(id, name, value)` does, statement by statement with no transaction
      around them: the read fails on an unknown id; the history insert fails on a taken id (or
      a stored name the column would reject); the update then fails on a name over 100
      characters or a version at the top of `INTEGER`, and the history row it follows stays. */
  function EditOutcome(t: Tables, id: Uuid, name: string, value: Bytes, versionId: Uuid, now: Timestamp)
    : (Tables, Result<(), DbError>)
  {
    match GetSecretsById(t.secrets, id)
    case Err(e) => (t, Err(e))
    case Ok(cur) =>
      if |cur.secretName| > NAME_MAX then (t, Err(ValueTooLong))
      else if HasVersionId(t.versions, versionId) then (t, Err(UniqueViolation))
      else
        var t1 := t.(versions := t.versions + [Snapshot(cur, versionId, now)]);
        if |name| > NAME_MAX then (t1, Err(ValueTooLong))
        else if AtMax(t.secrets, id) then (t1, Err(NumericOutOfRange))
        else (t1.(secrets := UpdateRow(t.secrets, id, name, value, now)), Ok(()))
  }

  lemma IdIndexed(secrets: seq<Secret>, k: nat, id: Uuid)
    requires UniqueSecretIds(secrets) && k < |secrets| && secrets[k].id == id
    ensures GetSecretsById(secrets, id) == Ok(secrets[k])
  {
    var r := GetSecretsById(secrets, id);
    if r.Ok? {
      var j :| 0 <= j < |secrets| && secrets[j] == r.value;
      assert j == k;
    }
  }

  /** Editing an id that is not stored changes nothing and reports the missing row. */
  lemma EditUnknownId(t: Tables, id: Uuid, name: string, value: Bytes, versionId: Uuid, now: Timestamp)
    ensures !HasSecret(t.secrets, id) <==> EditOutcome(t, id, name, value, versionId, now) == (t, Err(RowNotFound))
  {
    if HasSecret(t.secrets, id) {
      var k :| 0 <= k < |t.secrets| && t.secrets[k].id == id;
      assert GetSecretsById(t.secrets, id).Ok?;
    }
  }

  /** On a consistent store an edit succeeds exactly when the id is stored, the new history id
      is free, the new name fits its column and the version can still go up. */
  lemma EditSucceeds(t: Tables, id: Uuid, name: string, value: Bytes, versionId: Uuid, now: Timestamp)
    requires Consistent(t)
    ensures EditOutcome(t, id, name, value, versionId, now).1.Ok? <==>
      HasSecret(t.secrets, id) && !HasVersionId(t.versions, versionId)
      && |name| <= NAME_MAX && !AtMax(t.secrets, id)
  {
    if HasSecret(t.secrets, id) {
      var k :| 0 <= k < |t.secrets| && t.secrets[k].id == id;
      IdIndexed(t.secrets, k, id);
    }
  }

  /** A successful edit of the secret stored at index k: one history row is appended holding
      the row as it was, that row alone takes the new name and value with its version one up,
      and nothing else changes. */
  lemma EditSuccess(t: Tables, k: nat, name: string, value: Bytes, versionId: Uuid, now: Timestamp)
    requires Consistent(t) && k < |t.secrets|
    requires EditOutcome(t, t.secrets[k].id, name, value, versionId, now).1.Ok?
    ensures var t2 := EditOutcome(t, t.secrets[k].id, name, value, versionId, now).0;
      var was := t.secrets[k];
      t2.versions == t.versions + [SecretVersion(versionId, was.id, was.secretName, was.encryptedSecretValue, was.version, now, now)]
      && |t2.secrets| == |t.secrets|
      && t2.secrets[k] == Secret(was.id, name, value, was.version + 1, was.createdAt, now)
      && (forall i :: 0 <= i < |t.secrets| && i != k ==> t2.secrets[i] == t.secrets[i])
  {
    EditIsEdited(t, k, name, value, versionId, now);
  }

  /** The tables after a successful edit of the secret at index k. */
  function Edited(t: Tables, k: nat, name: string, value: Bytes, versionId: Uuid, now: Timestamp): Tables
    requires k < |t.secrets| && !AtMax(t.secrets, t.secrets[k].id)
  {
    Tables(UpdateRow(t.secrets, t.secrets[k].id, name, value, now),
           t.versions + [Snapshot(t.secrets[k], versionId, now)])
  }

  lemma EditIsEdited(t: Tables, k: nat, name: string, value: Bytes, versionId: Uuid, now: Timestamp)
    requires UniqueSecretIds(t.secrets) && k < |t.secrets|
    requires EditOutcome(t, t.secrets[k].id, name, value, versionId, now).1.Ok?
    ensures !AtMax(t.secrets, t.secrets[k].id) && |name| <= NAME_MAX && !HasVersionId(t.versions, versionId)
    ensures EditOutcome(t, t.secrets[k].id, name, value, versionId, now).0 == Edited(t, k, name, value, versionId, now)
  {
    IdIndexed(t.secrets, k, t.secrets[k].id);
  }

  lemma EditedKeys(t: Tables, k: nat, name: string, value: Bytes, versionId: Uuid, now: Timestamp)
    requires Consistent(t) && k < |t.secrets| && !AtMax(t.secrets, t.secrets[k].id)
    requires !HasVersionId(t.versions, versionId)
    ensures var t2 := Edited(t, k, name, value, versionId, now);
      UniqueSecretIds(t2.secrets) && UniqueVersionIds(t2.versions)
      && forall i :: 0 <= i < |t2.versions| ==> HasSecret(t2.secrets, t2.versions[i].secretId)
  {
    var t2 := Edited(t, k, name, value, versionId, now);
    forall i, j | 0 <= i < j < |t2.versions| ensures t2.versions[i].id != t2.versions[j].id {
      if j == |t.versions| {
        assert t2.versions[i] == t.versions[i];
      }
    }
    forall i | 0 <= i < |t2.versions| ensures HasSecret(t2.secrets, t2.versions[i].secretId) {
      if i == |t.versions| {
        assert t2.secrets[k].id == t.secrets[k].id;
      } else {
        var j :| 0 <= j < |t.secrets| && t.secrets[j].id == t.versions[i].secretId;
        assert t2.secrets[j].id == t.secrets[j].id;
      }
    }
  }

  lemma EditedChains(t: Tables, k: nat, name: string, value: Bytes, versionId: Uuid, now: Timestamp)
    requires Consistent(t) && k < |t.secrets| && !AtMax(t.secrets, t.secrets[k].id)
    ensures var t2 := Edited(t, k, name, value, versionId, now);
      forall i :: 0 <= i < |t2.secrets| ==> Chained(HistoryOf(t2.versions, t2.secrets[i].id), t2.secrets[i].version)
  {
    var t2 := Edited(t, k, name, value, versionId, now);
    var snap := Snapshot(t.secrets[k], versionId, now);
    forall i | 0 <= i < |t2.secrets|
      ensures Chained(HistoryOf(t2.versions, t2.secrets[i].id), t2.secrets[i].version)
    {
      HistoryAppend(t.versions, snap, t.secrets[i].id);
      if t.secrets[i].id == t.secrets[k].id {
        assert i == k;
      }
    }
  }

  lemma EditedNames(t: Tables, k: nat, name: string, value: Bytes, versionId: Uuid, now: Timestamp)
    requires Consistent(t) && k < |t.secrets| && !AtMax(t.secrets, t.secrets[k].id) && |name| <= NAME_MAX
    ensures var t2 := Edited(t, k, name, value, versionId, now);
      (forall i :: 0 <= i < |t2.secrets| ==> |t2.secrets[i].secretName| <= NAME_MAX)
      && (forall i :: 0 <= i < |t2.versions| ==> |t2.versions[i].secretName| <= NAME_MAX)
  {
  }

  lemma EditedConsistent(t: Tables, k: nat, name: string, value: Bytes, versionId: Uuid, now: Timestamp)
    requires Consistent(t) && k < |t.secrets| && !AtMax(t.secrets, t.secrets[k].id) && |name| <= NAME_MAX
    requires !HasVersionId(t.versions, versionId)
    ensures Consistent(Edited(t, k, name, value, versionId, now))
  {
    EditedKeys(t, k, name, value, versionId, now);
    EditedNames(t, k, name, value, versionId, now);
    EditedChains(t, k, name, value, versionId, now);
  }

  /** A successful edit keeps the invariant; in particular the secret's history grows by the
      version it just left, so the chain stays gap-free. */
  lemma EditPreservesConsistent(t: Tables, id: Uuid, name: string, value: Bytes, versionId: Uuid, now: Timestamp)
    requires Consistent(t)
    requires EditOutcome(t, id, name, value, versionId, now).1.Ok?
    ensures Consistent(EditOutcome(t, id, name, value, versionId, now).0)
  {
    var k :| 0 <= k < |t.secrets| && t.secrets[k].id == id;
    EditIsEdited(t, k, name, value, versionId, now);
    EditedConsistent(t, k, name, value, versionId, now);
  }

  /** Without a transaction, an edit whose new name is over 100 characters (the form only
      demands one) fails after the history insert: the store keeps a history row for a version
      the secret still has, and the history chain is broken. */
  lemma StrayHistoryRow(t: Tables, k: nat, name: string, value: Bytes, versionId: Uuid, now: Timestamp)
    requires Consistent(t) && k < |t.secrets|
    requires !HasVersionId(t.versions, versionId) && |name| > NAME_MAX
    ensures var (t2, r) := EditOutcome(t, t.secrets[k].id, name, value, versionId, now);
      r == Err(ValueTooLong) && t2.secrets == t.secrets
      && |t2.versions| == |t.versions| + 1 && !Consistent(t2)
  {
    var id := t.secrets[k].id;
    IdIndexed(t.secrets, k, id);
    var snap := Snapshot(t.secrets[k], versionId, now);
    var t2 := EditOutcome(t, id, name, value, versionId, now).0;
    assert t2.versions == t.versions + [snap];
    HistoryAppend(t.versions, snap, id);
  }

  /** After a successful edit the secret's history is the one before it plus the version it
      left, and every other secret's history is as it was. */
  lemma EditHistory(t: Tables, k: nat, name: string, value: Bytes, versionId: Uuid, now: Timestamp, other: Uuid)
    requires Consistent(t) && k < |t.secrets|
    requires EditOutcome(t, t.secrets[k].id, name, value, versionId, now).1.Ok?
    ensures var t2 := EditOutcome(t, t.secrets[k].id, name, value, versionId, now).0;
      HistoryOf(t2.versions, t.secrets[k].id) == HistoryOf(t.versions, t.secrets[k].id) + [Snapshot(t.secrets[k], versionId, now)]
      && (other != t.secrets[k].id ==> HistoryOf(t2.versions, other) == HistoryOf(t.versions, other))
  {
    EditIsEdited(t, k, name, value, versionId, now);
    var snap := Snapshot(t.secrets[k], versionId, now);
    HistoryAppend(t.versions, snap, t.secrets[k].id);
    HistoryAppend(t.versions, snap, other);
  }

  /** A stored batch adds its size to the count the listing reports, on every page. */
  lemma SaveThenCount(t: Tables, items: seq<SavedSecret>, gen: nat -> Uuid, now: Timestamp, page: nat, limit: nat)
    requires page >= 1
    requires Save(t, items, gen, now).Ok?
    ensures GetSecrets(Save(t, items, gen, now).value, page, limit).0 == GetSecrets(t, page, limit).0 + |items|
  {
    SaveOutcome(t, items, gen, now);
  }

  /** The tenant database as the repository sees it through its connection pool: the two
      tables, which only the statements below change. */
  class SecretStore {
    var secrets: seq<Secret>
    var versions: seq<SecretVersion>

    function State(): Tables
      reads this
    {
      Tables(secrets, versions)
    }

    /** Freshly created tables are empty. */
    constructor ()
      ensures State() == Tables([], [])
      ensures Consistent(State())
    {
      secrets := [];
      versions := [];
    }

    /** `save_secrets`: build the multi-row INSERT and its bindings, let the database read the
        rows back out of them, and store all or none. */
    method SaveSecrets(items: seq<SavedSecret>, gen: nat -> Uuid, now: Timestamp) returns (r: Result<(), DbError>)
      modifies this
      ensures Save(old(State()), items, gen, now).Ok? ==>
        r == Ok(()) && State() == Save(old(State()), items, gen, now).value
      ensures Save(old(State()), items, gen, now).Err? ==>
        r == Err(Save(old(State()), items, gen, now).error) && State() == old(State())
      ensures old(Consistent(State())) ==> Consistent(State())
    {
      var query, params := BuildStatement(items);
      if |params| > MAX_BIND_PARAMETERS {
        return Err(TooManyArguments);
      }
      var parsed := StatementRows(query, params);
      if parsed.Err? {
        return Err(parsed.error);
      }
      var inserted := InsertRows(State(), NewRows(parsed.value, gen, now));
      if inserted.Err? {
        return Err(inserted.error);
      }
      if Consistent(State()) {
        InsertPreservesConsistent(State(), NewRows(parsed.value, gen, now));
      }
      secrets := inserted.value.secrets;
      return Ok(());
    }

    /** `edit_secrets`: read the row, write its history row, then update it, each statement on
        its own; a failing update leaves the history row in place. */
    method EditSecrets(id: Uuid, name: string, value: Bytes, versionId: Uuid, now: Timestamp)
      returns (r: Result<(), DbError>)
      modifies this
      ensures (State(), r) == EditOutcome(old(State()), id, name, value, versionId, now)
      ensures old(Consistent(State())) && r.Ok? ==> Consistent(State())
    {
      ghost var before := State();
      var found := GetSecretsById(secrets, id);
      if found.Err? {
        return Err(found.error);
      }
      var cur := found.value;
      if |cur.secretName| > NAME_MAX {
        return Err(ValueTooLong);
      }
      if HasVersionId(versions, versionId) {
        return Err(UniqueViolation);
      }
      versions := versions + [Snapshot(cur, versionId, now)];
      if |name| > NAME_MAX {
        return Err(ValueTooLong);
      }
      if AtMax(secrets, id) {
        return Err(NumericOutOfRange);
      }
      secrets := UpdateRow(secrets, id, name, value, now);
      r := Ok(());
      if Consistent(before) {
        EditPreservesConsistent(before, id, name, value, versionId, now);
      }
    }
  }
}
