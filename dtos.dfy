/** Request and response shapes (src/dtos.rs): the field rules the `validator` derive attaches
    to each request, and the copies that turn records into what the API returns.
    `length(min = n)` counts characters, so it is `|s| >= n` on a `string`. */
module Dtos {
  import opened Text
  import opened Wrappers
  import opened Models

  /** `?page=&limit=` of the secret listing. */
  datatype RequestQueryDto = RequestQueryDto(page: Option<nat>, limit: Option<nat>)

  /** `?page=&limit=&id=` of the history listing. */
  datatype RequestQuerySecretVersionDto = RequestQuerySecretVersionDto(page: Option<nat>, limit: Option<nat>, id: Uuid)

  const LIMIT_MAX: nat := 50
  const DEFAULT_PAGE: nat := 1
  const DEFAULT_LIMIT: nat := 10

  /** `range(min = 1)` on page and `range(min = 1, max = 50)` on limit; an absent value passes. */
  predicate ValidPaging(page: Option<nat>, limit: Option<nat>) {
    (page.Some? ==> page.value >= 1) && (limit.Some? ==> 1 <= limit.value <= LIMIT_MAX)
  }

  predicate ValidQuery(q: RequestQueryDto) {
    ValidPaging(q.page, q.limit)
  }

  predicate ValidVersionQuery(q: RequestQuerySecretVersionDto) {
    ValidPaging(q.page, q.limit)
  }

  /** The page and limit the handlers use: `unwrap_or(1)` and `unwrap_or(10)`. */
  function PageOrDefault(page: Option<nat>): nat {
    page.GetOr(DEFAULT_PAGE)
  }

  function LimitOrDefault(limit: Option<nat>): nat {
    limit.GetOr(DEFAULT_LIMIT)
  }

  /** After validation and the defaults, the page is at least 1 (so `page - 1` cannot wrap) and
      a page holds between 1 and 50 rows; absent values become 1 and 10, present ones are kept. */
  lemma EffectivePaging(page: Option<nat>, limit: Option<nat>)
    requires ValidPaging(page, limit)
    ensures PageOrDefault(page) >= 1
    ensures 1 <= LimitOrDefault(limit) <= LIMIT_MAX
    ensures page.None? ==> PageOrDefault(page) == 1
    ensures limit.None? ==> LimitOrDefault(limit) == 10
    ensures page.Some? ==> PageOrDefault(page) == page.value
    ensures limit.Some? ==> LimitOrDefault(limit) == limit.value
  {
  }

  /** Sign-up form. Whether an address is well formed (`email` rule) is the validator's own
      check and a parameter here. */
  datatype RegisterUserDto = RegisterUserDto(name: string, email: string, password: string, passwordConfirm: string)

  predicate ValidRegistration(d: RegisterUserDto, isEmail: string -> bool) {
    |d.name| >= 1
    && |d.email| >= 1 && isEmail(d.email)
    && |d.password| >= 1 && |d.password| >= 6
    && |d.passwordConfirm| >= 1 && d.passwordConfirm == d.password
  }

  datatype LoginUserDto = LoginUserDto(email: string, password: string)

  predicate ValidLogin(d: LoginUserDto, isEmail: string -> bool) {
    |d.email| >= 1 && isEmail(d.email) && |d.password| >= 1 && |d.password| >= 6
  }

  datatype NameUpdateDto = NameUpdateDto(name: string)

  predicate ValidNameUpdate(d: NameUpdateDto) {
    |d.name| >= 1
  }

  datatype UserPasswordUpdateDto = UserPasswordUpdateDto(newPassword: string, newPasswordConfirm: string, oldPassword: string)

  predicate ValidPasswordUpdate(d: UserPasswordUpdateDto) {
    |d.newPassword| >= 1 && |d.newPassword| >= 6
    && |d.newPasswordConfirm| >= 1 && |d.newPasswordConfirm| >= 6 && d.newPasswordConfirm == d.newPassword
    && |d.oldPassword| >= 1 && |d.oldPassword| >= 6
  }

  /** An accepted registration carries a password of six or more characters, confirmed
      exactly, under a non-empty name and a well-formed address. */
  lemma RegistrationAccepted(d: RegisterUserDto, isEmail: string -> bool)
    ensures ValidRegistration(d, isEmail) <==>
      |d.name| > 0 && isEmail(d.email) && |d.email| > 0 && |d.password| >= 6 && d.passwordConfirm == d.password
  {
  }

  /** A password change is accepted exactly when the old and the new password have six or more
      characters and the confirmation repeats the new one. */
  lemma PasswordUpdateAccepted(d: UserPasswordUpdateDto)
    ensures ValidPasswordUpdate(d) <==>
      |d.newPassword| >= 6 && |d.oldPassword| >= 6 && d.newPasswordConfirm == d.newPassword
  {
  }

  /** Connection details posted to the settings endpoint. */
  datatype DatabaseDto = DatabaseDto(host: string, username: string, password: string, database: string, port: I32)

  const PORT_MIN: int := 1
  const PORT_MAX: int := 65535

  predicate ValidDatabase(d: DatabaseDto) {
    |d.host| >= 1 && |d.username| >= 1 && |d.password| >= 1 && |d.database| >= 1
    && PORT_MIN <= d.port <= PORT_MAX
  }

  /** The record the settings handler builds from the form, field for field. */
  function ToDbConnection(d: DatabaseDto): (c: DbConnection)
    ensures c.host == d.host && c.username == d.username && c.password == d.password
    ensures c.database == d.database && c.port == d.port
  {
    DbConnection(d.host, d.username, d.password, d.database, d.port)
  }

  /** A validated form yields a descriptor with every text field present and a port that fits
      the 16 bits of a TCP port, so the `port as u16` of the connector keeps its value. */
  lemma ValidDatabasePort(d: DatabaseDto)
    requires ValidDatabase(d)
    ensures var c := ToDbConnection(d);
      0 < c.port < 0x1_0000 && c.port % 0x1_0000 == c.port
      && c.host != [] && c.username != [] && c.password != [] && c.database != []
  {
  }

  /** `validate_encryption_method`: the error branch behind the four variants cannot be taken. */
  function ValidateEncryptionMethod(m: EncryptionMethod): (r: Result<(), string>)
    ensures r.Ok?
  {
    match m
    case AES256 => Ok(())
    case Chacha20 => Ok(())
    case Blowfish => Ok(())
    case DESTriphleDES => Ok(())
  }

  datatype EncryptionMethodDto = EncryptionMethodDto(encryptionMethod: EncryptionMethod)

  predicate ValidEncryptionMethodDto(d: EncryptionMethodDto) {
    ValidateEncryptionMethod(d.encryptionMethod).Ok?
  }

  datatype SaveSecretDto = SaveSecretDto(secretName: string, secretValue: string)

  datatype EditSecretDto = EditSecretDto(secretName: string, secretValue: string, id: Uuid)

  predicate ValidSave(d: SaveSecretDto) {
    |d.secretName| >= 1 && |d.secretValue| >= 1
  }

  predicate ValidEdit(d: EditSecretDto) {
    |d.secretName| >= 1 && |d.secretValue| >= 1
  }

  /** The user as the API shows it: the id printed, a flag in place of the connection details,
      and neither the password hash nor the key. */
  datatype FilterUserDto = FilterUserDto(
    id: string,
    name: string,
    email: string,
    encryptionMethod: Option<EncryptionMethod>,
    apiKeys: Option<string>,
    dbConnectionExists: bool,
    createdAt: Timestamp,
    updatedAt: Timestamp)

  /** `FilterUserDto::filter_user`; it unwraps both timestamps, which panics on a record
      without them. */
  function FilterUser(u: User): (f: FilterUserDto)
    requires u.createdAt.Some? && u.updatedAt.Some?
    ensures f.dbConnectionExists <==> u.dbConnection.Some?
    ensures f.id == UuidString(u.id)
    ensures f.name == u.name && f.email == u.email
    ensures f.encryptionMethod == u.encryptionMethod && f.apiKeys == u.apiKeys
    ensures f.createdAt == u.createdAt.value && f.updatedAt == u.updatedAt.value
  {
    FilterUserDto(UuidString(u.id), u.name, u.email, u.encryptionMethod, u.apiKeys,
                  u.dbConnection.Some?, u.createdAt.value, u.updatedAt.value)
  }

  /** The view reveals nothing of the password, the key or the connection details: records
      that differ only there (with a connection present in both or in neither) look the same. */
  lemma FilterUserHidesSecrets(u: User, password: string, keys: Option<Bytes>, conn: Option<DbConnection>)
    requires u.createdAt.Some? && u.updatedAt.Some?
    requires conn.Some? <==> u.dbConnection.Some?
    ensures FilterUser(u.(password := password, keys := keys, dbConnection := conn)) == FilterUser(u)
  {
  }

  /** Distinct users get distinct ids in their views. */
  lemma FilterUserIdsDistinct(a: User, b: User)
    requires a.createdAt.Some? && a.updatedAt.Some? && b.createdAt.Some? && b.updatedAt.Some?
    requires FilterUser(a).id == FilterUser(b).id
    ensures a.id == b.id
  {
    UuidStringInjective(a.id, b.id);
  }

  /** A decrypted secret, or history row, on its way out. */
  datatype SecretResponse = SecretResponse(
    id: Uuid,
    secretName: string,
    secretValue: string,
    version: I32,
    createdAt: Timestamp,
    updatedAt: Timestamp)

  datatype FilterSecretDto = FilterSecretDto(id: string, secretName: string, secretValue: string, version: I32)

  /** `FilterSecretDto::filter_secret`: the timestamps are dropped and the id printed. */
  function FilterSecret(s: SecretResponse): FilterSecretDto {
    FilterSecretDto(UuidString(s.id), s.secretName, s.secretValue, s.version)
  }

  /** `FilterSecretDto::filter_secrets`: `iter().map(filter_secret).collect()`. */
  function FilterSecrets(ss: seq<SecretResponse>): (r: seq<FilterSecretDto>)
    ensures |r| == |ss|
    ensures forall i :: 0 <= i < |ss| ==> r[i] == FilterSecret(ss[i])
  {
    if ss == [] then [] else [FilterSecret(ss[0])] + FilterSecrets(ss[1..])
  }

  /** Every entry keeps the id (as its string), name, value and version of its source, in order. */
  lemma FilterSecretsCopies(ss: seq<SecretResponse>, i: nat)
    requires i < |ss|
    ensures var e := FilterSecrets(ss)[i];
      e.id == UuidString(ss[i].id) && e.secretName == ss[i].secretName
      && e.secretValue == ss[i].secretValue && e.version == ss[i].version
  {
  }

  /** The map distributes over concatenation, so a response built item by item is the
      concatenation of the per-item views. */
  lemma {:induction false} FilterSecretsAppend(a: seq<SecretResponse>, b: seq<SecretResponse>)
    ensures FilterSecrets(a + b) == FilterSecrets(a) + FilterSecrets(b)
  {
    if a != [] {
      assert (a + b)[1..] == a[1..] + b;
      FilterSecretsAppend(a[1..], b);
    }
  }

  /** Entries with equal printed ids come from entries with equal ids. */
  lemma FilterSecretsIdsFaithful(ss: seq<SecretResponse>, i: nat, j: nat)
    requires i < |ss| && j < |ss|
    requires FilterSecrets(ss)[i].id == FilterSecrets(ss)[j].id
    ensures ss[i].id == ss[j].id
  {
    UuidStringInjective(ss[i].id, ss[j].id);
  }

  /** The response of both listing endpoints. */
  datatype SecretResponseDto = SecretResponseDto(secret: seq<FilterSecretDto>, totalCount: int)

  /** `?key=&secret=` of the API-key endpoint. */
  datatype RequestQuerySecretByKeyDto = RequestQuerySecretByKeyDto(key: string, secret: Uuid)
}
