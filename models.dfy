/** The records of the system: tenants (users) in the control-plane database and, in each
    tenant's own database, secrets and their history rows. */
module Models {
  import opened Text
  import opened Wrappers

  type Bytes = seq<byte>

  /** Timestamps (`NOW()`, `DateTime<Utc>`) are opaque instants supplied by the caller. */
  type Timestamp = nat

  const I32_MIN: int := -0x8000_0000
  const I32_MAX: int := 0x7FFF_FFFF

  /** Rust `i32` and a Postgres `INTEGER` column. */
  type I32 = x: int | I32_MIN <= x <= I32_MAX

  /** The four cipher suites a tenant can choose. */
  datatype EncryptionMethod = AES256 | Chacha20 | Blowfish | DESTriphleDES

  /** Connection details for the tenant-owned database. */
  datatype DbConnection = DbConnection(
    host: string,
    username: string,
    password: string,
    database: string,
    port: I32)

  /** A tenant. Cipher method, key and database descriptor are independently optional
      in the record itself. */
  datatype User = User(
    id: Uuid,
    name: string,
    email: string,
    password: string,
    encryptionMethod: Option<EncryptionMethod>,
    keys: Option<Bytes>,
    apiKeys: Option<string>,
    dbConnection: Option<DbConnection>,
    createdAt: Option<Timestamp>,
    updatedAt: Option<Timestamp>)

  /** A live row of the tenant's `secrets` table. */
  datatype Secret = Secret(
    id: Uuid,
    secretName: string,
    encryptedSecretValue: Bytes,
    version: I32,
    createdAt: Timestamp,
    updatedAt: Timestamp)

  /** A row of `secret_versions`: its own id, the secret it belongs to, and a snapshot of that
      secret's name, ciphertext and version taken just before an edit. */
  datatype SecretVersion = SecretVersion(
    id: Uuid,
    secretId: Uuid,
    secretName: string,
    encryptedSecretValue: Bytes,
    version: I32,
    createdAt: Timestamp,
    updatedAt: Timestamp)

  /** The ways a statement on a tenant database can fail in this model, named after the
      PostgreSQL conditions they stand for: `fetch_one` finding no row, a primary-key
      collision, text longer than a `VARCHAR(100)` column, an `INTEGER` result outside 32 bits,
      a malformed statement, parameters that do not fit the statement's placeholders, and more
      bound parameters than the wire protocol's 16-bit count can carry (the driver refuses such
      a statement before sending it). */
  datatype DbError = RowNotFound | UniqueViolation | ValueTooLong | NumericOutOfRange | SyntaxError | BindMismatch
                   | TooManyArguments

  /** The most parameters one PostgreSQL statement can bind: the Bind message counts them in
      an unsigned 16-bit field. */
  const MAX_BIND_PARAMETERS: nat := 65535

  /** One item of a batch insert, as the save handler produces it (declared in the secrets
      handler in the Rust code; here beside the other records so that the repository can use it). */
  datatype SavedSecret = SavedSecret(secretName: string, encryptedSecretValue: Bytes, version: I32)
}
