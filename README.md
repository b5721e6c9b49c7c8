# A verified model of a versioned, encrypted, per-tenant secret store

The system is an HTTP back end. A tenant registers an account. The tenant then chooses a
cipher suite (AES-256, ChaCha20, Blowfish or triple DES), and the server generates a key for
it. The tenant also registers a PostgreSQL database of their own. From then on the server
stores the tenant's secrets in that database in encrypted form:

- every secret has a name, a ciphertext and a version;
- every edit first copies the current row into a history table, then overwrites the row with
  the version one up;
- listings decrypt a page of secrets, or of one secret's history, newest first;
- a caller holding the tenant's API key can read a single secret in clear.

This project models that core in Dafny and proves what it promises. Modules follow the
program's own files:

| module | file modelled |
|---|---|
| `Models` | `src/models.rs` |
| `Dtos` | `src/dtos.rs` |
| `Cipher` | `src/utils/decrypt.rs` |
| `KeyGen` | `src/utils/generate_key.rs` |
| `InsertQuery`, `SecretRepo` | `src/secret.rs` |
| `UserDb` | `src/db.rs` |
| `Reveal`, `SecretHandlers` | `src/handler/secrets.rs` |
| `VersionHandler` | `src/handler/secrets_version.rs` |
| `KeyHandler` | `src/handler/keys.rs` |
| `Settings` | `src/handler/setting.rs` |

`Wrappers`, `Text` and `Utf8` are the supporting modules. They hold `Option`/`Result`,
decimal and UUID printing, and `str::as_bytes` / `String::from_utf8` with both round trips.

How each kind of code is modelled:

- **State.** The tenant database is a class, `SecretRepo.SecretStore`, with the two tables as
  fields. Its methods are proved against the pure functions `Save` and `EditOutcome`. The
  users table is the class `UserDb.UserTable` in the same style.
- **Handlers.** The handlers with loops are methods: the validation loop, the encryption loop
  and the decrypt-and-decode loop. Each is proved equal to a pure function of the request
  (`ListSecrets`, `SaveRequest`, `EditRequest`, `ListVersions`, `DatabaseRequest`,
  `EncryptionMethodRequest`). The lemmas state the properties of those functions.
- **Batch insert.** The statement text and its bindings are modelled as written. The
  database's reading of them is modelled too: it scans the `$n` placeholders in the text and
  reads rows back out of the bound values.
- **The table invariant.** `SecretRepo.Consistent` holds that ids are unique and every history
  row points at a stored secret. It holds every name at 100 characters or fewer. Each
  secret's history is a chain of versions ending just below the secret's own. Saving
  preserves it, and so does every successful edit.

Where the code and the prose description of the system differ, the model follows the code:

- The triple DES key is generated with 21 bytes, not 24. `decrypt` pads it to 24 with three
  zero bytes (`KeyGen.GeneratedKeyNormalised`).
- A key of the wrong length, or a ciphertext `decrypt_vec` rejects, does not return an error.
  It panics through `expect`. The model makes the panic an explicit outcome, `Abort`, and a
  handler that meets it ends in `HandlerError.Panic`.
- The API-key route is mounted without the session middleware. `KeyHandler.SecretByKey` takes
  no session for that reason.

Three behaviours of the code as written are proved rather than hidden:

- An edit is three statements with no transaction. An edit whose new name is longer than
  the 100-character column fails in the `UPDATE`, which runs after the history row has
  already been written. The store is left with a stray history row and a broken chain
  (`SecretRepo.StrayHistoryRow`).
- An empty batch passes validation and builds `INSERT ... VALUES` with nothing after it. The
  database rejects that as a syntax error (`SecretHandlers.SaveEmptyBatch`).
- A save binds three parameters per form in one statement. PostgreSQL's wire protocol carries
  at most 65535, so more than 21845 valid forms are refused before the statement is sent
  (`SecretHandlers.SaveOversizedBatch`).

## Model

| member | source | states |
|---|---|---|
| Text.Decimal | src/utils/generate_key.rs:47 | the printed timestamp is a non-empty run of decimal digits, with no leading zero unless the number is 0 |
| Text.DecimalRoundTrip | src/utils/generate_key.rs:36-47 | reading the printed number back gives the number |
| Text.DecimalInjective | src/utils/generate_key.rs:47 | distinct timestamps print differently |
| Text.HexRoundTrip | src/dtos.rs:71 | the k hexadecimal digits of a number below 16^k read back as that number |
| Text.UuidString | src/dtos.rs:71 | `Uuid::to_string` is 36 characters with hyphens at positions 8, 13, 18 and 23 |
| Text.UuidDigits | src/dtos.rs:71 | removing the four hyphens from the printed id gives the id's 32 hexadecimal digits |
| Text.UuidStringInjective | src/dtos.rs:214 | distinct ids print as distinct strings |
| Text.AlphanumericChar | src/utils/generate_key.rs:41-44 | every sample of the `Alphanumeric` distribution is an ASCII letter or digit |
| Utf8.EncodeChar | src/handler/secrets.rs:102 | one character encodes to one to four bytes |
| Utf8.CodePoint | src/handler/secrets.rs:56 | a well-formed sequence decodes to a scalar value (no surrogate, below 0x110000) in the range its length allows, so overlong forms are rejected |
| Utf8.EncodeCharDecodes | src/handler/secrets.rs:56 | the encoding of a character is a well-formed sequence that decodes to it, whatever bytes follow |
| Utf8.DecodeReencodes | src/handler/secrets.rs:56 | a well-formed sequence is exactly the encoding of the character it decodes to |
| Utf8.FromUtf8AsBytes | src/handler/secrets.rs:102 | `String::from_utf8` of `as_bytes(s)` is `s` |
| Utf8.AsBytesFromUtf8 | src/handler/secrets.rs:56-57 | bytes that `String::from_utf8` accepts are exactly the encoding of the string it returns |
| Cipher.ZeroPadded | src/utils/decrypt.rs:27-29 | the normalised key has the target length; each byte is the key's byte where there is one, and zero beyond |
| Cipher.NormaliseKey | src/utils/decrypt.rs:35-37 | the in-place fill of the zeroed array yields exactly `ZeroPadded(key, n)` |
| Cipher.ZeroPaddedCases | src/utils/decrypt.rs:28-29 | normalising is the identity on a key of the target length, truncates a longer one, and appends zeros to a shorter one |
| Cipher.Pad | src/utils/decrypt.rs:17 | PKCS#7 padding (section 6.3 of RFC 5652) makes whole blocks, adds 1 to bs bytes and keeps the data as a prefix |
| Cipher.UnpadPad | src/utils/decrypt.rs:17 | unpadding padded data gives the data back |
| Cipher.PadUnpad | src/utils/decrypt.rs:32 | a whole-block buffer that unpads successfully, with a padding byte of at most the block size, is the padding of what it unpads to |
| Cipher.Ecb | src/utils/decrypt.rs:16 | ECB over whole blocks keeps the length when the block function does |
| Cipher.EcbRoundTrip | src/utils/decrypt.rs:16-17 | ECB with a block function decrypts ECB with a block function it inverts |
| Cipher.DecryptVecShape | src/utils/decrypt.rs:32 | a successful `decrypt_vec` had non-empty whole-block input and returns a proper prefix of the decrypted blocks, possibly empty, since the padding byte is bounded by the buffer and not by the block |
| Cipher.UnpadAcceptsLongPadding | src/utils/decrypt.rs:17 | the padding check accepts two 16-byte blocks of 0x20 and returns nothing, though that buffer is not `Pad` of anything |
| Cipher.DecryptVecRoundTrip | src/utils/decrypt.rs:40 | `decrypt_vec` undoes ECB encryption of the padded plaintext |
| Cipher.XorBitsTwice | src/utils/decrypt.rs:23 | xor-ing the same keystream value twice restores the number |
| Cipher.XorTwice | src/utils/decrypt.rs:23 | xor-ing the same keystream byte twice restores the byte |
| Cipher.Keystreamed | src/utils/decrypt.rs:21-24 | ChaCha20 decryption keeps the length; byte i is the data byte xor keystream byte i under the all-zero nonce |
| Cipher.ApplyKeystream | src/utils/decrypt.rs:22-23 | the in-place loop over the copied buffer yields `Keystreamed` |
| Cipher.KeystreamInvolution | src/utils/decrypt.rs:21-24 | applying the keystream twice gives the data back |
| Cipher.Decryption | src/utils/decrypt.rs:12-43 | AES-256 and ChaCha20 abort on any key of other than 32 bytes; Blowfish and TDES never abort on the key; ChaCha20 with a 32-byte key succeeds with output as long as its input; the block modes succeed only on non-empty whole blocks |
| Cipher.Decrypt | src/utils/decrypt.rs:12-43 | the dispatching method computes `Decryption` |
| Cipher.NormalisedKeysAgree | src/utils/decrypt.rs:26-41 | for Blowfish and TDES, keys that normalise alike decrypt alike |
| Cipher.ChachaRoundTrip | src/utils/decrypt.rs:19-25 | with a 32-byte key, ChaCha20 decryption inverts the keystream encryption |
| KeyGen.GenerateKey | src/utils/generate_key.rs:8-33 | the key is 32 bytes for AES-256, ChaCha20 and Blowfish and 21 for TDES, and byte i is the random source's i-th byte |
| KeyGen.GeneratedKeyAccepted | src/utils/generate_key.rs:12-20 | a key of the generated length never makes `decrypt` abort on its length |
| KeyGen.GeneratedKeyNormalised | src/utils/generate_key.rs:27-31 | a generated Blowfish key is used as it is; a generated TDES key reaches the cipher with three zero bytes appended |
| KeyGen.Suffix | src/utils/generate_key.rs:41-45 | the random part is 10 characters, the i-th being the i-th sample |
| KeyGen.ApiKey | src/utils/generate_key.rs:35-48 | the API key is the decimal millisecond timestamp followed by exactly 10 ASCII alphanumeric characters |
| KeyGen.ApiKeyTimestamp | src/utils/generate_key.rs:47 | the timestamp can be read back from the API key |
| KeyGen.AlphanumericCharInjective | src/utils/generate_key.rs:42 | distinct samples give distinct characters |
| KeyGen.ApiKeyInjective | src/utils/generate_key.rs:47 | equal API keys come from the same timestamp and the same samples |
| Dtos.EffectivePaging | src/dtos.rs:46-51 | after validation and defaults the page is at least 1 and the limit in [1, 50]; an absent page becomes 1 and an absent limit 10, and present values are kept |
| Dtos.RegistrationAccepted | src/dtos.rs:10-32 | a registration is accepted exactly when the name is not empty, the address is not empty and well formed, the password has six or more characters and the confirmation equals it |
| Dtos.PasswordUpdateAccepted | src/dtos.rs:115-134 | a password change is accepted exactly when both passwords have six or more characters and the confirmation equals the new one |
| Dtos.ToDbConnection | src/handler/setting.rs:23-29 | the descriptor copies every field of the form |
| Dtos.ValidDatabasePort | src/dtos.rs:137-148 | a valid form has four non-empty text fields and a port in [1, 65535], so `port as u16` keeps its value |
| Dtos.ValidateEncryptionMethod | src/dtos.rs:156-164 | every one of the four methods is accepted; the error branch cannot be taken |
| Dtos.FilterUser | src/dtos.rs:69-80 | the id is the printed UUID; name, email, method and API key are copied; both timestamps are unwrapped; `dbConnectionExists` holds exactly when a connection is stored |
| Dtos.FilterUserHidesSecrets | src/dtos.rs:69-80 | users who differ only in password, key or connection details look the same in the view |
| Dtos.FilterUserIdsDistinct | src/dtos.rs:71 | distinct users get distinct ids in their views |
| Dtos.FilterSecrets | src/dtos.rs:221-223 | the map keeps length and order, and entry i is the view of item i |
| Dtos.FilterSecretsCopies | src/dtos.rs:212-219 | each entry has the printed id, name, value and version of its item |
| Dtos.FilterSecretsAppend | src/dtos.rs:221-223 | the map distributes over concatenation |
| Dtos.FilterSecretsIdsFaithful | src/dtos.rs:214 | entries with equal printed ids come from items with equal ids |
| InsertQuery.StatementStep | src/secret.rs:148-153 | each item adds its separator and its tuple to the statement text |
| InsertQuery.BuildStatement | src/secret.rs:146-164 | the two loops build exactly the statement for n items and the bindings of the items |
| InsertQuery.DigitsRun | src/secret.rs:152 | the digits after a `$` are read as the longest run of digits there |
| InsertQuery.RefsPlaceholder | src/secret.rs:152 | `$k` refers to parameter k |
| InsertQuery.RefsGroup | src/secret.rs:152 | the tuple of item i refers to parameters 3i+1, 3i+2 and 3i+3, in that order |
| InsertQuery.RefsValuesList | src/secret.rs:148-153 | the tuples of n items refer to parameters 1 to 3n, each once, in increasing order |
| InsertQuery.RefsValuesNext | src/secret.rs:148-153 | one more item adds the next three placeholders to those already there |
| InsertQuery.PrefixHasNoRefs | src/secret.rs:146 | the fixed prefix refers to no parameter |
| InsertQuery.RefsStatement | src/secret.rs:146-153 | the whole statement refers to parameters 1 to 3n, each once, in increasing order |
| InsertQuery.Bindings | src/secret.rs:159-164 | three bound values per item |
| InsertQuery.BindingsAt | src/secret.rs:159-164 | parameter 3i+1 is item i's name, 3i+2 its ciphertext and 3i+3 its version |
| InsertQuery.TupleRowAt | src/secret.rs:159-164 | the tuple of item i reads back as item i |
| InsertQuery.StatementInsertsItems | src/secret.rs:146-170 | the statement with its bindings describes exactly the items, in input order; with no items it is a syntax error |
| SecretRepo.InsertByTime | src/secret.rs:68 | inserting into a newest-first list keeps it newest first and adds the row once |
| SecretRepo.SortNewestFirst | src/secret.rs:68 | `ORDER BY created_at DESC` gives a newest-first permutation of the rows |
| SecretRepo.OffsetProduct | src/secret.rs:57 | the offset of a page, counted as the rows of the pages before it, is `(page - 1) * limit` |
| SecretRepo.Window | src/secret.rs:69 | `LIMIT l OFFSET o` gives the at most l rows from position o on |
| SecretRepo.PagesTile | src/secret.rs:57 | the pages 1, 2, ... with offset (page-1)*limit concatenate to the ordered rows |
| SecretRepo.PagesCoverAll | src/secret.rs:57 | enough pages cover all rows |
| SecretRepo.WindowOfPermutation | src/secret.rs:65-77 | every row in a window of the sorted table is a stored row |
| SecretRepo.OrderedWindow | src/secret.rs:65-70 | `ORDER BY created_at DESC LIMIT l OFFSET o` gives at most l rows, none past the end, otherwise as many as remain, each at its place in the newest-first order and each a stored row |
| SecretRepo.GetSecrets | src/secret.rs:52-80 | the count is the number of all secrets; the page holds at most `limit` rows, exactly the ones at positions offset.. of the newest-first order, with offset (page-1)*limit |
| SecretRepo.CountIndependentOfPage | src/secret.rs:59-63 | the count does not depend on page or limit |
| SecretRepo.GetSecretsById | src/secret.rs:82-100 | the row returned has the id; an unknown id gives the missing-row error |
| SecretRepo.HistoryOf | src/secret.rs:125 | a secret's history is exactly the history rows with its id |
| SecretRepo.GetSecretsVersion | src/secret.rs:102-140 | count and page are restricted to the secret's history, newest first, with the same offset |
| SecretRepo.EmptyConsistent | src/utils/create_table.rs:20-36 | freshly created tables satisfy the invariant |
| SecretRepo.NewRows | src/secret.rs:146 | the database gives each inserted row a generated id and `created_at = updated_at = now` |
| SecretRepo.SaveOutcome | src/secret.rs:142-173 | a batch is stored whole, in input order, after the existing rows, or not at all; history is untouched; a batch binding more than 65535 parameters (over 21845 items) is refused; the empty batch is a syntax error |
| SecretRepo.SaveAccepts | src/secret.rs:142-173 | a non-empty batch of at most 21845 items whose names fit under fresh ids is stored |
| SecretRepo.HistoryAppend | src/secret.rs:196-197 | appending a history row adds it to its secret's history only |
| SecretRepo.InsertPreservesConsistent | src/secret.rs:167-170 | an accepted insert keeps the invariant |
| SecretRepo.SavePreservesConsistent | src/secret.rs:142-173 | a save keeps the invariant |
| SecretRepo.Snapshot | src/secret.rs:194-206 | the history row holds the current row's id as `secret_id`, and its name, ciphertext and version |
| SecretRepo.UpdateRow | src/secret.rs:208-220 | the row with the id takes the new name and value, version + 1 and `updated_at = now`; every other row is untouched |
| SecretRepo.IdIndexed | src/secret.rs:92-96 | with unique ids, the lookup finds the row stored at the index |
| SecretRepo.EditUnknownId | src/secret.rs:188-192 | an edit changes nothing and reports the missing row exactly when the id is not stored |
| SecretRepo.EditSucceeds | src/secret.rs:175-224 | on a consistent store an edit succeeds exactly when the id is stored, the history id is fresh, the name fits and the version can grow |
| SecretRepo.EditSuccess | src/secret.rs:194-220 | a successful edit appends exactly one history row holding the row as it was, changes that row alone to the new name and value with version + 1, and nothing else |
| SecretRepo.EditIsEdited | src/secret.rs:175-224 | a successful edit is the edited tables |
| SecretRepo.EditedKeys | src/secret.rs:196-212 | after an edit ids stay unique and every history row still belongs to a secret |
| SecretRepo.EditedChains | src/secret.rs:196-212 | after an edit every secret's history still ends just below its version |
| SecretRepo.EditedNames | src/secret.rs:196-212 | after an edit every name still fits the column |
| SecretRepo.EditedConsistent | src/secret.rs:175-224 | the edited tables satisfy the invariant |
| SecretRepo.EditPreservesConsistent | src/secret.rs:175-224 | a successful edit keeps the invariant |
| SecretRepo.StrayHistoryRow | src/secret.rs:194-220 | a new name over 100 characters fails after the history insert, leaving a history row and a broken chain |
| SecretRepo.EditHistory | src/secret.rs:194-206 | a successful edit adds the snapshot to the edited secret's history and leaves every other history as it was |
| SecretRepo.SaveThenCount | src/secret.rs:59-63 | a stored batch adds its size to the listing's count, on every page |
| SecretRepo.SecretStore.constructor | src/utils/create_table.rs:20-36 | the tables start empty and consistent |
| SecretRepo.SecretStore.SaveSecrets | src/secret.rs:142-173 | the store becomes `Save` of the old tables, or stays as it was with the same error; the invariant is kept |
| SecretRepo.SecretStore.EditSecrets | src/secret.rs:175-224 | the statement-by-statement method yields exactly `EditOutcome`; a successful edit keeps the invariant |
| UserDb.GetUser | src/db.rs:64-102 | a user returned satisfies every supplied filter; none is returned exactly when no user does |
| UserDb.GetUserFirst | src/db.rs:93-99 | the user returned is the first match |
| UserDb.GetUserById | src/db.rs:86-89 | with unique ids, a lookup by id finds exactly that user |
| UserDb.InsertUser | src/db.rs:105-127 | the new user has only name, email, password and API key set; a taken id or email is a unique violation |
| UserDb.SaveUserPreservesValid | src/db.rs:115-117 | inserting keeps ids and emails unique and method and key paired |
| UserDb.UpdateWhere | src/db.rs:139 | only rows with the id change |
| UserDb.UpdateReturning | src/db.rs:129-148 | an unknown id is the missing-row error with the table unchanged; otherwise the returned user is the changed row |
| UserDb.RenameChangesOnlyName | src/db.rs:136-139 | renaming changes only the name and `updated_at` of that user |
| UserDb.RepasswordChangesOnlyPassword | src/db.rs:157-160 | a password change changes only the hash and `updated_at` |
| UserDb.ConnectChangesOnlyConnection | src/db.rs:179-184 | saving a connection changes only `db_connection`, not `updated_at` |
| UserDb.KeyChangesOnlyCipher | src/db.rs:200-205 | saving a key sets key and method together, overwriting the old pair, and refreshes `updated_at` |
| UserDb.UpdatePreservesValid | src/db.rs:129-214 | an update that keeps ids, emails and pairing keeps the table valid |
| UserDb.UpdatesPreserveValid | src/db.rs:129-214 | none of the four updates breaks validity |
| UserDb.UpdatePreservesValidIf | src/db.rs:129-214 | the same, for any starting table |
| UserDb.UserTable.constructor | src/models.rs:25-36 | the model's initial state: an empty table of users, which is valid |
| UserDb.UserTable.SaveUser | src/db.rs:105-127 | the table becomes `InsertUser`'s result or stays as it was with its error; validity is kept |
| UserDb.UserTable.UpdateUserName | src/db.rs:129-148 | the table and result are `UpdateReturning` with the rename |
| UserDb.UserTable.UpdateUserPassword | src/db.rs:150-169 | the table and result are `UpdateReturning` with the new hash |
| UserDb.UserTable.SaveDatabaseDetails | src/db.rs:171-192 | an unknown id is no error, and the table is `UpdateWhere` with the connection |
| UserDb.UserTable.SaveUserKey | src/db.rs:194-214 | the table is `UpdateWhere` with the key and method |
| Reveal.FromSecrets | src/handler/secrets.rs:53 | one row per stored secret, in order |
| Reveal.FromVersions | src/handler/secrets_version.rs:52 | one row per history row, under the history row's own id |
| Reveal.RevealOne | src/handler/secrets.rs:54-68 | a row is revealed exactly when it decrypts to UTF-8 text; id, name, version and timestamps are copied and the value's bytes are the decryption; a failure is a panic or invalid UTF-8 |
| Reveal.CollectEach | src/handler/secrets.rs:53-69 | the loop succeeds exactly when every row's step succeeds, and then holds one entry per row, in order, entry i being row i's result |
| Reveal.CollectFirstErr | src/handler/secrets.rs:53-69 | a failing loop fails with the error of a row whose step fails, every earlier row's step having succeeded |
| Reveal.CollectPrefixErr | src/handler/secrets.rs:54-57 | once one of the first k rows fails, later rows do not change the outcome |
| Reveal.RevealAllEach | src/handler/secrets.rs:53-69 | the decrypting loop succeeds exactly when every row reveals, with one entry per row in order, entry i being row i revealed |
| Reveal.RevealAllFirstErr | src/handler/secrets.rs:54-57 | a failing decrypting loop reports the error of the first row that does not reveal |
| Reveal.RevealAllOk | src/handler/secrets.rs:53-69 | the loop succeeds exactly when every ciphertext is readable |
| Reveal.RevealRows | src/handler/secrets_version.rs:44-60 | the pushing loop with its early exit computes `RevealAll` |
| SecretHandlers.GetSecretsRequest | src/handler/secrets.rs:23-79 | the handler computes `ListSecrets` |
| SecretHandlers.ListSecretsSucceeds | src/handler/secrets.rs:28-69 | the listing succeeds exactly when the query is valid, the tenant is configured and reachable, and every row of the page is readable |
| SecretHandlers.ListSecretsShows | src/handler/secrets.rs:53-76 | the output matches the repository page in length and order, with printed id, name and version copied and each value decoding the row's decryption; `total_count` is passed through |
| SecretHandlers.ListFailsBeforeFetch | src/handler/secrets.rs:28-39 | an invalid query or a missing or unreachable database fails whatever the tables hold |
| SecretHandlers.Sealing | src/handler/secrets.rs:101-109 | one `SavedSecret` per form, in input order |
| SecretHandlers.SaveSecretsRequest | src/handler/secrets.rs:81-127 | the handler with its two loops yields exactly `SaveRequest` |
| SecretHandlers.SavedRows | src/handler/secrets.rs:104-108 | each new row is the form's name, `encrypt(method, key, value bytes)` and version 1 |
| SecretHandlers.StoreSealed | src/handler/secrets.rs:118 | storing the sealed batch succeeds exactly when it is non-empty, has at most 21845 items, the names fit and the ids are fresh, and it appends the rows |
| SecretHandlers.SaveRequestOutcome | src/handler/secrets.rs:81-127 | a save succeeds exactly when every form is valid, the tenant is configured and reachable, and the storage conditions hold, the parameter limit among them; it appends the rows; any failure changes nothing |
| SecretHandlers.SaveRejectsInvalidForm | src/handler/secrets.rs:86-89 | one invalid form rejects the batch before anything else |
| SecretHandlers.SaveEmptyBatch | src/handler/secrets.rs:81-127 | an empty batch reaches the database and fails there with a syntax error |
| SecretHandlers.SaveOversizedBatch | src/handler/secrets.rs:111-118 | a batch of more than 21845 valid forms passes every handler check and is refused for binding more than 65535 parameters, storing nothing |
| SecretHandlers.SaveThenReveal | src/handler/secrets.rs:101-109 | under a cipher that decrypts what it encrypts, each saved secret reads back as its form's name and value at version 1 |
| SecretHandlers.RevealEncrypted | src/handler/secrets.rs:54-57 | under such a cipher, a row holding the encryption of a text reveals that text |
| SecretHandlers.EditSecretsRequest | src/handler/secrets.rs:129-162 | the handler yields exactly `EditRequest` |
| SecretHandlers.EditRequestEdits | src/handler/secrets.rs:145-154 | a successful request is the repository edit of the form's id and name with the encryption of its value under the current method and key |
| SecretHandlers.EditConfigFailureChangesNothing | src/handler/secrets.rs:134-150 | a validation or configuration failure leaves the tables as they were |
| SecretHandlers.EditThenReveal | src/handler/secrets.rs:129-162 | under such a cipher, the edited secret reads back as the form's name and value one version up, and the new history row holds the old value |
| SecretHandlers.CheckOrderDiffers | src/handler/secrets.rs:36-49 | with neither database nor cipher suite, listing reports the database while saving and editing report the cipher suite |
| VersionHandler.GetSecretVersionRequest | src/handler/secrets_version.rs:13-70 | the handler computes `ListVersions` |
| VersionHandler.ListVersionsSucceeds | src/handler/secrets_version.rs:18-60 | the history listing succeeds exactly when the query is valid, the tenant is configured and reachable, and every history row is readable |
| VersionHandler.ListVersionsShows | src/handler/secrets_version.rs:44-67 | each entry is a row of the requested secret's history, in page order, under the history row's own id with the snapshot's version; the count is the history's size |
| VersionHandler.VersionsFailBeforeFetch | src/handler/secrets_version.rs:27-30 | an invalid query or a missing or unreachable database fails whatever the tables hold |
| VersionHandler.EditAddsOneVersion | src/secret.rs:194-206 | a successful edit request grows the edited secret's history count by one and no other |
| KeyHandler.UnauthorizedIffUnknownKey | src/handler/keys.rs:19-25 | the request is unauthorized exactly when no tenant holds the key |
| KeyHandler.KeyFailsBeforeLookup | src/handler/keys.rs:27-30 | a holder without a reachable database fails whatever the databases hold |
| KeyHandler.KeyUnknownSecret | src/handler/keys.rs:34 | an unknown secret id fails at the fetch with the missing row, whatever the cipher settings |
| KeyHandler.KeyRevealsRequested | src/handler/keys.rs:34-49 | on success the value is the decoding of the decryption of exactly the requested secret's ciphertext, under the key holder's method and key |
| Settings.SetDatabase | src/handler/setting.rs:15-50 | the handler yields exactly `DatabaseRequest` and keeps the users table valid |
| Settings.DatabaseOutcome | src/handler/setting.rs:20-42 | the descriptor is stored only after validation, connection and table creation succeed; failures change nothing; the stored descriptor copies the form and only `db_connection` changes |
| Settings.SetEncryptionMethod | src/handler/setting.rs:52-74 | the handler yields exactly `EncryptionMethodRequest` and keeps the users table valid |
| Settings.EncryptionMethodOutcome | src/handler/setting.rs:57-66 | choosing a method always succeeds; it stores that method with a new key of its length drawn from the random source, whatever was held before; `decrypt` accepts the key's length; other tenants are untouched |

## Left out

- The cipher primitives are abstract: the AES-256, Blowfish and TDES-EDE3 block functions and
  the ChaCha20 keystream. They are library calls and are parameters here (`Cipher.Primitives`).
- `src/utils/encrypt.rs` is not part of this model. `encrypt` is a function parameter, and it
  is total: a panic inside it is not modelled. The save-then-read lemmas assume
  `RoundTrips`, which says decryption inverts it.
- The registration, login and session handlers (`src/handler/auth.rs`, `src/handler/user.rs`)
  are left out: password hashing, JWTs and cookies. So is the middleware that supplies the
  authenticated user; the handlers take that user as a parameter.
- `src/routes.rs` is left out.
- Connecting to the tenant database and creating its tables are I/O. They are the boolean
  outcomes `reachable` and `createTables`. The database a descriptor leads to is the
  `SecretStore` passed in, or `tablesOf` for the key endpoint.
- Errors of the database itself are not modelled: a lost connection, or a failed `COUNT` or
  `SELECT`. The reads are total. The errors modelled are the ones the data can cause: a
  missing row, a key collision, an over-long name, an `INTEGER` overflow, a malformed
  statement, and more than 65535 bound parameters.
- `NOW()`, the random source and the generated UUIDs are parameters (`now`, `rng`, `gen`,
  `versionId`).
- Concurrency is left out. Concurrent edits can lose updates. The missing transaction in
  `edit_secrets` is modelled only in a sequential setting (`SecretRepo.StrayHistoryRow`).
- Integer casts and overflow: page and limit are `nat`. The model assumes `page as u32`,
  `limit as i32` and `offset as i32` keep their values, and that the `u32` product
  `(page - 1) * limit` (`src/secret.rs:57` and `:108`) does not overflow. For pages beyond
  about 85 million at limit 50 it does: a panic in a debug build, a wrapped offset in a
  release build. Neither outcome is modelled.
  `limit as i32` and `offset as i32` keep their values.
- `SecretRepo.GetSecrets`: SQL leaves the order of rows with equal `created_at` unspecified;
  the model breaks ties by storage order.
- `UserDb.GetUser`: which row `fetch_optional` meets first is unspecified; the model takes the
  first in storage order.
- The users table's definition is not part of this model. `UserDb` takes ids and email addresses
  to be unique, as the registration handler's reading of a unique violation implies.
- The `email` validator rule is a predicate parameter (`isEmail`).
- HTTP status codes, error-message texts and JSON field names are left out.
- The history rows' `created_at`, and the ordering of history by it, come from `NOW()` at
  insert time, which is the `now` parameter.
- The `block_padding` crate is not part of this model. `Cipher.Unpad` follows the rule of its
  `Pkcs7::unpad` in the 0.2 series, used with `block_modes::Ecb`. That rule checks only that
  the padding byte n satisfies 1 <= n <= the buffer's length and that the last n bytes equal
  n. The stricter n <= block size of section 6.3 of RFC 5652 is not applied.
- `Dtos.FilterUser` requires both timestamps to be present, because `unwrap` panics on a
  record without them.
