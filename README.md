# collaborate-core: user account store and document store, in Dafny

This project models two services of collaborate-core and proves what they promise.

- **The user account store.** `UserManager` (`src/user_manager.rs`) and `UserRepository`
  (`src/user/repository.rs`) keep three wide-column tables over one keyspace: `users`, keyed
  by the account id, and the lookup tables `users_by_username` and `users_by_email`. Each
  lookup table maps a key to an account id.
- **The document store.** `DocumentService` (`src/document_service.rs`) keeps document
  metadata and opaque CRDT content in two relational tables. Every instant it writes or reads
  is truncated to the millisecond.

Module layout:

- `Wrappers`: `Option` and `Result`.
- `Primitives`: UUIDs, bytes, instants as nanoseconds since the epoch, and chrono's
  millisecond conversions.
- `Models` and `Errors`: `User`, `AuthDetails`, `UserManagerError` and
  `AuthenticationError`, from `src/user/models.rs` and `src/user/errors.rs`.
- `Cql`: the store itself. It has cells and rows, the statements the account code prepares,
  what each statement does to the tables, typed row decoding, a logged batch, and the
  `Session` and `Batch` objects the code mutates.
- `Accounts`: the operations of `UserManager` as the class `Accounts.UserManager`. Its reads
  are functions over the tables. The store invariant `Consistent` says every row reads as a
  `User` and both lookup tables index the accounts exactly. The module proves that creation,
  the updates and deletion preserve it.
- `Repository`: `UserRepository`. Its batch contributors, batch execution, finders and direct
  UPDATEs are methods of `Repository.UserRepository`.
- `Documents`: `trunc_to_millis` and the operations of `DocumentService`. The two writes are
  methods of `Documents.DocumentService`, which holds the two tables as map fields. The reads
  are functions over the tables.

How the store is modelled, following the code:

- **Time and ids are parameters.** The generated account or document id and each clock
  reading are parameters. `create_document` reads the clock twice: once itself and once inside
  `update_document_content`. So `Documents.DocumentService.CreateDocument` takes two clock
  readings.
- **Rows are maps from columns to cells.** A CQL `timestamp` cell keeps whole milliseconds,
  because the driver sends `Timestamp(DateTime)` as `timestamp_millis()`. The account code does
  not truncate its clock, so the `User` that `create_user` or `update_user_profile` returns can
  differ from what a later read gives. `Accounts.NewUserReadsBackExactly` says exactly when it
  does not.
- **UPDATEs upsert.** The UPDATEs carry no `IF EXISTS`. So `update_user_password` and
  `update_last_login` on an id with no account create a partial row. That row has no username
  and reads back as `RowParseError`; `Accounts.BlindUpdateOfAbsentUser` proves this. The same
  row also defeats `delete_user`: its details read finds no username or email and answers
  `RowParseError` without deleting anything (`Accounts.OrphanRowBlocksDelete`), so
  `delete_user` cannot remove the orphan row.
- **A logged batch is all or nothing.** All of its statements apply, or none does. Its
  `IF NOT EXISTS` conditions are read on the tables as they were before the batch
  (`Cql.ApplyBatch`). The account code relies on this behaviour, and the model takes it as the
  store's semantics.
- **Both account batches are logged.** The delete batch is `Default::default()`, which is a
  logged batch, so it is modelled with the same semantics as the creation batch.
- **One creation error is unreachable.** In a sequential model, a creation batch that was not
  applied always leaves the username or the email in a lookup table. So the third error of
  `create_user`, `UsernameOrEmailAlreadyExists`, is never returned. The branch is kept in
  `Accounts.UserManager.CreateUser`, and its contract shows which error each case gives.
- **The document tables keep their constraints.** They carry their primary keys and the
  foreign key from content to metadata (`src/document_service.rs:83-88`). Content for a
  document with no metadata is refused and changes nothing.

## Model

| member | source | states |
|---|---|---|
| Primitives.TimestampMillis | src/document_service.rs:30 | chrono's `timestamp_millis` floors: the instant lies in the millisecond that starts at the result |
| Primitives.MillisRoundTrip | src/document_service.rs:30 | `from_timestamp_millis` then `timestamp_millis` gives the millisecond count back |
| Cql.StoredTimestamp | src/user/repository.rs:131 | a `timestamp` cell gives back the instant floored to its millisecond: a whole millisecond, at most the instant and less than 1 ms below it, and equal to the instant exactly when the instant is a whole millisecond |
| Cql.PersistedIdempotent | src/user/repository.rs:131 | storing an account that was itself read back changes nothing |
| Cql.InsertStatementFor | src/user_manager.rs:213-228 | the canonical INSERT for an account is keyed by that account's id |
| Cql.InsertedRow | src/user/repository.rs:62-67 | the canonical INSERT binds all ten non-key columns; the first name, last name and last-login cells are null exactly when the value is `None` |
| Cql.DecodeUser | src/user/models.rs:18-31 | a row that decodes gives an account whose id is the row's key and whose username and email are the row's cells |
| Cql.DecodeUserCells | src/user/models.rs:18-31 | a row decodes as a given account exactly when it holds that account's ten cells, with null read as `None` for the optional ones |
| Cql.DecodedUserIsPersisted | src/user/models.rs:28-30 | an account read from a row has whole-millisecond timestamps |
| Cql.InsertedRowDecodes | src/user/repository.rs:130-132 | the row the canonical INSERT writes reads back as the same account, with its timestamps floored to the millisecond |
| Cql.ConditionalInsertWritesOnlyWhenAbsent | src/user/repository.rs:50-61 | a conditional lookup insert writes its entry exactly when the key is absent and changes no other table |
| Cql.Apply | src/user_manager.rs:141-171 | each statement writes only its own table; an UPDATE, INSERT or DELETE of the account table changes no row but the one of its id; a conditional lookup insert on a taken key changes nothing |
| Cql.ApplyAllAppend | src/user_manager.rs:230 | running a batch's statements in order composes: a prefix, then the rest |
| Cql.ApplyAllThree | src/user_manager.rs:211-228 | a three-statement batch is its statements applied one after the other, in the order they were added |
| Cql.UnconditionalBatchApplies | src/user_manager.rs:435 | a batch with no `IF NOT EXISTS` statement is always applied |
| Cql.RejectedBatchChangesNothing | src/user_manager.rs:230-232 | a batch is rejected exactly when one of its conditions fails, and a rejected batch changes no table |
| Cql.ApplyBatch | src/user_manager.rs:230-232 | a logged batch is applied exactly when every `IF NOT EXISTS` condition holds on the tables before it; an applied batch runs all its statements, a rejected one leaves the tables as they were |
| Cql.ProfileKeepsOtherCells | src/user_manager.rs:141-146 | the profile UPDATE leaves the username, email, hash, last-login and creation cells as they were |
| Cql.ProfileWritesItsCells | src/user_manager.rs:141-146 | the profile UPDATE's five cells read back as the values it binds, a `None` name as null |
| Cql.UpdateProfileOnRow | src/user_manager.rs:141-146 | the profile UPDATE on a readable row changes exactly first name, last name, active, verified and `updated_at`; a `None` name is written as null |
| Cql.PasswordCells | src/user_manager.rs:147-152 | writing the hash and `updated_at` cells over a row holding an account gives a row holding it with those two fields replaced |
| Cql.LastLoginCells | src/user_manager.rs:153-158 | writing the last-login and `updated_at` cells over a row holding an account gives a row holding it with those two fields replaced |
| Cql.UpdatePasswordOnRow | src/user_manager.rs:147-152 | the password UPDATE on a readable row changes exactly the hash and `updated_at` |
| Cql.UpdateLastLoginOnRow | src/user_manager.rs:153-158 | the last-login UPDATE on a readable row changes exactly `last_login_at` and `updated_at` |
| Cql.UpdateOnAbsentRowIsUnreadable | src/user_manager.rs:394-415 | an UPDATE of an id with no row creates a row that does not decode |
| Cql.SelectUserById | src/user_manager.rs:264-269 | no row exactly when the id has none; a decoded row gives an account with the requested id and the row's username and email |
| Cql.SelectUserDetails | src/user_manager.rs:419-427 | no row exactly when the id has none; otherwise the username and email cells, and a failure exactly when either is missing |
| Cql.SelectUserIdByUsername | src/user_manager.rs:278-291 | an id exactly when the username is a lookup key, and then the id it maps to |
| Cql.SelectUserIdByEmail | src/user_manager.rs:293-306 | an id exactly when the email is a lookup key, and then the id it maps to |
| Cql.Batch.AddStatement | src/user_manager.rs:211-213 | adding a statement appends it at the end of the batch and keeps the serial consistency |
| Cql.Batch.SetSerialConsistency | src/user_manager.rs:208 | setting the serial consistency replaces it and keeps the statements |
| Cql.Session.RunBatch | src/user_manager.rs:230 | running a batch sets the tables and the applied flag to the logged-batch outcome |
| Cql.Session.Execute | src/user_manager.rs:370-382 | executing a statement applies it to the tables |
| Accounts.GetUserById | src/user_manager.rs:263-276 | `Ok(None)` exactly when there is no row; `RowParseError` exactly when the row does not decode; otherwise the decoded account, with the requested id |
| Accounts.GetUserByUsername | src/user_manager.rs:308-314 | no lookup entry gives `Ok(None)`; an entry gives the read by the id it holds, and a dangling entry gives `Ok(None)` |
| Accounts.GetUserByEmail | src/user_manager.rs:316-322 | the same two-hop read through the email lookup |
| Accounts.AuthDetailsOf | src/user_manager.rs:338-345 | the authentication details carry the account's id, username, email, hash, active and verified flags |
| Accounts.GetUserForAuthentication | src/user_manager.rs:324-349 | an identifier with '@' is read by email, any other by username; a found account gives its six authentication fields, none gives `UserNotFound`, a failed read gives `DatabaseError` with its cause |
| Accounts.ConsistentAccountsAreUnique | src/user_manager.rs:194-261 | in a consistent store no two accounts share a username or an email |
| Accounts.ConsistentLookupsFindOwner | src/user_manager.rs:308-322 | in a consistent store every account is found by its username and by its email |
| Accounts.ConsistentLookupsNeverDangle | src/user_manager.rs:308-314 | in a consistent store a username lookup hit reads an account with that username |
| Accounts.AuthenticationByEitherIdentifier | src/user_manager.rs:324-349 | for an account whose username has no '@' and whose email has one, both identifiers authenticate to the same details with the stored hash |
| Accounts.NewUser | src/user_manager.rs:248-260 | the created account carries the arguments, `created_at == updated_at == now` and no last login |
| Accounts.CreateUserStatements | src/user_manager.rs:207-228 | the creation batch is the conditional username insert, the conditional email insert, then the unconditional INSERT of the account, all under its id |
| Accounts.CreateBatchOutcome | src/user_manager.rs:207-232 | the creation batch applies exactly when neither the username nor the email is taken, and then writes the three rows; otherwise it writes nothing |
| Accounts.CreatedUserReadBack | src/user_manager.rs:194-261 | after a creation the account reads back by id, by username and by email, with its timestamps floored to the millisecond |
| Accounts.NewUserReadsBackExactly | src/user_manager.rs:205 | the returned account reads back unchanged exactly when `now` is a whole millisecond |
| Accounts.CreatedRowKeys | src/user_manager.rs:213-228 | the canonical row of a creation holds the account's username and email |
| Accounts.CreatePreservesConsistency | src/user_manager.rs:194-261 | a creation with a fresh id, username and email keeps the store consistent |
| Accounts.CreateKeepsRowsIndexed | src/user_manager.rs:211-212 | after a creation every account is indexed under its username and email |
| Accounts.CreateKeepsLookupsExact | src/user_manager.rs:211-212 | after a creation every lookup entry leads to a row holding its key |
| Accounts.PatchProfile | src/user_manager.rs:364-368 | each given profile field replaces the current one, each absent field keeps it, `updated_at` becomes now, and nothing else changes |
| Accounts.ReplaceRowKeepsConsistency | src/user_manager.rs:351-415 | replacing an account's row by a readable row with the same username and email keeps the store consistent |
| Accounts.ReplaceRowKeepsRowsIndexed | src/user_manager.rs:351-415 | replacing a row by one with the same username and email keeps every account indexed under both keys |
| Accounts.ReplaceRowKeepsLookupsExact | src/user_manager.rs:351-415 | replacing a row by one with the same username and email keeps every lookup entry leading to a row holding its key |
| Accounts.UpdatePreservesConsistency | src/user_manager.rs:351-415 | the profile, password and last-login UPDATEs of an existing account keep the store consistent |
| Accounts.ProfileStatement | src/user_manager.rs:370-381 | the profile UPDATE of a patched account is keyed by its id and stamped with its `updated_at` |
| Accounts.PatchedProfileReadBack | src/user_manager.rs:351-392 | writing a patched profile over a readable account reads back as the patch, with `updated_at` floored to the millisecond, and keeps the store consistent |
| Accounts.BlindUpdateOfAbsentUser | src/user_manager.rs:394-415 | a password or last-login update of an id with no account leaves a row that reads as `RowParseError`, so the store is no longer consistent |
| Accounts.DeleteUserStatements | src/user_manager.rs:430-433 | the delete batch is the username-lookup DELETE, the email-lookup DELETE and the account-row DELETE, none of them conditional |
| Accounts.DeleteBatchOutcome | src/user_manager.rs:430-435 | the delete batch is always applied and removes exactly its three rows |
| Accounts.DeleteKeepsRowsIndexed | src/user_manager.rs:430-435 | removing an account and its two lookup entries keeps every other account indexed |
| Accounts.DeleteKeepsLookupsExact | src/user_manager.rs:430-435 | removing an account and its two lookup entries leaves every other lookup entry leading to a row holding its key |
| Accounts.OrphanRowBlocksDelete | src/user_manager.rs:394-427 | the row a blind password or last-login update leaves for an absent id fails the delete's details read, so `delete_user` refuses it with `RowParseError` |
| Accounts.DeletePreservesConsistency | src/user_manager.rs:417-437 | deleting an account of a consistent store keeps it consistent, and nothing is found afterwards by its id, username or email |
| Accounts.UserManager.CreateUser | src/user_manager.rs:194-261 | success exactly when neither key is taken, returning the new account and writing the three rows; otherwise nothing changes and the error is `UsernameTaken` when the username is taken, else `EmailTaken`; a fresh id keeps a consistent store consistent |
| Accounts.UserManager.UpdateUserProfile | src/user_manager.rs:351-392 | no account gives `UserNotFound` and an unreadable row gives `RowParseError`, both writing nothing; otherwise returns the patched account, writes its profile and keeps the store consistent |
| Accounts.UserManager.UpdateUserPassword | src/user_manager.rs:394-407 | always `Ok`; writes the hash and `updated_at` whether or not the account exists, and an absent account's id then reads as `RowParseError` |
| Accounts.UserManager.UpdateLastLogin | src/user_manager.rs:409-415 | always `Ok`; writes `last_login_at` and `updated_at` from the same instant, with no existence check |
| Accounts.UserManager.DeleteUser | src/user_manager.rs:417-437 | no row gives `UserNotFound` and an unreadable username or email gives `RowParseError`, both writing nothing; otherwise removes the two lookup rows named by the stored username and email and the account row |
| Repository.BatchOptionsFor | src/user/repository.rs:156-158 | the batch's own serial consistency when one is set, the default exactly when none is |
| Repository.UpdateWritesOnlyItsCells | src/user/repository.rs:200-213 | a direct UPDATE writes its assigned cells and changes no other cell, no other row and no lookup table |
| Repository.ProfileWriteNullsAbsentNames | src/user/repository.rs:200-203 | `update_profile_direct` stores a null name exactly when the argument is `None`, and the name reads back as given |
| Repository.LastLoginWriteIsIndependent | src/user/repository.rs:210-213 | `update_last_login_direct` stores the login time and `updated_at` independently, each floored to its millisecond |
| Repository.UserRepository.AddInsertUserToBatch | src/user/repository.rs:130-132 | appends exactly the canonical INSERT with its eleven values in column order |
| Repository.UserRepository.AddInsertUserByUsernameToBatch | src/user/repository.rs:134-136 | appends exactly the conditional username-lookup INSERT |
| Repository.UserRepository.AddInsertUserByEmailToBatch | src/user/repository.rs:138-140 | appends exactly the conditional email-lookup INSERT |
| Repository.UserRepository.AddDeleteUserByUsernameToBatch | src/user/repository.rs:142-144 | appends exactly the username-lookup DELETE |
| Repository.UserRepository.AddDeleteUserByEmailToBatch | src/user/repository.rs:146-148 | appends exactly the email-lookup DELETE |
| Repository.UserRepository.AddDeleteUserToBatch | src/user/repository.rs:150-152 | appends exactly the account-row DELETE |
| Repository.UserRepository.ExecuteBatch | src/user/repository.rs:156-158 | runs the batch as a logged batch and passes the batch's serial consistency, or the default when it has none |
| Repository.UserRepository.FindUserById | src/user/repository.rs:160-167 | the same read as `get_user_by_id`: an account exactly when the row exists and decodes |
| Repository.UserRepository.FindUserIdByUsername | src/user/repository.rs:169-177 | `Some` exactly when the username is a lookup key, holding the id it maps to |
| Repository.UserRepository.FindUserIdByEmail | src/user/repository.rs:179-187 | `Some` exactly when the email is a lookup key, holding the id it maps to |
| Repository.UserRepository.FindUserDetailsForDelete | src/user/repository.rs:189-196 | `Ok(None)` exactly when there is no row; otherwise the username and email cells, and for a readable account its username and email |
| Repository.UserRepository.UpdateProfileDirect | src/user/repository.rs:200-203 | writes the five profile columns of the id, with no existence check |
| Repository.UserRepository.UpdatePasswordDirect | src/user/repository.rs:205-208 | writes the hash and `updated_at` of the id, with no existence check |
| Repository.UserRepository.UpdateLastLoginDirect | src/user/repository.rs:210-213 | writes the login time and `updated_at`, given separately, with no existence check |
| Documents.TruncToMillis | src/document_service.rs:27-32 | the result is a whole millisecond, at most the instant and less than 1 ms below it |
| Documents.TruncIdempotent | src/document_service.rs:27-32 | truncating twice is truncating once |
| Documents.TruncFixedPoints | src/document_service.rs:140-141 | an instant is its own truncation exactly when it is a whole millisecond |
| Documents.TruncMonotone | src/document_service.rs:27-32 | truncation keeps the order of instants |
| Documents.GetDocumentMetadata | src/document_service.rs:124-147 | `None` exactly when there is no row; otherwise the row's id and name with both instants truncated |
| Documents.GetDocumentContent | src/document_service.rs:184-203 | `None` exactly when there is no row; otherwise the row's id and data with its instant truncated |
| Documents.GetDocument | src/document_service.rs:205-217 | `None` exactly when the metadata read is `None`; otherwise that metadata paired with the content read |
| Documents.ReadsAreExact | src/document_service.rs:140-141 | in well-formed tables every read returns the stored row unchanged |
| Documents.ContentImpliesDocument | src/document_service.rs:83-88 | in well-formed tables a document with content is found with that content |
| Documents.DocumentService.UpdateDocumentContent | src/document_service.rs:150-182 | succeeds exactly when the metadata exists; then it upserts the content with the data and sets both `updated_at` values to the same truncated instant; otherwise nothing changes; well-formed tables stay well-formed |
| Documents.DocumentService.CreateDocument | src/document_service.rs:96-122 | succeeds exactly when the id is new; returns metadata with the name and `created_at == updated_at == trunc(clock)`, and stores it with empty content stamped by the second clock reading |
| Documents.CreatedDocumentReadBack | src/document_service.rs:96-122 | after a creation the metadata reads back with the name and `created_at`, and the content is empty; the metadata equals the returned one exactly when both clock readings share a millisecond |
| Documents.UpdatedDocumentReadBack | src/document_service.rs:150-182 | after an update the document has the new data, one shared `updated_at`, and its earlier name and `created_at`; every other document reads as before |
| Documents.UpdatesKeepUpdatedAtOrdered | src/document_service.rs:150-182 | two updates with ordered clock readings never move `updated_at` backwards |

## Left out

- Driver and database failures are not modelled. This covers `QueryError`, `NewSessionError`,
  the sqlx errors behind `anyhow::Result`, and the `.expect` panic in `trunc_to_millis` for
  instants chrono cannot represent. Every modelled call either succeeds or fails for a reason
  the tables determine.
- Concurrency is not modelled. Operations run one at a time, so interleavings such as
  two concurrent `update_user_profile` calls are outside the model.
- Serial consistency has no effect in a sequential model. `SetSerialConsistency` and
  `BatchOptionsFor` record the choice only.
- Real Scylla refuses a conditional batch whose statements span several partitions or tables.
  The model instead assumes the all-or-nothing behaviour the account code expects.
- `Uuid::new_v4` and `Utc::now` are parameters. So nothing guarantees that a generated id is
  fresh; the id-collision cases are modelled as ordinary inputs.
- `TIMESTAMPTZ` keeps microseconds, and the document code writes only whole milliseconds.
  Document instants are stored as written, without a microsecond rounding step.
- `create_document` discards the result of its initial content write. In the model that write
  cannot fail, because the metadata row was written just before it.
- A lookup row whose `user_id` cell does not decode cannot arise here. The lookup tables map
  keys straight to ids, so the `RowParseError` branch of `get_user_id_by_username` and
  `get_user_id_by_email` is absent. `Repository.UserRepository.FindUserIdByUsername` and
  `Repository.UserRepository.FindUserIdByEmail` always succeed for the same reason.
- `InconsistentData`, `BatchOperationFailed`, `ExpectedRowNotFound`, `AccountNotActive` and
  `EmailNotVerified` are declared in `Errors` but no modelled operation returns them, as in
  the code.
- Schema creation (`DocumentService::initialize_schema` and the CQL DDL), the prepared-statement
  setup in `UserManager::new` and `UserRepository::new`, and `connect_to_db` are not
  modelled. They are I/O. The keyspace name is not modelled either.
- Driver calls are modelled by their evident intent, not by the exact driver API. Typed row
  decoding (`rows_typed::<User>()`) reads columns by name, although a positional `FromRow`
  derive over `SELECT *` would see the columns in the table's own order. Values are bound when
  `add_statement` is called. A batch's statements apply one after the other, the last write
  winning, whereas CQL gives every write of a batch one timestamp; the two account batches each
  touch three different tables, so the outcome is the same.
- The in-file test helper `TestUserManager` is not part of this model.
- `src/db.rs`, `src/scylla_connector.rs`, `src/http_server.rs` and the binaries are not part
  of this model.
