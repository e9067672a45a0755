/**
 * `UserRepository` of `user/repository.rs`: statement contributors that append to a caller's
 * batch, batch execution, the finders, and the direct UPDATE writes.
 */
module Repository {
  import opened Wrappers
  import opened Primitives
  import opened Models
  import opened Errors
  import opened Cql

  /** The second argument `execute_batch` hands to `Session::batch`: the default, or the
      batch's own serial consistency when one was set on it. */
  datatype BatchOptions = DefaultOptions | WithSerialConsistency(sc: SerialConsistency)

  function BatchOptionsFor(sc: Option<SerialConsistency>): (o: BatchOptions)
    ensures o == DefaultOptions <==> sc.None?
    ensures sc.Some? ==> o == WithSerialConsistency(sc.value)
  {
    match sc
    case Some(c) => WithSerialConsistency(c)
    case None => DefaultOptions
  }

  // ---------------------------------------------------------------------------------------
  // What the direct UPDATEs write
  // ---------------------------------------------------------------------------------------

  /** An UPDATE writes its assigned cells into the row of its id (creating the row when there
      is none) and changes no other cell, no other row and no lookup table. */
  lemma UpdateWritesOnlyItsCells(t: Tables, s: Stmt, c: Column, other: Uuid)
    requires s.UpdateUserProfile? || s.UpdateUserPassword? || s.UpdateLastLogin?
    ensures Apply(t, s).users.Keys == t.users.Keys + {s.userId}
    ensures c in Assignments(s) ==> Apply(t, s).users[s.userId][c] == Assignments(s)[c]
    ensures c !in Assignments(s) ==>
              (c in Apply(t, s).users[s.userId] <==> c in RowOrEmpty(t, s.userId))
              && (c in RowOrEmpty(t, s.userId) ==>
                    Apply(t, s).users[s.userId][c] == RowOrEmpty(t, s.userId)[c])
    ensures other != s.userId && other in t.users ==> Apply(t, s).users[other] == t.users[other]
    ensures Apply(t, s).usersByUsername == t.usersByUsername
    ensures Apply(t, s).usersByEmail == t.usersByEmail
  {
  }

  /** `update_profile_direct` writes an absent first or last name as null: the stored cell is
      null exactly when the argument is `None`, and the name reads back as given. */
  lemma ProfileWriteNullsAbsentNames(t: Tables, s: Stmt)
    requires s.UpdateUserProfile?
    ensures Apply(t, s).users[s.userId][FirstName] == Null <==> s.firstName.None?
    ensures Apply(t, s).users[s.userId][LastName] == Null <==> s.lastName.None?
    ensures NullableText(Apply(t, s).users[s.userId], FirstName) == Some(s.firstName)
    ensures NullableText(Apply(t, s).users[s.userId], LastName) == Some(s.lastName)
  {
    var row := Apply(t, s).users[s.userId];
    assert row[FirstName] == EncodeOptionalText(s.firstName);
    assert row[LastName] == EncodeOptionalText(s.lastName);
  }

  /** `update_last_login_direct` stores the login time and `updated_at` independently, each
      floored to its millisecond. */
  lemma LastLoginWriteIsIndependent(t: Tables, userId: Uuid, loginTime: Timestamp, updatedAt: Timestamp)
    ensures var row := Apply(t, Stmt.UpdateLastLogin(Some(loginTime), updatedAt, userId)).users[userId];
            && NullableTimestamp(row, LastLoginAt) == Some(Some(StoredTimestamp(loginTime)))
            && RequiredTimestamp(row, UpdatedAt) == Some(StoredTimestamp(updatedAt))
  {
    var row := Apply(t, Stmt.UpdateLastLogin(Some(loginTime), updatedAt, userId)).users[userId];
    assert row[LastLoginAt] == TimestampValue(TimestampMillis(loginTime));
    assert row[UpdatedAt] == TimestampValue(TimestampMillis(updatedAt));
  }

  /** `UserRepository`: the prepared statements over one session. */
  class UserRepository {
    const session: Session

    constructor (session: Session)
      ensures this.session == session
    {
      this.session := session;
    }

    // --- Contributors: each appends exactly one bound statement to the caller's batch ---

    /** The canonical INSERT, its eleven values bound in column order; `None` is bound as null. */
    method AddInsertUserToBatch(batch: Batch, userId: Uuid, username: string, email: string,
                                hashedPassword: string, firstName: Option<string>,
                                lastName: Option<string>, isActive: bool, emailVerified: bool,
                                createdAt: Timestamp, updatedAt: Timestamp,
                                lastLoginAt: Option<Timestamp>)
      modifies batch
      ensures batch.statements == old(batch.statements) +
                [InsertUser(userId, username, email, hashedPassword, firstName, lastName,
                            isActive, emailVerified, createdAt, updatedAt, lastLoginAt)]
      ensures batch.serialConsistency == old(batch.serialConsistency)
    {
      batch.AddStatement(InsertUser(userId, username, email, hashedPassword, firstName, lastName,
                                    isActive, emailVerified, createdAt, updatedAt, lastLoginAt));
    }

    method AddInsertUserByUsernameToBatch(batch: Batch, username: string, userId: Uuid)
      modifies batch
      ensures batch.statements == old(batch.statements) + [InsertUserByUsername(username, userId)]
      ensures batch.serialConsistency == old(batch.serialConsistency)
    {
      batch.AddStatement(InsertUserByUsername(username, userId));
    }

    method AddInsertUserByEmailToBatch(batch: Batch, email: string, userId: Uuid)
      modifies batch
      ensures batch.statements == old(batch.statements) + [InsertUserByEmail(email, userId)]
      ensures batch.serialConsistency == old(batch.serialConsistency)
    {
      batch.AddStatement(InsertUserByEmail(email, userId));
    }

    method AddDeleteUserByUsernameToBatch(batch: Batch, username: string)
      modifies batch
      ensures batch.statements == old(batch.statements) + [DeleteUserByUsername(username)]
      ensures batch.serialConsistency == old(batch.serialConsistency)
    {
      batch.AddStatement(DeleteUserByUsername(username));
    }

    method AddDeleteUserByEmailToBatch(batch: Batch, email: string)
      modifies batch
      ensures batch.statements == old(batch.statements) + [DeleteUserByEmail(email)]
      ensures batch.serialConsistency == old(batch.serialConsistency)
    {
      batch.AddStatement(DeleteUserByEmail(email));
    }

    method AddDeleteUserToBatch(batch: Batch, userId: Uuid)
      modifies batch
      ensures batch.statements == old(batch.statements) + [Stmt.DeleteUser(userId)]
      ensures batch.serialConsistency == old(batch.serialConsistency)
    {
      batch.AddStatement(Stmt.DeleteUser(userId));
    }

    // --- Execution ---

    /** `execute_batch`: runs the batch atomically, passing the batch's serial consistency when
        it has one and the default otherwise. */
    method ExecuteBatch(batch: Batch) returns (result: QueryResult, options: BatchOptions)
      modifies session
      ensures (session.State(), result.wasApplied) == ApplyBatch(old(session.State()), batch.statements)
      ensures options == BatchOptionsFor(batch.serialConsistency)
    {
      options := BatchOptionsFor(batch.serialConsistency);
      result := session.RunBatch(batch);
    }

    // --- Finders ---

    /** `find_user_by_id`: the canonical row read as a `User`. */
    method FindUserById(userId: Uuid) returns (r: Result<Option<User>, UserManagerError>)
      ensures match SelectUserById(session.State(), userId)
              case None => r == Success(None)
              case Some(Success(user)) => r == Success(Some(user))
              case Some(Failure(_)) => r == Failure(RowParseError)
      ensures r.Success? && r.value.Some? <==>
                userId in session.users && DecodeUser(userId, session.users[userId]).Success?
    {
      match SelectUserById(session.State(), userId)
      case Some(Success(user)) => r := Success(Some(user));
      case Some(Failure(_)) => r := Failure(RowParseError);
      case None => r := Success(None);
    }

    /** `find_user_id_by_username`: `Some` exactly when the username is a lookup key. */
    method FindUserIdByUsername(username: string) returns (r: Result<Option<Uuid>, UserManagerError>)
      ensures r.Success?
      ensures r.value.Some? <==> username in session.usersByUsername
      ensures r.value.Some? ==> r.value.value == session.usersByUsername[username]
    {
      r := Success(SelectUserIdByUsername(session.State(), username));
    }

    /** `find_user_id_by_email`: `Some` exactly when the email is a lookup key. */
    method FindUserIdByEmail(email: string) returns (r: Result<Option<Uuid>, UserManagerError>)
      ensures r.Success?
      ensures r.value.Some? <==> email in session.usersByEmail
      ensures r.value.Some? ==> r.value.value == session.usersByEmail[email]
    {
      r := Success(SelectUserIdByEmail(session.State(), email));
    }

    /** `find_user_details_for_delete`: the username and email held in the canonical row;
        `None` when there is no row, `RowParseError` when either cell is missing. */
    method FindUserDetailsForDelete(userId: Uuid) returns (r: Result<Option<(string, string)>, UserManagerError>)
      ensures r == Success(None) <==> userId !in session.users
      ensures r.Success? && r.value.Some? ==>
                userId in session.users
                && RequiredText(session.users[userId], Username) == Some(r.value.value.0)
                && RequiredText(session.users[userId], Email) == Some(r.value.value.1)
      ensures r.Failure? ==> r.error == RowParseError
      ensures userId in session.users && DecodeUser(userId, session.users[userId]).Success? ==>
                var u := DecodeUser(userId, session.users[userId]).value;
                r == Success(Some((u.username, u.email)))
    {
      match SelectUserDetails(session.State(), userId)
      case Some(Success(details)) => r := Success(Some(details));
      case Some(Failure(_)) => r := Failure(RowParseError);
      case None => r := Success(None);
    }

    // --- Direct writes: unconditional UPDATEs, whether or not the account exists ---

    /** `update_profile_direct`: writes all five profile columns; a `None` name is written as null. */
    method UpdateProfileDirect(userId: Uuid, firstName: Option<string>, lastName: Option<string>,
                               isActive: bool, emailVerified: bool, updatedAt: Timestamp)
      returns (r: Result<(), UserManagerError>)
      modifies session
      ensures r == Success(())
      ensures session.State() == Apply(old(session.State()),
                Stmt.UpdateUserProfile(firstName, lastName, isActive, emailVerified, updatedAt, userId))
    {
      session.Execute(Stmt.UpdateUserProfile(firstName, lastName, isActive, emailVerified, updatedAt, userId));
      r := Success(());
    }

    /** `update_password_direct`: writes the hash and `updated_at`. */
    method UpdatePasswordDirect(userId: Uuid, newHashedPassword: string, updatedAt: Timestamp)
      returns (r: Result<(), UserManagerError>)
      modifies session
      ensures r == Success(())
      ensures session.State() == Apply(old(session.State()),
                Stmt.UpdateUserPassword(newHashedPassword, updatedAt, userId))
    {
      session.Execute(Stmt.UpdateUserPassword(newHashedPassword, updatedAt, userId));
      r := Success(());
    }

    /** `update_last_login_direct`: writes the login time and `updated_at`, given separately. */
    method UpdateLastLoginDirect(userId: Uuid, loginTime: Timestamp, updatedAt: Timestamp)
      returns (r: Result<(), UserManagerError>)
      modifies session
      ensures r == Success(())
      ensures session.State() == Apply(old(session.State()),
                Stmt.UpdateLastLogin(Some(loginTime), updatedAt, userId))
    {
      session.Execute(Stmt.UpdateLastLogin(Some(loginTime), updatedAt, userId));
      r := Success(());
    }
  }
}
