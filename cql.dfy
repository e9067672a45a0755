/**
 * The wide-column store behind the account service, as the account code uses it: the three
 * tables of the keyspace, the prepared statements with their bound values, what each statement
 * does to the tables, all-or-nothing batches with `IF NOT EXISTS` conditions, and the typed
 * decoding of a `users` row into a `User`.
 */
module Cql {
  import opened Wrappers
  import opened Primitives
  import opened Models

  /** The non-key columns of the `users` table (the key is `user_id`). */
  datatype Column =
    | Username | Email | HashedPassword | FirstName | LastName
    | IsActive | EmailVerified | CreatedAt | UpdatedAt | LastLoginAt

  /** A stored cell. A `timestamp` cell holds whole milliseconds since the epoch. */
  datatype Value =
    | Null
    | TextValue(text: string)
    | BooleanValue(flag: bool)
    | TimestampValue(millis: int)

  /** A `users` row: a missing column reads as null. */
  type Row = map<Column, Value>

  /** The keyspace: `users`, `users_by_username` and `users_by_email`, each keyed by its partition key. */
  datatype Tables = Tables(
    users: map<Uuid, Row>,
    usersByUsername: map<string, Uuid>,
    usersByEmail: map<string, Uuid>)

  /**
   * The prepared statements of the account tables, each with its bound values in the order
   * of its bind markers.
   */
  datatype Stmt =
      /** INSERT INTO users (user_id, username, email, hashed_password, first_name, last_name,
          is_active, email_verified, created_at, updated_at, last_login_at) VALUES (?, ..., ?) */
    | InsertUser(userId: Uuid, username: string, email: string, hashedPassword: string,
                 firstName: Option<string>, lastName: Option<string>, isActive: bool,
                 emailVerified: bool, createdAt: Timestamp, updatedAt: Timestamp,
                 lastLoginAt: Option<Timestamp>)
      /** INSERT INTO users_by_username (username, user_id) VALUES (?, ?) IF NOT EXISTS */
    | InsertUserByUsername(username: string, userId: Uuid)
      /** INSERT INTO users_by_email (email, user_id) VALUES (?, ?) IF NOT EXISTS */
    | InsertUserByEmail(email: string, userId: Uuid)
      /** UPDATE users SET first_name = ?, last_name = ?, is_active = ?, email_verified = ?,
          updated_at = ? WHERE user_id = ? */
    | UpdateUserProfile(firstName: Option<string>, lastName: Option<string>, isActive: bool,
                        emailVerified: bool, updatedAt: Timestamp, userId: Uuid)
      /** UPDATE users SET hashed_password = ?, updated_at = ? WHERE user_id = ? */
    | UpdateUserPassword(hashedPassword: string, updatedAt: Timestamp, userId: Uuid)
      /** UPDATE users SET last_login_at = ?, updated_at = ? WHERE user_id = ? */
    | UpdateLastLogin(lastLoginAt: Option<Timestamp>, updatedAt: Timestamp, userId: Uuid)
      /** DELETE FROM users_by_username WHERE username = ? */
    | DeleteUserByUsername(username: string)
      /** DELETE FROM users_by_email WHERE email = ? */
    | DeleteUserByEmail(email: string)
      /** DELETE FROM users WHERE user_id = ? */
    | DeleteUser(userId: Uuid)

  // ---------------------------------------------------------------------------------------
  // Binding Rust values to cells, and reading them back
  // ---------------------------------------------------------------------------------------

  /** The driver's `Timestamp(DateTime)` is sent as `timestamp_millis()`. */
  function EncodeTimestamp(t: Timestamp): Value {
    TimestampValue(TimestampMillis(t))
  }

  /** `None` is bound as null. */
  function EncodeOptionalTimestamp(t: Option<Timestamp>): Value {
    match t
    case None => Null
    case Some(instant) => EncodeTimestamp(instant)
  }

  /** `None` is bound as null. */
  function EncodeOptionalText(s: Option<string>): Value {
    match s
    case None => Null
    case Some(text) => TextValue(text)
  }

  /** The instant a `timestamp` column gives back for `t`: `t` floored to its millisecond. */
  function StoredTimestamp(t: Timestamp): (r: Timestamp)
    ensures r <= t < r + NanosPerMilli
    ensures r % NanosPerMilli == 0
    ensures r == t <==> t % NanosPerMilli == 0
  {
    FromTimestampMillis(TimestampMillis(t))
  }

  /** A user as it reads back from the `users` row its fields were written to. */
  function Persisted(u: User): User {
    u.(lastLoginAt := if u.lastLoginAt.Some? then Some(StoredTimestamp(u.lastLoginAt.value)) else None,
       createdAt := StoredTimestamp(u.createdAt),
       updatedAt := StoredTimestamp(u.updatedAt))
  }

  /** Reading back a user that was itself read from a row changes nothing. */
  lemma PersistedIdempotent(u: User)
    ensures Persisted(Persisted(u)) == Persisted(u)
  {
  }

  /** The INSERT statement that writes every field of `u`, in the column list's order. */
  function InsertStatementFor(u: User): (s: Stmt)
    ensures s.InsertUser? && s.userId == u.userId
  {
    InsertUser(u.userId, u.username, u.email, u.hashedPassword, u.firstName, u.lastName,
               u.isActive, u.emailVerified, u.createdAt, u.updatedAt, u.lastLoginAt)
  }

  /** The row an `InsertUser` statement writes: every column, `None` values as null. */
  function InsertedRow(s: Stmt): (row: Row)
    requires s.InsertUser?
    ensures row.Keys == {Username, Email, HashedPassword, FirstName, LastName, IsActive,
                         EmailVerified, CreatedAt, UpdatedAt, LastLoginAt}
    ensures row[LastLoginAt] == Null <==> s.lastLoginAt.None?
    ensures row[FirstName] == Null <==> s.firstName.None?
    ensures row[LastName] == Null <==> s.lastName.None?
  {
    map[Username := TextValue(s.username),
        Email := TextValue(s.email),
        HashedPassword := TextValue(s.hashedPassword),
        FirstName := EncodeOptionalText(s.firstName),
        LastName := EncodeOptionalText(s.lastName),
        IsActive := BooleanValue(s.isActive),
        EmailVerified := BooleanValue(s.emailVerified),
        CreatedAt := EncodeTimestamp(s.createdAt),
        UpdatedAt := EncodeTimestamp(s.updatedAt),
        LastLoginAt := EncodeOptionalTimestamp(s.lastLoginAt)]
  }

  /** The failure of a typed row conversion: a cell is null or of the wrong type. */
  datatype FromRowError = FromRowError

  function RequiredText(row: Row, c: Column): Option<string> {
    if c in row && row[c].TextValue? then Some(row[c].text) else None
  }

  function NullableText(row: Row, c: Column): Option<Option<string>> {
    if c !in row || row[c].Null? then Some(None)
    else if row[c].TextValue? then Some(Some(row[c].text))
    else None
  }

  function RequiredBoolean(row: Row, c: Column): Option<bool> {
    if c in row && row[c].BooleanValue? then Some(row[c].flag) else None
  }

  function RequiredTimestamp(row: Row, c: Column): Option<Timestamp> {
    if c in row && row[c].TimestampValue? then Some(FromTimestampMillis(row[c].millis)) else None
  }

  function NullableTimestamp(row: Row, c: Column): Option<Option<Timestamp>> {
    if c !in row || row[c].Null? then Some(None)
    else if row[c].TimestampValue? then Some(Some(FromTimestampMillis(row[c].millis)))
    else None
  }

  /**
   * `rows_typed::<User>()` on a `users` row keyed by `userId`: every non-optional field needs a
   * cell of its type; an optional field reads null as `None`.
   */
  function DecodeUser(userId: Uuid, row: Row): (r: Result<User, FromRowError>)
    ensures r.Success? ==> r.value.userId == userId
    ensures r.Success? ==> (RequiredText(row, Username) == Some(r.value.username)
                            && RequiredText(row, Email) == Some(r.value.email))
  {
    match (RequiredText(row, Username), RequiredText(row, Email), RequiredText(row, HashedPassword),
           NullableText(row, FirstName), NullableText(row, LastName),
           RequiredBoolean(row, IsActive), RequiredBoolean(row, EmailVerified),
           NullableTimestamp(row, LastLoginAt),
           RequiredTimestamp(row, CreatedAt), RequiredTimestamp(row, UpdatedAt))
    case (Some(username), Some(email), Some(hash), Some(first), Some(last), Some(active),
          Some(verified), Some(lastLogin), Some(created), Some(updated)) =>
      Success(User(userId, username, email, hash, first, last, active, verified,
                   lastLogin, created, updated))
    case _ => Failure(FromRowError)
  }

  /** The cells a row must hold to read as `u`: the two directions of `DecodeUser`. */
  predicate HoldsUser(row: Row, u: User) {
    && RequiredText(row, Username) == Some(u.username)
    && RequiredText(row, Email) == Some(u.email)
    && RequiredText(row, HashedPassword) == Some(u.hashedPassword)
    && NullableText(row, FirstName) == Some(u.firstName)
    && NullableText(row, LastName) == Some(u.lastName)
    && RequiredBoolean(row, IsActive) == Some(u.isActive)
    && RequiredBoolean(row, EmailVerified) == Some(u.emailVerified)
    && NullableTimestamp(row, LastLoginAt) == Some(u.lastLoginAt)
    && RequiredTimestamp(row, CreatedAt) == Some(u.createdAt)
    && RequiredTimestamp(row, UpdatedAt) == Some(u.updatedAt)
  }

  /** A row reads as `u` exactly when it holds `u`'s cells. */
  lemma DecodeUserCells(row: Row, u: User)
    ensures DecodeUser(u.userId, row) == Success(u) <==> HoldsUser(row, u)
  {
  }

  /** A user read from a row already has whole-millisecond timestamps: storing it again
      changes nothing. */
  lemma DecodedUserIsPersisted(userId: Uuid, row: Row)
    requires DecodeUser(userId, row).Success?
    ensures Persisted(DecodeUser(userId, row).value) == DecodeUser(userId, row).value
  {
    var u := DecodeUser(userId, row).value;
    DecodeUserCells(row, u);
  }

  /** Writing a user with the INSERT statement and reading the row back gives it with its
      timestamps floored to the millisecond. */
  lemma InsertedRowDecodes(u: User)
    ensures DecodeUser(u.userId, InsertedRow(InsertStatementFor(u))) == Success(Persisted(u))
  {
    var row := InsertedRow(InsertStatementFor(u));
    assert NullableText(row, FirstName) == Some(u.firstName);
    assert NullableText(row, LastName) == Some(u.lastName);
    assert NullableTimestamp(row, LastLoginAt) == Some(Persisted(u).lastLoginAt);
  }

  // ---------------------------------------------------------------------------------------
  // What a statement does to the tables
  // ---------------------------------------------------------------------------------------

  /** The current row of `userId`, or the empty row an UPDATE starts from when there is none. */
  function RowOrEmpty(t: Tables, userId: Uuid): Row {
    if userId in t.users then t.users[userId] else map[]
  }

  /** The cells an UPDATE statement assigns. */
  function Assignments(s: Stmt): Row
    requires s.UpdateUserProfile? || s.UpdateUserPassword? || s.UpdateLastLogin?
  {
    match s
    case UpdateUserProfile(firstName, lastName, isActive, emailVerified, updatedAt, _) =>
      map[FirstName := EncodeOptionalText(firstName), LastName := EncodeOptionalText(lastName),
          IsActive := BooleanValue(isActive), EmailVerified := BooleanValue(emailVerified),
          UpdatedAt := EncodeTimestamp(updatedAt)]
    case UpdateUserPassword(hashedPassword, updatedAt, _) =>
      map[HashedPassword := TextValue(hashedPassword), UpdatedAt := EncodeTimestamp(updatedAt)]
    case UpdateLastLogin(lastLoginAt, updatedAt, _) =>
      map[LastLoginAt := EncodeOptionalTimestamp(lastLoginAt), UpdatedAt := EncodeTimestamp(updatedAt)]
  }

  /**
   * One statement applied to the tables. An INSERT replaces the whole row; an `IF NOT EXISTS`
   * insert writes only when its key is absent; an UPDATE without a condition writes its cells
   * whether or not the row exists (CQL upsert); a DELETE removes the row.
   */
  function Apply(t: Tables, s: Stmt): (r: Tables)
    ensures r.users == t.users
            || ((s.InsertUser? || s.UpdateUserProfile? || s.UpdateUserPassword? || s.UpdateLastLogin?
                 || s.DeleteUser?) && r.users - {s.userId} == t.users - {s.userId})
    ensures r.usersByUsername == t.usersByUsername
            || s.InsertUserByUsername? || s.DeleteUserByUsername?
    ensures r.usersByEmail == t.usersByEmail
            || s.InsertUserByEmail? || s.DeleteUserByEmail?
    ensures s.InsertUserByUsername? && s.username in t.usersByUsername ==> r == t
    ensures s.InsertUserByEmail? && s.email in t.usersByEmail ==> r == t
  {
    match s
    case InsertUser(userId, _, _, _, _, _, _, _, _, _, _) =>
      t.(users := t.users[userId := InsertedRow(s)])
    case InsertUserByUsername(username, userId) =>
      if username in t.usersByUsername then t
      else t.(usersByUsername := t.usersByUsername[username := userId])
    case InsertUserByEmail(email, userId) =>
      if email in t.usersByEmail then t
      else t.(usersByEmail := t.usersByEmail[email := userId])
    case UpdateUserProfile(_, _, _, _, _, userId) =>
      t.(users := t.users[userId := RowOrEmpty(t, userId) + Assignments(s)])
    case UpdateUserPassword(_, _, userId) =>
      t.(users := t.users[userId := RowOrEmpty(t, userId) + Assignments(s)])
    case UpdateLastLogin(_, _, userId) =>
      t.(users := t.users[userId := RowOrEmpty(t, userId) + Assignments(s)])
    case DeleteUserByUsername(username) =>
      t.(usersByUsername := t.usersByUsername - {username})
    case DeleteUserByEmail(email) =>
      t.(usersByEmail := t.usersByEmail - {email})
    case DeleteUser(userId) =>
      t.(users := t.users - {userId})
  }

  /** An `IF NOT EXISTS` lookup insert writes its entry exactly when the key is absent, and
      leaves an existing entry, and every other table, as they were. */
  lemma ConditionalInsertWritesOnlyWhenAbsent(t: Tables, key: string, userId: Uuid)
    ensures Apply(t, InsertUserByUsername(key, userId)).usersByUsername
            == if key in t.usersByUsername then t.usersByUsername else t.usersByUsername[key := userId]
    ensures Apply(t, InsertUserByEmail(key, userId)).usersByEmail
            == if key in t.usersByEmail then t.usersByEmail else t.usersByEmail[key := userId]
    ensures Apply(t, InsertUserByUsername(key, userId)).users == t.users
    ensures Apply(t, InsertUserByUsername(key, userId)).usersByEmail == t.usersByEmail
    ensures Apply(t, InsertUserByEmail(key, userId)).users == t.users
    ensures Apply(t, InsertUserByEmail(key, userId)).usersByUsername == t.usersByUsername
  {
  }

  /** The lightweight-transaction condition of a statement, read on the tables before the batch. */
  predicate ConditionHolds(t: Tables, s: Stmt) {
    match s
    case InsertUserByUsername(username, _) => username !in t.usersByUsername
    case InsertUserByEmail(email, _) => email !in t.usersByEmail
    case _ => true
  }

  /** The statements of a batch applied one after another, in order. */
  function ApplyAll(t: Tables, stmts: seq<Stmt>): Tables
    decreases |stmts|
  {
    if stmts == [] then t else ApplyAll(Apply(t, stmts[0]), stmts[1..])
  }

  /**
   * A logged batch: when every condition holds on the tables as they were before the batch,
   * all statements apply and the batch reports applied; otherwise none applies. This is the
   * all-or-nothing behaviour the account code relies on, taken as the store's semantics.
   */
  function ApplyBatch(t: Tables, stmts: seq<Stmt>): (r: (Tables, bool))
    ensures r.1 <==> forall i | 0 <= i < |stmts| :: ConditionHolds(t, stmts[i])
    ensures r.0 == if r.1 then ApplyAll(t, stmts) else t
  {
    if forall i | 0 <= i < |stmts| :: ConditionHolds(t, stmts[i])
    then (ApplyAll(t, stmts), true)
    else (t, false)
  }

  /** Running a batch extended by more statements is running the first part, then the rest. */
  lemma {:induction false} ApplyAllAppend(t: Tables, first: seq<Stmt>, rest: seq<Stmt>)
    ensures ApplyAll(t, first + rest) == ApplyAll(ApplyAll(t, first), rest)
    decreases |first|
  {
    if first != [] {
      assert (first + rest)[1..] == first[1..] + rest;
      ApplyAllAppend(Apply(t, first[0]), first[1..], rest);
    } else {
      assert first + rest == rest;
    }
  }

  /** Three statements run as a batch are the three applied one after the other. */
  lemma ApplyAllThree(t: Tables, a: Stmt, b: Stmt, c: Stmt)
    ensures ApplyAll(t, [a, b, c]) == Apply(Apply(Apply(t, a), b), c)
  {
    assert [a, b, c] == [a] + [b] + [c];
    ApplyAllAppend(t, [a] + [b], [c]);
    ApplyAllAppend(t, [a], [b]);
    ApplyAllOne(t, a);
    ApplyAllOne(Apply(t, a), b);
    ApplyAllOne(Apply(Apply(t, a), b), c);
  }

  /** A one-statement batch is that statement applied. */
  lemma ApplyAllOne(t: Tables, s: Stmt)
    ensures ApplyAll(t, [s]) == Apply(t, s)
  {
    assert [s][1..] == [];
  }

  /** A batch with no conditional statement is always applied, whatever the tables hold. */
  lemma UnconditionalBatchApplies(t: Tables, stmts: seq<Stmt>)
    requires forall i | 0 <= i < |stmts| ::
               !stmts[i].InsertUserByUsername? && !stmts[i].InsertUserByEmail?
    ensures ApplyBatch(t, stmts) == (ApplyAll(t, stmts), true)
  {
  }

  /** A batch that is not applied leaves every table as it was. */
  lemma RejectedBatchChangesNothing(t: Tables, stmts: seq<Stmt>)
    ensures !ApplyBatch(t, stmts).1 ==> ApplyBatch(t, stmts).0 == t
    ensures !ApplyBatch(t, stmts).1 <==> exists i | 0 <= i < |stmts| :: !ConditionHolds(t, stmts[i])
  {
  }

  // ---------------------------------------------------------------------------------------
  // Effects of the UPDATE statements on a row
  // ---------------------------------------------------------------------------------------

  /** The user a profile UPDATE leaves in a row that held `u`. */
  function ProfileUpdated(u: User, s: Stmt): User
    requires s.UpdateUserProfile?
  {
    u.(firstName := s.firstName, lastName := s.lastName, isActive := s.isActive,
       emailVerified := s.emailVerified, updatedAt := StoredTimestamp(s.updatedAt))
  }

  /** The five assigned cells, laid over a row holding `u`, hold the profile-updated user. */
  lemma ProfileAssignmentCells(row: Row, u: User, s: Stmt)
    requires s.UpdateUserProfile? && HoldsUser(row, u)
    ensures HoldsUser(row + Assignments(s), ProfileUpdated(u, s))
  {
    ProfileKeepsOtherCells(row, s);
    ProfileWritesItsCells(row, s);
  }

  /** A profile UPDATE leaves the identity, password and timestamp cells other than
      `updated_at` as they were. */
  lemma ProfileKeepsOtherCells(row: Row, s: Stmt)
    requires s.UpdateUserProfile?
    ensures RequiredText(row + Assignments(s), Username) == RequiredText(row, Username)
    ensures RequiredText(row + Assignments(s), Email) == RequiredText(row, Email)
    ensures RequiredText(row + Assignments(s), HashedPassword) == RequiredText(row, HashedPassword)
    ensures NullableTimestamp(row + Assignments(s), LastLoginAt) == NullableTimestamp(row, LastLoginAt)
    ensures RequiredTimestamp(row + Assignments(s), CreatedAt) == RequiredTimestamp(row, CreatedAt)
  {
  }

  /** A profile UPDATE's five cells read back as the values it binds; a `None` name as null. */
  lemma ProfileWritesItsCells(row: Row, s: Stmt)
    requires s.UpdateUserProfile?
    ensures NullableText(row + Assignments(s), FirstName) == Some(s.firstName)
    ensures NullableText(row + Assignments(s), LastName) == Some(s.lastName)
    ensures RequiredBoolean(row + Assignments(s), IsActive) == Some(s.isActive)
    ensures RequiredBoolean(row + Assignments(s), EmailVerified) == Some(s.emailVerified)
    ensures RequiredTimestamp(row + Assignments(s), UpdatedAt) == Some(StoredTimestamp(s.updatedAt))
  {
    var row' := row + Assignments(s);
    assert NullableText(row', FirstName) == Some(s.firstName);
    assert NullableText(row', LastName) == Some(s.lastName);
  }

  /** The profile UPDATE on a readable row changes exactly the five assigned fields; a `None`
      name is written as null, not kept. */
  lemma UpdateProfileOnRow(t: Tables, s: Stmt, u: User)
    requires s.UpdateUserProfile?
    requires s.userId in t.users && DecodeUser(s.userId, t.users[s.userId]) == Success(u)
    ensures DecodeUser(s.userId, Apply(t, s).users[s.userId])
            == Success(u.(firstName := s.firstName, lastName := s.lastName,
                          isActive := s.isActive, emailVerified := s.emailVerified,
                          updatedAt := StoredTimestamp(s.updatedAt)))
    ensures Apply(t, s).users == t.users[s.userId := Apply(t, s).users[s.userId]]
    ensures Apply(t, s).usersByUsername == t.usersByUsername
    ensures Apply(t, s).usersByEmail == t.usersByEmail
  {
    var row := t.users[s.userId];
    assert Apply(t, s).users[s.userId] == row + Assignments(s);
    DecodeUserCells(row, u);
    ProfileAssignmentCells(row, u, s);
    DecodeUserCells(row + Assignments(s), ProfileUpdated(u, s));
  }

  /** Writing the hash and `updated_at` cells over a row holding `u` gives a row holding `u`
      with those two fields replaced. */
  lemma PasswordCells(row: Row, u: User, hashedPassword: string, updatedAt: Timestamp)
    requires HoldsUser(row, u)
    ensures HoldsUser(row[HashedPassword := TextValue(hashedPassword)][UpdatedAt := EncodeTimestamp(updatedAt)],
                      u.(hashedPassword := hashedPassword, updatedAt := StoredTimestamp(updatedAt)))
  {
  }

  /** Writing the last-login and `updated_at` cells over a row holding `u` gives a row holding
      `u` with those two fields replaced. */
  lemma LastLoginCells(row: Row, u: User, login: Timestamp, updatedAt: Timestamp)
    requires HoldsUser(row, u)
    ensures HoldsUser(row[LastLoginAt := EncodeTimestamp(login)][UpdatedAt := EncodeTimestamp(updatedAt)],
                      u.(lastLoginAt := Some(StoredTimestamp(login)), updatedAt := StoredTimestamp(updatedAt)))
  {
    var row' := row[LastLoginAt := EncodeTimestamp(login)][UpdatedAt := EncodeTimestamp(updatedAt)];
    assert NullableTimestamp(row', LastLoginAt) == Some(Some(StoredTimestamp(login)));
  }

  /** The password UPDATE on a readable row changes only the password and `updated_at`. */
  lemma UpdatePasswordOnRow(t: Tables, s: Stmt, u: User)
    requires s.UpdateUserPassword?
    requires s.userId in t.users && DecodeUser(s.userId, t.users[s.userId]) == Success(u)
    ensures DecodeUser(s.userId, Apply(t, s).users[s.userId])
            == Success(u.(hashedPassword := s.hashedPassword, updatedAt := StoredTimestamp(s.updatedAt)))
    ensures Apply(t, s).users == t.users[s.userId := Apply(t, s).users[s.userId]]
    ensures Apply(t, s).usersByUsername == t.usersByUsername
    ensures Apply(t, s).usersByEmail == t.usersByEmail
  {
    var row := t.users[s.userId];
    var u' := u.(hashedPassword := s.hashedPassword, updatedAt := StoredTimestamp(s.updatedAt));
    var row' := row[HashedPassword := TextValue(s.hashedPassword)][UpdatedAt := EncodeTimestamp(s.updatedAt)];
    assert Apply(t, s).users[s.userId] == row';
    DecodeUserCells(row, u);
    PasswordCells(row, u, s.hashedPassword, s.updatedAt);
    DecodeUserCells(row', u');
  }

  /** The last-login UPDATE on a readable row changes only `last_login_at` and `updated_at`;
      the two instants are bound independently. */
  lemma UpdateLastLoginOnRow(t: Tables, s: Stmt, u: User, login: Timestamp)
    requires s.UpdateLastLogin? && s.lastLoginAt == Some(login)
    requires s.userId in t.users && DecodeUser(s.userId, t.users[s.userId]) == Success(u)
    ensures DecodeUser(s.userId, Apply(t, s).users[s.userId])
            == Success(u.(lastLoginAt := Some(StoredTimestamp(login)),
                          updatedAt := StoredTimestamp(s.updatedAt)))
    ensures Apply(t, s).users == t.users[s.userId := Apply(t, s).users[s.userId]]
    ensures Apply(t, s).usersByUsername == t.usersByUsername
    ensures Apply(t, s).usersByEmail == t.usersByEmail
  {
    var row := t.users[s.userId];
    var u' := u.(lastLoginAt := Some(StoredTimestamp(login)), updatedAt := StoredTimestamp(s.updatedAt));
    var row' := row[LastLoginAt := EncodeTimestamp(login)][UpdatedAt := EncodeTimestamp(s.updatedAt)];
    assert Apply(t, s).users[s.userId] == row';
    DecodeUserCells(row, u);
    LastLoginCells(row, u, login, s.updatedAt);
    DecodeUserCells(row', u');
  }

  /** An UPDATE of an id with no row creates a row holding only the assigned cells, which
      has no username and so cannot be read as a `User`. */
  lemma UpdateOnAbsentRowIsUnreadable(t: Tables, s: Stmt)
    requires s.UpdateUserProfile? || s.UpdateUserPassword? || s.UpdateLastLogin?
    requires s.userId !in t.users
    ensures s.userId in Apply(t, s).users
    ensures DecodeUser(s.userId, Apply(t, s).users[s.userId]).Failure?
  {
    assert Username !in Apply(t, s).users[s.userId];
  }

  // ---------------------------------------------------------------------------------------
  // Reads
  // ---------------------------------------------------------------------------------------

  /** SELECT * FROM users WHERE user_id = ?, with `rows_typed::<User>().next()`. */
  function SelectUserById(t: Tables, userId: Uuid): (r: Option<Result<User, FromRowError>>)
    ensures r.None? <==> userId !in t.users
    ensures r.Some? && r.value.Success? ==>
              && r.value.value.userId == userId
              && RequiredText(t.users[userId], Username) == Some(r.value.value.username)
              && RequiredText(t.users[userId], Email) == Some(r.value.value.email)
  {
    if userId in t.users then Some(DecodeUser(userId, t.users[userId])) else None
  }

  /** SELECT username, email FROM users WHERE user_id = ?, with `rows_typed::<(String, String)>()`. */
  function SelectUserDetails(t: Tables, userId: Uuid): (r: Option<Result<(string, string), FromRowError>>)
    ensures r.None? <==> userId !in t.users
    ensures r.Some? ==>
              (r.value.Success? <==>
                 (RequiredText(t.users[userId], Username).Some? && RequiredText(t.users[userId], Email).Some?))
    ensures r.Some? && r.value.Success? ==>
              RequiredText(t.users[userId], Username) == Some(r.value.value.0)
              && RequiredText(t.users[userId], Email) == Some(r.value.value.1)
  {
    if userId !in t.users then None
    else match (RequiredText(t.users[userId], Username), RequiredText(t.users[userId], Email))
      case (Some(username), Some(email)) => Some(Success((username, email)))
      case _ => Some(Failure(FromRowError))
  }

  /** SELECT user_id FROM users_by_username WHERE username = ? */
  function SelectUserIdByUsername(t: Tables, username: string): (r: Option<Uuid>)
    ensures r.Some? <==> username in t.usersByUsername
    ensures r.Some? ==> t.usersByUsername[username] == r.value
  {
    if username in t.usersByUsername then Some(t.usersByUsername[username]) else None
  }

  /** SELECT user_id FROM users_by_email WHERE email = ? */
  function SelectUserIdByEmail(t: Tables, email: string): (r: Option<Uuid>)
    ensures r.Some? <==> email in t.usersByEmail
    ensures r.Some? ==> t.usersByEmail[email] == r.value
  {
    if email in t.usersByEmail then Some(t.usersByEmail[email]) else None
  }

  // ---------------------------------------------------------------------------------------
  // The session and the batch object
  // ---------------------------------------------------------------------------------------

  datatype SerialConsistency = Serial | LocalSerial

  /** What a batch execution reports. */
  datatype QueryResult = QueryResult(wasApplied: bool)

  /** A batch under construction: the bound statements in the order they were added. */
  class Batch {
    var statements: seq<Stmt>
    var serialConsistency: Option<SerialConsistency>

    /** `Batch::default()`: a logged batch with no statements. */
    constructor ()
      ensures statements == [] && serialConsistency == None
    {
      statements := [];
      serialConsistency := None;
    }

    /** `add_statement`: appends one bound statement at the end. */
    method AddStatement(s: Stmt)
      modifies this
      ensures statements == old(statements) + [s]
      ensures serialConsistency == old(serialConsistency)
    {
      statements := statements + [s];
    }

    /** `set_serial_consistency`: replaces the serial consistency and keeps the statements. */
    method SetSerialConsistency(sc: Option<SerialConsistency>)
      modifies this
      ensures serialConsistency == sc
      ensures statements == old(statements)
    {
      serialConsistency := sc;
    }
  }

  /** A session on the keyspace; its fields are the three tables. */
  class Session {
    var users: map<Uuid, Row>
    var usersByUsername: map<string, Uuid>
    var usersByEmail: map<string, Uuid>

    function State(): Tables
      reads this
    {
      Tables(users, usersByUsername, usersByEmail)
    }

    /** A session on an empty keyspace. */
    constructor ()
      ensures State() == Tables(map[], map[], map[])
    {
      users, usersByUsername, usersByEmail := map[], map[], map[];
    }

    /** `Session::batch`: runs the batch atomically and reports whether it was applied. */
    method RunBatch(batch: Batch) returns (result: QueryResult)
      modifies this
      ensures (State(), result.wasApplied) == ApplyBatch(old(State()), batch.statements)
    {
      var outcome := ApplyBatch(State(), batch.statements);
      users, usersByUsername, usersByEmail := outcome.0.users, outcome.0.usersByUsername, outcome.0.usersByEmail;
      result := QueryResult(outcome.1);
    }

    /** `Session::execute` of a single writing statement. */
    method Execute(s: Stmt)
      modifies this
      ensures State() == Apply(old(State()), s)
    {
      var next := Apply(State(), s);
      users, usersByUsername, usersByEmail := next.users, next.usersByUsername, next.usersByEmail;
    }
  }
}
