/**
 * The account service of `user_manager.rs`: uniqueness-preserving creation through one batch
 * of two `IF NOT EXISTS` lookup inserts and the canonical insert, two-hop reads, the
 * authentication lookup, field patches, blind overwrites and the three-row delete.
 */
module Accounts {
  import opened Wrappers
  import opened Primitives
  import opened Models
  import opened Errors
  import opened Cql

  // ---------------------------------------------------------------------------------------
  // Reads
  // ---------------------------------------------------------------------------------------

  /** `get_user_by_id`: the decoded canonical row, `None` when there is none. */
  function GetUserById(t: Tables, userId: Uuid): (r: Result<Option<User>, UserManagerError>)
    ensures r == Success(None) <==> userId !in t.users
    ensures r.Success? && r.value.Some? ==>
              userId in t.users && DecodeUser(userId, t.users[userId]) == Success(r.value.value)
    ensures r.Success? && r.value.Some? ==> r.value.value.userId == userId
    ensures r.Failure? <==> userId in t.users && DecodeUser(userId, t.users[userId]).Failure?
    ensures r.Failure? ==> r.error == RowParseError
  {
    match SelectUserById(t, userId)
    case Some(Success(user)) => Success(Some(user))
    case Some(Failure(_)) => Failure(RowParseError)
    case None => Success(None)
  }

  /** `get_user_by_username`: the username lookup, then the canonical row of the id it holds.
      A lookup entry whose canonical row is missing reads as `None`. */
  function GetUserByUsername(t: Tables, username: string): (r: Result<Option<User>, UserManagerError>)
    ensures username !in t.usersByUsername ==> r == Success(None)
    ensures username in t.usersByUsername ==> r == GetUserById(t, t.usersByUsername[username])
    ensures username in t.usersByUsername && t.usersByUsername[username] !in t.users ==>
              r == Success(None)
  {
    match SelectUserIdByUsername(t, username)
    case Some(userId) => GetUserById(t, userId)
    case None => Success(None)
  }

  /** `get_user_by_email`: the email lookup, then the canonical row of the id it holds. */
  function GetUserByEmail(t: Tables, email: string): (r: Result<Option<User>, UserManagerError>)
    ensures email !in t.usersByEmail ==> r == Success(None)
    ensures email in t.usersByEmail ==> r == GetUserById(t, t.usersByEmail[email])
    ensures email in t.usersByEmail && t.usersByEmail[email] !in t.users ==> r == Success(None)
  {
    match SelectUserIdByEmail(t, email)
    case Some(userId) => GetUserById(t, userId)
    case None => Success(None)
  }

  /** The projection of an account that authentication needs. */
  function AuthDetailsOf(u: User): (a: AuthDetails)
    ensures a.userId == u.userId && a.username == u.username && a.email == u.email
    ensures a.hashedPassword == u.hashedPassword
    ensures a.isActive == u.isActive && a.emailVerified == u.emailVerified
  {
    AuthDetails(u.userId, u.username, u.email, u.hashedPassword, u.isActive, u.emailVerified)
  }

  /**
   * `get_user_for_authentication`: an identifier containing '@' is looked up as an email,
   * any other as a username. A found account is projected to its `AuthDetails`; no account
   * is `UserNotFound`; a failed read is wrapped as `DatabaseError`.
   */
  function GetUserForAuthentication(t: Tables, identifier: string): (r: Result<AuthDetails, AuthenticationError>)
    ensures var lookup := if '@' in identifier then GetUserByEmail(t, identifier)
                          else GetUserByUsername(t, identifier);
            && (r.Success? <==> lookup.Success? && lookup.value.Some?)
            && (r.Success? ==>
                  && r.value.userId == lookup.value.value.userId
                  && r.value.username == lookup.value.value.username
                  && r.value.email == lookup.value.value.email
                  && r.value.hashedPassword == lookup.value.value.hashedPassword
                  && r.value.isActive == lookup.value.value.isActive
                  && r.value.emailVerified == lookup.value.value.emailVerified)
            && (r == Failure(AuthenticationError.UserNotFound) <==> lookup == Success(None))
            && (lookup.Failure? ==> r == Failure(DatabaseError(lookup.error)))
  {
    var user := if '@' in identifier then GetUserByEmail(t, identifier)
                else GetUserByUsername(t, identifier);
    match user
    case Failure(e) => Failure(DatabaseError(e))
    case Success(Some(u)) => Success(AuthDetailsOf(u))
    case Success(None) => Failure(AuthenticationError.UserNotFound)
  }

  // ---------------------------------------------------------------------------------------
  // The store's invariant: every row readable, both lookups exact
  // ---------------------------------------------------------------------------------------

  /** `key` is present and the lookup table sends it to `userId`. */
  predicate IndexedAt(lookup: map<string, Uuid>, key: Option<string>, userId: Uuid) {
    key.Some? && key.value in lookup && lookup[key.value] == userId
  }

  /** Every canonical row reads as a `User`. */
  ghost predicate RowsReadable(t: Tables) {
    forall id | id in t.users :: DecodeUser(id, t.users[id]).Success?
  }

  /** Each account's username and email are lookup keys that lead back to it. */
  ghost predicate RowsIndexed(t: Tables) {
    forall id | id in t.users ::
      && IndexedAt(t.usersByUsername, RequiredText(t.users[id], Username), id)
      && IndexedAt(t.usersByEmail, RequiredText(t.users[id], Email), id)
  }

  /** Every username lookup entry leads to a row holding that username. */
  ghost predicate UsernameLookupsExact(t: Tables) {
    forall name | name in t.usersByUsername ::
      && t.usersByUsername[name] in t.users
      && RequiredText(t.users[t.usersByUsername[name]], Username) == Some(name)
  }

  /** Every email lookup entry leads to a row holding that email. */
  ghost predicate EmailLookupsExact(t: Tables) {
    forall email | email in t.usersByEmail ::
      && t.usersByEmail[email] in t.users
      && RequiredText(t.users[t.usersByEmail[email]], Email) == Some(email)
  }

  /**
   * The store's invariant: every canonical row reads as a `User`, and the two lookup tables
   * are exact indexes of the accounts' usernames and emails.
   */
  ghost predicate Consistent(t: Tables) {
    RowsReadable(t) && RowsIndexed(t) && UsernameLookupsExact(t) && EmailLookupsExact(t)
  }

  /** In a consistent store two accounts never share a username or an email. */
  lemma ConsistentAccountsAreUnique(t: Tables, a: Uuid, b: Uuid)
    requires Consistent(t) && a in t.users && b in t.users && a != b
    ensures DecodeUser(a, t.users[a]).value.username != DecodeUser(b, t.users[b]).value.username
    ensures DecodeUser(a, t.users[a]).value.email != DecodeUser(b, t.users[b]).value.email
  {
    assert IndexedAt(t.usersByUsername, RequiredText(t.users[a], Username), a);
    assert IndexedAt(t.usersByUsername, RequiredText(t.users[b], Username), b);
    assert IndexedAt(t.usersByEmail, RequiredText(t.users[a], Email), a);
    assert IndexedAt(t.usersByEmail, RequiredText(t.users[b], Email), b);
  }

  /** In a consistent store each account is found by its username and by its email. */
  lemma ConsistentLookupsFindOwner(t: Tables, userId: Uuid)
    requires Consistent(t) && userId in t.users
    ensures var u := DecodeUser(userId, t.users[userId]).value;
            && GetUserByUsername(t, u.username) == Success(Some(u))
            && GetUserByEmail(t, u.email) == Success(Some(u))
  {
    assert IndexedAt(t.usersByUsername, RequiredText(t.users[userId], Username), userId);
    assert IndexedAt(t.usersByEmail, RequiredText(t.users[userId], Email), userId);
  }

  /** In a consistent store a lookup hit never dangles: it reads an account with that key. */
  lemma ConsistentLookupsNeverDangle(t: Tables, name: string)
    requires Consistent(t) && name in t.usersByUsername
    ensures GetUserByUsername(t, name).Success?
    ensures GetUserByUsername(t, name).value.Some?
    ensures GetUserByUsername(t, name).value.value.username == name
  {
    var id := t.usersByUsername[name];
    assert DecodeUser(id, t.users[id]).Success?;
  }

  /** For an account whose username has no '@' and whose email has one, authenticating with
      either identifier gives the same details, holding the stored password hash. */
  lemma AuthenticationByEitherIdentifier(t: Tables, userId: Uuid)
    requires Consistent(t) && userId in t.users
    requires var u := DecodeUser(userId, t.users[userId]).value; '@' !in u.username && '@' in u.email
    ensures var u := DecodeUser(userId, t.users[userId]).value;
            && GetUserForAuthentication(t, u.username) == Success(AuthDetailsOf(u))
            && GetUserForAuthentication(t, u.email) == Success(AuthDetailsOf(u))
            && AuthDetailsOf(u).hashedPassword == u.hashedPassword
  {
    ConsistentLookupsFindOwner(t, userId);
  }

  // ---------------------------------------------------------------------------------------
  // Creation
  // ---------------------------------------------------------------------------------------

  /** The account `create_user` builds: both timestamps `now`, never logged in. */
  function NewUser(userId: Uuid, username: string, email: string, hashedPassword: string,
                   firstName: Option<string>, lastName: Option<string>, isActive: bool,
                   emailVerified: bool, now: Timestamp): (u: User)
    ensures u.createdAt == u.updatedAt == now && u.lastLoginAt.None?
    ensures u.userId == userId && u.username == username && u.email == email
    ensures u.hashedPassword == hashedPassword && u.firstName == firstName && u.lastName == lastName
    ensures u.isActive == isActive && u.emailVerified == emailVerified
  {
    User(userId, username, email, hashedPassword, firstName, lastName, isActive, emailVerified,
         None, now, now)
  }

  /** The creation batch, in order: the username lookup, the email lookup, the canonical row. */
  function CreateUserStatements(u: User): (s: seq<Stmt>)
    ensures |s| == 3
    ensures s[0] == InsertUserByUsername(u.username, u.userId)
    ensures s[1] == InsertUserByEmail(u.email, u.userId)
    ensures s[2] == InsertStatementFor(u) && s[2].userId == u.userId
    ensures forall t: Tables :: ConditionHolds(t, s[2])
  {
    [InsertUserByUsername(u.username, u.userId), InsertUserByEmail(u.email, u.userId),
     InsertStatementFor(u)]
  }

  /** The tables after a creation batch for `u` was applied. */
  function Created(t: Tables, u: User): Tables {
    Tables(t.users[u.userId := InsertedRow(InsertStatementFor(u))],
           t.usersByUsername[u.username := u.userId],
           t.usersByEmail[u.email := u.userId])
  }

  /** The creation batch applies exactly when neither the username nor the email is a lookup
      key, and then writes the three rows; otherwise it writes nothing. */
  lemma CreateBatchOutcome(t: Tables, u: User)
    ensures ApplyBatch(t, CreateUserStatements(u)).1
            <==> u.username !in t.usersByUsername && u.email !in t.usersByEmail
    ensures ApplyBatch(t, CreateUserStatements(u)).0
            == if u.username !in t.usersByUsername && u.email !in t.usersByEmail
               then Created(t, u) else t
  {
    var stmts := CreateUserStatements(u);
    assert ConditionHolds(t, stmts[0]) <==> u.username !in t.usersByUsername;
    assert ConditionHolds(t, stmts[1]) <==> u.email !in t.usersByEmail;
    if u.username !in t.usersByUsername && u.email !in t.usersByEmail {
      ApplyAllThree(t, stmts[0], stmts[1], stmts[2]);
      assert stmts == [stmts[0], stmts[1], stmts[2]];
    }
  }

  /** After a creation, the account reads back by id, by username and by email, with its
      timestamps floored to the millisecond. */
  lemma CreatedUserReadBack(t: Tables, u: User)
    ensures GetUserById(Created(t, u), u.userId) == Success(Some(Persisted(u)))
    ensures GetUserByUsername(Created(t, u), u.username) == Success(Some(Persisted(u)))
    ensures GetUserByEmail(Created(t, u), u.email) == Success(Some(Persisted(u)))
  {
    InsertedRowDecodes(u);
  }

  /** The account `create_user` returns reads back unchanged exactly when `now` is a whole
      millisecond; the account code does not truncate its clock. */
  lemma NewUserReadsBackExactly(userId: Uuid, username: string, email: string, hashedPassword: string,
                                firstName: Option<string>, lastName: Option<string>, isActive: bool,
                                emailVerified: bool, now: Timestamp)
    ensures var u := NewUser(userId, username, email, hashedPassword, firstName, lastName,
                             isActive, emailVerified, now);
            Persisted(u) == u <==> now % NanosPerMilli == 0
  {
  }

  /** The canonical row a creation writes holds the account's username and email. */
  lemma CreatedRowKeys(u: User)
    ensures DecodeUser(u.userId, InsertedRow(InsertStatementFor(u))).Success?
    ensures RequiredText(InsertedRow(InsertStatementFor(u)), Username) == Some(u.username)
    ensures RequiredText(InsertedRow(InsertStatementFor(u)), Email) == Some(u.email)
  {
    InsertedRowDecodes(u);
  }

  /** A creation with a fresh id, username and email keeps the store consistent. */
  lemma CreatePreservesConsistency(t: Tables, u: User)
    requires Consistent(t)
    requires u.userId !in t.users && u.username !in t.usersByUsername && u.email !in t.usersByEmail
    ensures Consistent(Created(t, u))
  {
    CreatedRowKeys(u);
    CreateKeepsRowsIndexed(t, u);
    CreateKeepsLookupsExact(t, u);
  }

  /** After a creation every account, old or new, is indexed under its username and email. */
  lemma CreateKeepsRowsIndexed(t: Tables, u: User)
    requires RowsIndexed(t) && u.userId !in t.users
    requires u.username !in t.usersByUsername && u.email !in t.usersByEmail
    ensures RowsIndexed(Created(t, u))
  {
    var t' := Created(t, u);
    CreatedRowKeys(u);
    forall id | id in t'.users
      ensures IndexedAt(t'.usersByUsername, RequiredText(t'.users[id], Username), id)
      ensures IndexedAt(t'.usersByEmail, RequiredText(t'.users[id], Email), id)
    {
      if id != u.userId {
        assert IndexedAt(t.usersByUsername, RequiredText(t.users[id], Username), id);
        assert IndexedAt(t.usersByEmail, RequiredText(t.users[id], Email), id);
      }
    }
  }

  /** After a creation every lookup entry, old or new, leads to a row holding its key. */
  lemma CreateKeepsLookupsExact(t: Tables, u: User)
    requires UsernameLookupsExact(t) && EmailLookupsExact(t) && u.userId !in t.users
    ensures UsernameLookupsExact(Created(t, u)) && EmailLookupsExact(Created(t, u))
  {
    var t' := Created(t, u);
    CreatedRowKeys(u);
    forall name | name in t'.usersByUsername
      ensures t'.usersByUsername[name] in t'.users
      ensures RequiredText(t'.users[t'.usersByUsername[name]], Username) == Some(name)
    {
      if name != u.username {
        assert t.usersByUsername[name] in t.users;
      }
    }
    forall email | email in t'.usersByEmail
      ensures t'.usersByEmail[email] in t'.users
      ensures RequiredText(t'.users[t'.usersByEmail[email]], Email) == Some(email)
    {
      if email != u.email {
        assert t.usersByEmail[email] in t.users;
      }
    }
  }

  // ---------------------------------------------------------------------------------------
  // Updates
  // ---------------------------------------------------------------------------------------

  /** The overlay of `update_user_profile`: each given field replaces the current one, each
      absent field keeps it, and `updated_at` becomes `now`. */
  function PatchProfile(current: User, firstName: Option<string>, lastName: Option<string>,
                        isActive: Option<bool>, emailVerified: Option<bool>, now: Timestamp): (u: User)
    ensures u.firstName == if firstName.Some? then firstName else current.firstName
    ensures u.lastName == if lastName.Some? then lastName else current.lastName
    ensures u.isActive == if isActive.Some? then isActive.value else current.isActive
    ensures u.emailVerified == if emailVerified.Some? then emailVerified.value else current.emailVerified
    ensures u.updatedAt == now
    ensures u.userId == current.userId && u.username == current.username && u.email == current.email
    ensures u.hashedPassword == current.hashedPassword && u.createdAt == current.createdAt
    ensures u.lastLoginAt == current.lastLoginAt
  {
    current.(firstName := firstName.Or(current.firstName),
             lastName := lastName.Or(current.lastName),
             isActive := isActive.UnwrapOr(current.isActive),
             emailVerified := emailVerified.UnwrapOr(current.emailVerified),
             updatedAt := now)
  }

  /** Replacing an account's row by another readable row with the same username and email
      keeps the store consistent. */
  lemma ReplaceRowKeepsConsistency(t: Tables, id: Uuid, row: Row)
    requires Consistent(t) && id in t.users
    requires DecodeUser(id, row).Success?
    requires RequiredText(row, Username) == RequiredText(t.users[id], Username)
    requires RequiredText(row, Email) == RequiredText(t.users[id], Email)
    ensures Consistent(t.(users := t.users[id := row]))
  {
    ReplaceRowKeepsRowsIndexed(t, id, row);
    ReplaceRowKeepsLookupsExact(t, id, row);
  }

  /** Replacing a row by one with the same username and email keeps every account indexed. */
  lemma ReplaceRowKeepsRowsIndexed(t: Tables, id: Uuid, row: Row)
    requires RowsIndexed(t) && id in t.users
    requires RequiredText(row, Username) == RequiredText(t.users[id], Username)
    requires RequiredText(row, Email) == RequiredText(t.users[id], Email)
    ensures RowsIndexed(t.(users := t.users[id := row]))
  {
    var t' := t.(users := t.users[id := row]);
    forall other | other in t'.users
      ensures IndexedAt(t'.usersByUsername, RequiredText(t'.users[other], Username), other)
      ensures IndexedAt(t'.usersByEmail, RequiredText(t'.users[other], Email), other)
    {
      assert IndexedAt(t.usersByUsername, RequiredText(t.users[other], Username), other);
      assert IndexedAt(t.usersByEmail, RequiredText(t.users[other], Email), other);
    }
  }

  /** Replacing a row by one with the same username and email keeps both lookups exact. */
  lemma ReplaceRowKeepsLookupsExact(t: Tables, id: Uuid, row: Row)
    requires UsernameLookupsExact(t) && EmailLookupsExact(t) && id in t.users
    requires RequiredText(row, Username) == RequiredText(t.users[id], Username)
    requires RequiredText(row, Email) == RequiredText(t.users[id], Email)
    ensures UsernameLookupsExact(t.(users := t.users[id := row]))
    ensures EmailLookupsExact(t.(users := t.users[id := row]))
  {
  }

  /** An UPDATE of a readable row keeps the store consistent: none of them writes the
      username or email columns or a lookup table. */
  lemma UpdatePreservesConsistency(t: Tables, s: Stmt)
    requires Consistent(t)
    requires s.UpdateUserProfile? || s.UpdateUserPassword? || (s.UpdateLastLogin? && s.lastLoginAt.Some?)
    requires s.userId in t.users
    ensures Consistent(Apply(t, s))
  {
    var id := s.userId;
    var u := DecodeUser(id, t.users[id]).value;
    if s.UpdateUserProfile? {
      UpdateProfileOnRow(t, s, u);
    } else if s.UpdateUserPassword? {
      UpdatePasswordOnRow(t, s, u);
    } else {
      UpdateLastLoginOnRow(t, s, u, s.lastLoginAt.value);
    }
    var row := Apply(t, s).users[id];
    var u' := DecodeUser(id, row).value;
    assert u'.username == u.username && u'.email == u.email;
    assert RequiredText(row, Username) == RequiredText(t.users[id], Username);
    assert RequiredText(row, Email) == RequiredText(t.users[id], Email);
    assert Apply(t, s) == t.(users := t.users[id := row]);
    ReplaceRowKeepsConsistency(t, id, row);
  }

  /** The UPDATE `update_user_profile` issues for a patched account: its five profile columns. */
  function ProfileStatement(p: User): (s: Stmt)
    ensures s.UpdateUserProfile? && s.userId == p.userId && s.updatedAt == p.updatedAt
  {
    Stmt.UpdateUserProfile(p.firstName, p.lastName, p.isActive, p.emailVerified, p.updatedAt, p.userId)
  }

  /** Writing a patched profile over a readable account reads back as the patch, with
      `updated_at` floored to the millisecond, and keeps the store consistent. */
  lemma PatchedProfileReadBack(t: Tables, current: User, firstName: Option<string>,
                               lastName: Option<string>, isActive: Option<bool>,
                               emailVerified: Option<bool>, now: Timestamp)
    requires GetUserById(t, current.userId) == Success(Some(current))
    ensures var p := PatchProfile(current, firstName, lastName, isActive, emailVerified, now);
            && GetUserById(Apply(t, ProfileStatement(p)), current.userId) == Success(Some(Persisted(p)))
            && (Consistent(t) ==> Consistent(Apply(t, ProfileStatement(p))))
  {
    var p := PatchProfile(current, firstName, lastName, isActive, emailVerified, now);
    var s := ProfileStatement(p);
    UpdateProfileOnRow(t, s, current);
    DecodedUserIsPersisted(current.userId, t.users[current.userId]);
    assert Persisted(p) == current.(firstName := p.firstName, lastName := p.lastName,
                                    isActive := p.isActive, emailVerified := p.emailVerified,
                                    updatedAt := StoredTimestamp(now));
    if Consistent(t) {
      UpdatePreservesConsistency(t, s);
    }
  }

  /** A password or last-login UPDATE of an id with no account leaves a row that reads as
      `RowParseError`, so the store is no longer consistent. */
  lemma BlindUpdateOfAbsentUser(t: Tables, s: Stmt)
    requires s.UpdateUserPassword? || s.UpdateLastLogin?
    requires s.userId !in t.users
    ensures GetUserById(Apply(t, s), s.userId) == Failure(RowParseError)
    ensures !Consistent(Apply(t, s))
  {
    UpdateOnAbsentRowIsUnreadable(t, s);
  }

  // ---------------------------------------------------------------------------------------
  // Deletion
  // ---------------------------------------------------------------------------------------

  /** The deletion batch, in order: the username lookup, the email lookup, the canonical row. */
  function DeleteUserStatements(username: string, email: string, userId: Uuid): (s: seq<Stmt>)
    ensures |s| == 3
    ensures forall i | 0 <= i < |s| :: !s[i].InsertUserByUsername? && !s[i].InsertUserByEmail?
    ensures s[0] == DeleteUserByUsername(username) && s[1] == DeleteUserByEmail(email)
    ensures s[2] == Stmt.DeleteUser(userId)
  {
    [DeleteUserByUsername(username), DeleteUserByEmail(email), DeleteUser(userId)]
  }

  /** The deletion batch always applies and removes exactly its three rows. */
  lemma DeleteBatchOutcome(t: Tables, username: string, email: string, userId: Uuid)
    ensures ApplyBatch(t, DeleteUserStatements(username, email, userId))
            == (Tables(t.users - {userId}, t.usersByUsername - {username}, t.usersByEmail - {email}), true)
  {
    var stmts := DeleteUserStatements(username, email, userId);
    ApplyAllThree(t, stmts[0], stmts[1], stmts[2]);
    assert stmts == [stmts[0], stmts[1], stmts[2]];
    UnconditionalBatchApplies(t, stmts);
  }

  /**
   * The orphan row a blind password or last-login UPDATE leaves behind has no username and
   * no email, so the details read of `delete_user` fails on it: `DeleteUser` then answers
   * `RowParseError` and writes nothing, and the row can no longer be removed through it.
   */
  lemma OrphanRowBlocksDelete(t: Tables, s: Stmt)
    requires s.UpdateUserPassword? || s.UpdateLastLogin?
    requires s.userId !in t.users
    ensures SelectUserDetails(Apply(t, s), s.userId) == Some(Failure(FromRowError))
  {
    assert Username !in Apply(t, s).users[s.userId];
  }

  /** Deleting an account of a consistent store keeps it consistent and leaves nothing to
      find by its id, username or email. */
  lemma DeletePreservesConsistency(t: Tables, userId: Uuid)
    requires Consistent(t) && userId in t.users
    ensures SelectUserDetails(t, userId).Some? && SelectUserDetails(t, userId).value.Success?
    ensures var (username, email) := SelectUserDetails(t, userId).value.value;
            var t' := Tables(t.users - {userId}, t.usersByUsername - {username}, t.usersByEmail - {email});
            && Consistent(t')
            && GetUserById(t', userId) == Success(None)
            && GetUserByUsername(t', username) == Success(None)
            && GetUserByEmail(t', email) == Success(None)
  {
    var u := DecodeUser(userId, t.users[userId]).value;
    var username, email := u.username, u.email;
    assert SelectUserDetails(t, userId) == Some(Success((username, email)));
    assert IndexedAt(t.usersByUsername, RequiredText(t.users[userId], Username), userId);
    assert IndexedAt(t.usersByEmail, RequiredText(t.users[userId], Email), userId);
    DeleteKeepsRowsIndexed(t, userId, username, email);
    DeleteKeepsLookupsExact(t, userId, username, email);
  }

  /** Deleting an account and its two lookup entries keeps every other account indexed. */
  lemma DeleteKeepsRowsIndexed(t: Tables, userId: Uuid, username: string, email: string)
    requires RowsIndexed(t)
    requires IndexedAt(t.usersByUsername, Some(username), userId)
    requires IndexedAt(t.usersByEmail, Some(email), userId)
    ensures RowsIndexed(Tables(t.users - {userId}, t.usersByUsername - {username}, t.usersByEmail - {email}))
  {
    var t' := Tables(t.users - {userId}, t.usersByUsername - {username}, t.usersByEmail - {email});
    forall id | id in t'.users
      ensures IndexedAt(t'.usersByUsername, RequiredText(t'.users[id], Username), id)
      ensures IndexedAt(t'.usersByEmail, RequiredText(t'.users[id], Email), id)
    {
      assert IndexedAt(t.usersByUsername, RequiredText(t.users[id], Username), id);
      assert IndexedAt(t.usersByEmail, RequiredText(t.users[id], Email), id);
    }
  }

  /** Deleting an account and its two lookup entries leaves every other lookup entry leading
      to a row holding its key. */
  lemma DeleteKeepsLookupsExact(t: Tables, userId: Uuid, username: string, email: string)
    requires UsernameLookupsExact(t) && EmailLookupsExact(t) && userId in t.users
    requires RequiredText(t.users[userId], Username) == Some(username)
    requires RequiredText(t.users[userId], Email) == Some(email)
    ensures UsernameLookupsExact(Tables(t.users - {userId}, t.usersByUsername - {username}, t.usersByEmail - {email}))
    ensures EmailLookupsExact(Tables(t.users - {userId}, t.usersByUsername - {username}, t.usersByEmail - {email}))
  {
  }

  // ---------------------------------------------------------------------------------------
  // The service
  // ---------------------------------------------------------------------------------------

  /** `UserManager`: the account operations over a session on the keyspace. */
  class UserManager {
    const session: Session

    constructor (session: Session)
      ensures this.session == session
    {
      this.session := session;
    }

    /**
     * `create_user`, with the generated id and the clock reading as parameters. One logged
     * batch with serial consistency LocalSerial holds the two conditional lookup inserts and
     * the canonical insert; when it is not applied, the username lookup and then the email
     * lookup say which key was taken.
     */
    method CreateUser(username: string, email: string, hashedPassword: string,
                      firstName: Option<string>, lastName: Option<string>, isActive: bool,
                      emailVerified: bool, userId: Uuid, now: Timestamp)
      returns (r: Result<User, UserManagerError>)
      modifies session
      ensures r.Success? <==>
                username !in old(session.usersByUsername) && email !in old(session.usersByEmail)
      ensures r.Success? ==>
                r.value == NewUser(userId, username, email, hashedPassword, firstName, lastName,
                                   isActive, emailVerified, now)
      ensures r.Success? ==> session.State() == Created(old(session.State()), r.value)
      ensures r.Success? ==> GetUserById(session.State(), userId) == Success(Some(Persisted(r.value)))
      ensures r.Failure? ==> session.State() == old(session.State())
      ensures r.Failure? ==> r.error == if username in old(session.usersByUsername)
                                        then UsernameTaken(username) else EmailTaken(email)
      ensures Consistent(old(session.State())) && userId !in old(session.users) ==>
                Consistent(session.State())
    {
      ghost var before := session.State();
      var batch := new Batch();
      batch.SetSerialConsistency(Some(LocalSerial));
      batch.AddStatement(InsertUserByUsername(username, userId));
      batch.AddStatement(InsertUserByEmail(email, userId));
      batch.AddStatement(InsertUser(userId, username, email, hashedPassword, firstName, lastName,
                                    isActive, emailVerified, now, now, None));
      ghost var u := NewUser(userId, username, email, hashedPassword, firstName, lastName,
                             isActive, emailVerified, now);
      assert batch.statements == CreateUserStatements(u);
      var result := session.RunBatch(batch);
      CreateBatchOutcome(before, u);

      if !result.wasApplied {
        if SelectUserIdByUsername(session.State(), username).Some? {
          return Failure(UsernameTaken(username));
        }
        if SelectUserIdByEmail(session.State(), email).Some? {
          return Failure(EmailTaken(email));
        }
        return Failure(UsernameOrEmailAlreadyExists);
      }

      CreatedUserReadBack(before, u);
      if Consistent(before) && userId !in before.users {
        CreatePreservesConsistency(before, u);
      }
      return Success(User(userId, username, email, hashedPassword, firstName, lastName,
                          isActive, emailVerified, None, now, now));
    }

    /**
     * `update_user_profile`: reads the account (`UserNotFound` when absent), overlays the given
     * fields, writes the five profile columns and returns the patched account.
     */
    method UpdateUserProfile(userId: Uuid, firstName: Option<string>, lastName: Option<string>,
                             isActive: Option<bool>, emailVerified: Option<bool>, now: Timestamp)
      returns (r: Result<User, UserManagerError>)
      modifies session
      ensures GetUserById(old(session.State()), userId) == Success(None) ==>
                r == Failure(UserManagerError.UserNotFound) && session.State() == old(session.State())
      ensures GetUserById(old(session.State()), userId).Failure? ==>
                r == Failure(RowParseError) && session.State() == old(session.State())
      ensures GetUserById(old(session.State()), userId).Success?
              && GetUserById(old(session.State()), userId).value.Some? ==>
                var current := GetUserById(old(session.State()), userId).value.value;
                && r == Success(PatchProfile(current, firstName, lastName, isActive, emailVerified, now))
                && session.State() == Apply(old(session.State()), ProfileStatement(r.value))
                && GetUserById(session.State(), userId) == Success(Some(Persisted(r.value)))
      ensures Consistent(old(session.State())) ==> Consistent(session.State())
    {
      var found := GetUserById(session.State(), userId);
      if found.Failure? {
        return Failure(found.error);
      }
      if found.value.None? {
        return Failure(UserManagerError.UserNotFound);
      }
      var currentUser := found.value.value;
      ghost var before := session.State();

      var newFirstName := firstName.Or(currentUser.firstName);
      var newLastName := lastName.Or(currentUser.lastName);
      var newIsActive := isActive.UnwrapOr(currentUser.isActive);
      var newEmailVerified := emailVerified.UnwrapOr(currentUser.emailVerified);
      var updatedAt := now;

      var stmt := Stmt.UpdateUserProfile(newFirstName, newLastName, newIsActive, newEmailVerified,
                                         updatedAt, userId);
      session.Execute(stmt);
      PatchedProfileReadBack(before, currentUser, firstName, lastName, isActive, emailVerified, now);

      currentUser := currentUser.(firstName := newFirstName);
      currentUser := currentUser.(lastName := newLastName);
      currentUser := currentUser.(isActive := newIsActive);
      currentUser := currentUser.(emailVerified := newEmailVerified);
      currentUser := currentUser.(updatedAt := updatedAt);
      return Success(currentUser);
    }

    /** `update_user_password`: an unconditional write of the hash and `updated_at`; it does not
        check that the account exists. */
    method UpdateUserPassword(userId: Uuid, newHashedPassword: string, now: Timestamp)
      returns (r: Result<(), UserManagerError>)
      modifies session
      ensures r == Success(())
      ensures session.State() == Apply(old(session.State()), Stmt.UpdateUserPassword(newHashedPassword, now, userId))
      ensures forall u: User :: GetUserById(old(session.State()), userId) == Success(Some(u)) ==>
                GetUserById(session.State(), userId)
                == Success(Some(u.(hashedPassword := newHashedPassword, updatedAt := StoredTimestamp(now))))
      ensures userId !in old(session.users) ==> GetUserById(session.State(), userId) == Failure(RowParseError)
      ensures userId in old(session.users) ==> (Consistent(old(session.State())) ==> Consistent(session.State()))
    {
      ghost var before := session.State();
      var updatedAt := now;
      var stmt := Stmt.UpdateUserPassword(newHashedPassword, updatedAt, userId);
      session.Execute(stmt);
      forall u: User | GetUserById(before, userId) == Success(Some(u))
        ensures GetUserById(session.State(), userId)
                == Success(Some(u.(hashedPassword := newHashedPassword, updatedAt := StoredTimestamp(now))))
      {
        UpdatePasswordOnRow(before, stmt, u);
      }
      if userId !in before.users {
        BlindUpdateOfAbsentUser(before, stmt);
      } else if Consistent(before) {
        UpdatePreservesConsistency(before, stmt);
      }
      return Success(());
    }

    /** `update_last_login`: an unconditional write of `last_login_at` and `updated_at`, both
        `now`; it does not check that the account exists. */
    method UpdateLastLogin(userId: Uuid, now: Timestamp) returns (r: Result<(), UserManagerError>)
      modifies session
      ensures r == Success(())
      ensures session.State() == Apply(old(session.State()), Stmt.UpdateLastLogin(Some(now), now, userId))
      ensures forall u: User :: GetUserById(old(session.State()), userId) == Success(Some(u)) ==>
                GetUserById(session.State(), userId)
                == Success(Some(u.(lastLoginAt := Some(StoredTimestamp(now)), updatedAt := StoredTimestamp(now))))
      ensures userId !in old(session.users) ==> GetUserById(session.State(), userId) == Failure(RowParseError)
      ensures userId in old(session.users) ==> (Consistent(old(session.State())) ==> Consistent(session.State()))
    {
      ghost var before := session.State();
      var stmt := Stmt.UpdateLastLogin(Some(now), now, userId);
      session.Execute(stmt);
      forall u: User | GetUserById(before, userId) == Success(Some(u))
        ensures GetUserById(session.State(), userId)
                == Success(Some(u.(lastLoginAt := Some(StoredTimestamp(now)), updatedAt := StoredTimestamp(now))))
      {
        UpdateLastLoginOnRow(before, stmt, u, now);
      }
      if userId !in before.users {
        BlindUpdateOfAbsentUser(before, stmt);
      } else if Consistent(before) {
        UpdatePreservesConsistency(before, stmt);
      }
      return Success(());
    }

    /**
     * `delete_user`: reads the account's username and email from its canonical row
     * (`UserNotFound` when there is none), then removes the two lookup rows and the canonical
     * row in one batch.
     */
    method DeleteUser(userId: Uuid) returns (r: Result<(), UserManagerError>)
      modifies session
      ensures match SelectUserDetails(old(session.State()), userId)
              case None =>
                r == Failure(UserManagerError.UserNotFound) && session.State() == old(session.State())
              case Some(Failure(_)) =>
                r == Failure(RowParseError) && session.State() == old(session.State())
              case Some(Success((username, email))) =>
                && r == Success(())
                && session.State() == Tables(old(session.users) - {userId},
                                             old(session.usersByUsername) - {username},
                                             old(session.usersByEmail) - {email})
      ensures Consistent(old(session.State())) ==> Consistent(session.State())
      ensures r.Success? && Consistent(old(session.State())) ==>
                GetUserById(session.State(), userId) == Success(None)
    {
      ghost var before := session.State();
      var row := SelectUserDetails(session.State(), userId);
      if row.None? {
        return Failure(UserManagerError.UserNotFound);
      }
      if row.value.Failure? {
        return Failure(RowParseError);
      }
      var (username, email) := row.value.value;

      var batch := new Batch();
      batch.AddStatement(DeleteUserByUsername(username));
      batch.AddStatement(DeleteUserByEmail(email));
      batch.AddStatement(Stmt.DeleteUser(userId));
      assert batch.statements == DeleteUserStatements(username, email, userId);
      var _ := session.RunBatch(batch);
      DeleteBatchOutcome(before, username, email, userId);
      if Consistent(before) {
        DeletePreservesConsistency(before, userId);
      }
      return Success(());
    }
  }
}
