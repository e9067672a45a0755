/** The error enums of `user/errors.rs` (repeated in `user_manager.rs`). */
module Errors {
  import opened Primitives

  /** Errors of the account operations. Driver failures carry no detail here. */
  datatype UserManagerError =
    | QueryError
    | NewSessionError
    | UserNotFound
    | UsernameTaken(username: string)
    | EmailTaken(email: string)
    | UsernameOrEmailAlreadyExists
    | InconsistentData(userId: Uuid)
    | BatchOperationFailed(reason: string)
    | ExpectedRowNotFound
    | RowParseError

  /** Errors of the authentication lookup. */
  datatype AuthenticationError =
    | UserNotFound
    | AccountNotActive
    | EmailNotVerified
    | DatabaseError(cause: UserManagerError)
}
