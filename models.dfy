/** The account records of `user/models.rs` (repeated in `user_manager.rs`). */
module Models {
  import opened Wrappers
  import opened Primitives

  /** One account, every column of the canonical `users` row. */
  datatype User = User(
    userId: Uuid,
    username: string,
    email: string,
    hashedPassword: string,
    firstName: Option<string>,
    lastName: Option<string>,
    isActive: bool,
    emailVerified: bool,
    lastLoginAt: Option<Timestamp>,
    createdAt: Timestamp,
    updatedAt: Timestamp)

  /** What a caller needs to check a password and the account's flags. */
  datatype AuthDetails = AuthDetails(
    userId: Uuid,
    username: string,
    email: string,
    hashedPassword: string,
    isActive: bool,
    emailVerified: bool)
}
