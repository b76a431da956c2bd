/** The records the portal stores and returns: registration tokens, users and
    the identity forwarded by the reverse proxy. Timestamps are milliseconds
    since the epoch, as JavaScript `Date` values are. */
module Types {

  /** A value that may be SQL `NULL`, JavaScript `null` or absent. */
  datatype Option<+T> = None | Some(value: T)

  /** One row of the `registration_tokens` table. `usedBy` and `usedAt` are
      `NULL` until the token is consumed. */
  datatype TokenRow = TokenRow(
    id: int,
    token: string,
    expiresAt: int,
    used: bool,
    usedBy: Option<int>,
    usedAt: Option<int>,
    createdBy: int,
    createdAt: int)

  /** A token as the admin listing shows it: the two user references are
      replaced by those users' emails (a LEFT JOIN, so either may be missing). */
  datatype TokenSafe = TokenSafe(
    id: int,
    token: string,
    expiresAt: int,
    used: bool,
    usedByEmail: Option<string>,
    usedAt: Option<int>,
    createdByEmail: Option<string>,
    createdAt: int)

  /** One row of the `users` table. */
  datatype User = User(
    id: int,
    email: string,
    passwordHash: string,
    role: string,
    createdAt: int,
    updatedAt: int)

  /** A user as the admin listing returns it: every column but the hash. */
  datatype UserWithMeta = UserWithMeta(
    id: int,
    email: string,
    role: string,
    createdAt: int,
    updatedAt: int)

  /** The identity read from the forwarded headers. `id` is the result of
      `parseInt` on the `x-user-id` header, `None` standing for `NaN`. */
  datatype AuthenticatedUser = AuthenticatedUser(id: Option<int>, email: string, role: string)
}
