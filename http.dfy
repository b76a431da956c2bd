/** What the route handlers read and answer: the identity headers the
    reverse proxy forwards, and JSON responses with a status code. */
module Http {
  import opened Types

  /** `x-user-id`, `x-user-email` and `x-user-role`; `None` when absent. */
  datatype Headers = Headers(userId: Option<string>, userEmail: Option<string>, userRole: Option<string>)

  /** JavaScript truthiness of a header, a query parameter or a body string:
      present and not empty. */
  predicate Truthy(s: Option<string>) {
    s.Some? && s.value != ""
  }

  /** The JSON bodies the handlers send. */
  datatype Body =
    | ErrorBody(error: string)
    | ValidationBody(valid: bool, reason: Option<string>)
    | Registered(success: bool, id: int, email: string, role: string)
    | Issued(token: string, expiresAt: int, registrationUrl: string)
    | TokenList(tokens: seq<TokenSafe>)
    | UserList(users: seq<UserWithMeta>)
    | CurrentUser(user: AuthenticatedUser)

  datatype Response = Response(status: int, body: Body)

  function ErrorResponse(status: int, message: string): Response {
    Response(status, ErrorBody(message))
  }
}
