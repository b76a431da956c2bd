/** The admin guard and identity extraction shared by the admin routes. Both
    trust the headers the reverse proxy forwards after verifying the session. */
module AdminAuth {
  import opened Types
  import opened JsText
  import opened Http

  const NotAuthenticated := "Not authenticated"
  const AdminRequired := "Admin access required"
  const AdminRole := "admin"

  /** `requireAdmin`: `None` lets the request through, otherwise the error
      response to send. */
  function RequireAdmin(h: Headers): (r: Option<Response>)
    ensures r.None? <==> Truthy(h.userId) && h.userRole == Some(AdminRole)
    ensures (!Truthy(h.userId) || !Truthy(h.userRole)) ==> r == Some(ErrorResponse(401, NotAuthenticated))
    ensures r.Some? && r.value.status == 403 <==>
      Truthy(h.userId) && Truthy(h.userRole) && h.userRole.value != AdminRole
    ensures r.Some? ==> r.value.status in {401, 403}
  {
    if !Truthy(h.userId) || !Truthy(h.userRole) then Some(ErrorResponse(401, NotAuthenticated))
    else if h.userRole.value != AdminRole then Some(ErrorResponse(403, AdminRequired))
    else None
  }

  /** `getUserFromHeaders`: the identity when all three headers are there. */
  function GetUserFromHeaders(h: Headers): (r: Option<AuthenticatedUser>)
    ensures r.None? <==> !Truthy(h.userId) || !Truthy(h.userEmail) || !Truthy(h.userRole)
    ensures r.Some? ==> r.value.email == h.userEmail.value && r.value.role == h.userRole.value
    ensures r.Some? ==> r.value.id == ParseInt(h.userId.value)
  {
    if !Truthy(h.userId) || !Truthy(h.userEmail) || !Truthy(h.userRole) then None
    else Some(AuthenticatedUser(ParseInt(h.userId.value), h.userEmail.value, h.userRole.value))
  }

  /** The guard does not look at the email header, and compares the role
      case-sensitively. */
  lemma GuardIgnoresEmail(h: Headers, email: Option<string>)
    ensures RequireAdmin(h.(userEmail := email)) == RequireAdmin(h)
    ensures Truthy(h.userId) ==> RequireAdmin(h.(userRole := Some("Admin"))) == Some(ErrorResponse(403, AdminRequired))
  {
  }

  /** A request the guard admits yields an identity exactly when it also
      carries an email header; the guard can pass while the identity is missing. */
  lemma GuardAndIdentity(h: Headers)
    requires RequireAdmin(h).None?
    ensures GetUserFromHeaders(h).Some? <==> Truthy(h.userEmail)
    ensures GetUserFromHeaders(h).Some? ==> GetUserFromHeaders(h).value.role == AdminRole
  {
  }

  /** The identity the proxy forwards for user `id` is read back unchanged. */
  lemma ForwardedIdentity(id: int, email: string, role: string)
    requires email != "" && role != ""
    ensures GetUserFromHeaders(Headers(Some(DecimalString(id)), Some(email), Some(role)))
         == Some(AuthenticatedUser(Some(id), email, role))
  {
    ParseIntDecimalString(id);
    assert DecimalString(id) != "" by {
      assert |NatDigits(if id < 0 then -id else id)| >= 1;
    }
  }
}
