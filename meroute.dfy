/** `GET /api/auth/me`: echo the forwarded identity. */
module MeRoute {
  import opened Types
  import opened JsText
  import opened Http
  import opened AdminAuth

  /** The handler depends on the headers only and changes no state. */
  function Me(h: Headers): (r: Response)
    ensures r.status == 200 <==> GetUserFromHeaders(h).Some?
    ensures r.status == 200 ==> r.body == CurrentUser(GetUserFromHeaders(h).value)
    ensures r.status != 200 ==> r == ErrorResponse(401, NotAuthenticated)
  {
    if !Truthy(h.userId) || !Truthy(h.userEmail) || !Truthy(h.userRole) then
      ErrorResponse(401, "Not authenticated")
    else
      Response(200, CurrentUser(AuthenticatedUser(ParseInt(h.userId.value), h.userEmail.value, h.userRole.value)))
  }

  /** What the proxy forwards for a signed-in user is what `/me` reports. */
  lemma MeEchoesForwardedIdentity(id: int, email: string, role: string)
    requires email != "" && role != ""
    ensures Me(Headers(Some(DecimalString(id)), Some(email), Some(role)))
         == Response(200, CurrentUser(AuthenticatedUser(Some(id), email, role)))
  {
    ForwardedIdentity(id, email, role);
  }
}
