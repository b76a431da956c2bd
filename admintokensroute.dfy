/** `POST /api/admin/tokens` (issue a token) and `GET /api/admin/tokens`
    (list tokens), both behind the admin guard. */
module AdminTokensRoute {
  import opened Types
  import opened Http
  import opened AdminAuth
  import opened Users
  import opened Tokens

  const UserNotFound := "User not found"
  const ExpiryOutOfRange := "Token expiry must be between 1 and 365 days"
  const CreateFailed := "Failed to create token"
  const InvalidFilter := "Invalid filter. Must be: all, active, used, or expired"
  const DefaultBaseUrl := "http://localhost:3010"
  const RegisterPath := "/register?token="
  const MinExpiryDays := 1
  const MaxExpiryDays := 365

  /** The lifetime the handler settles on. `requested` is the body's
      `expiresInDays`, `configured` the parsed `REGISTRATION_TOKEN_EXPIRY_DAYS`
      (`None` when that variable is unset or empty). A requested 0 is falsy
      and falls through to the configured value, like an absent one. */
  function EffectiveExpiryDays(requested: Option<int>, configured: Option<int>): int {
    if requested.Some? && requested.value != 0 then requested.value
    else if configured.Some? then configured.value
    else DefaultExpiryDays
  }

  /** What the POST handler decides before it touches the table. */
  datatype IssuePlan = Refuse(response: Response) | Issue(createdBy: int, expiresInDays: int)

  /** The checks of the POST handler in order: the admin guard, the identity,
      the lifetime range, and the numeric id `createToken` is given (a `NaN`
      id fails the insert, which the handler turns into a 500). */
  function PlanIssue(h: Headers, requested: Option<int>, configured: Option<int>): (p: IssuePlan)
    ensures RequireAdmin(h).Some? ==> p == Refuse(RequireAdmin(h).value)
    ensures p.Issue? <==>
      && RequireAdmin(h).None?
      && GetUserFromHeaders(h).Some?
      && GetUserFromHeaders(h).value.id.Some?
      && MinExpiryDays <= EffectiveExpiryDays(requested, configured) <= MaxExpiryDays
    ensures p.Issue? ==>
      && Some(p.createdBy) == GetUserFromHeaders(h).value.id
      && p.expiresInDays == EffectiveExpiryDays(requested, configured)
      && MinExpiryDays <= p.expiresInDays <= MaxExpiryDays
    ensures p.Refuse? ==> p.response.body.ErrorBody? && p.response.status in {400, 401, 403, 500}
  {
    match RequireAdmin(h)
    case Some(denied) => Refuse(denied)
    case None =>
      match GetUserFromHeaders(h)
      case None => Refuse(ErrorResponse(401, UserNotFound))
      case Some(user) =>
        var days := EffectiveExpiryDays(requested, configured);
        if days < MinExpiryDays || days > MaxExpiryDays then Refuse(ErrorResponse(400, ExpiryOutOfRange))
        else if user.id.None? then Refuse(ErrorResponse(500, CreateFailed))
        else Issue(user.id.value, days)
  }

  /** An admin request the guard admits but that lacks the email header is
      refused as "User not found", whatever the body asks for. */
  lemma AdminWithoutEmail(h: Headers, requested: Option<int>, configured: Option<int>)
    requires RequireAdmin(h).None? && !Truthy(h.userEmail)
    ensures PlanIssue(h, requested, configured) == Refuse(ErrorResponse(401, UserNotFound))
  {
  }

  /** An absent or zero `expiresInDays` takes the configured lifetime, and
      seven days when none is configured; a lifetime outside 1..365 is
      refused with 400 once the identity checks pass. */
  lemma ExpiryDefaults(h: Headers, requested: Option<int>, configured: Option<int>)
    requires GetUserFromHeaders(h).Some? && RequireAdmin(h).None?
    ensures (requested.None? || requested == Some(0)) && configured.None? ==>
      (PlanIssue(h, requested, configured).Issue? ==> PlanIssue(h, requested, configured).expiresInDays == 7)
    ensures !(MinExpiryDays <= EffectiveExpiryDays(requested, configured) <= MaxExpiryDays) ==>
      PlanIssue(h, requested, configured) == Refuse(ErrorResponse(400, ExpiryOutOfRange))
    ensures requested.Some? && MinExpiryDays <= requested.value <= MaxExpiryDays && GetUserFromHeaders(h).value.id.Some? ==>
      PlanIssue(h, requested, configured) == Issue(GetUserFromHeaders(h).value.id.value, requested.value)
    ensures (requested.None? || requested == Some(0)) && configured.Some? ==>
      EffectiveExpiryDays(requested, configured) == configured.value
    ensures (requested.None? || requested == Some(0)) && configured.Some?
            && MinExpiryDays <= configured.value <= MaxExpiryDays && GetUserFromHeaders(h).value.id.Some? ==>
      PlanIssue(h, requested, configured) == Issue(GetUserFromHeaders(h).value.id.value, configured.value)
  {
  }

  /** The link handed to the invitee. `baseUrl` is `NEXT_PUBLIC_BASE_URL`. */
  function RegistrationUrl(baseUrl: Option<string>, value: string): (url: string)
    ensures var base := if Truthy(baseUrl) then baseUrl.value else DefaultBaseUrl;
      && |url| == |base| + |RegisterPath| + |value|
      && url[..|base|] == base
      && url[|base|..|base| + |RegisterPath|] == RegisterPath
      && url[|url| - |value|..] == value
  {
    var base := if Truthy(baseUrl) then baseUrl.value else DefaultBaseUrl;
    base + RegisterPath + value
  }

  /** The POST handler. `value` is the fresh random token string, `now` the
      current time. */
  method IssueToken(h: Headers, requested: Option<int>, configured: Option<int>, baseUrl: Option<string>,
                    store: TokenStore, value: string, now: int)
    returns (resp: Response)
    requires store.Valid() && FindToken(store.rows, value).None?
    modifies store
    ensures store.Valid()
    ensures PlanIssue(h, requested, configured).Refuse? ==>
      && resp == PlanIssue(h, requested, configured).response
      && store.rows == old(store.rows) && store.nextId == old(store.nextId)
    ensures PlanIssue(h, requested, configured).Issue? ==>
      var p := PlanIssue(h, requested, configured);
      var t := NewTokenRow(old(store.nextId), value, p.createdBy, p.expiresInDays, now);
      && store.rows == old(store.rows) + [t]
      && store.nextId == old(store.nextId) + 1
      && resp == Response(201, Issued(value, t.expiresAt, RegistrationUrl(baseUrl, value)))
  {
    var plan := PlanIssue(h, requested, configured);
    match plan
    case Refuse(denied) =>
      resp := denied;
    case Issue(createdBy, days) =>
      var t := store.CreateToken(createdBy, value, now, days);
      resp := Response(201, Issued(t.token, t.expiresAt, RegistrationUrl(baseUrl, t.token)));
  }

  /** The filter named by the `filter` query parameter, if any. */
  function ParseFilter(name: string): (f: Option<TokenFilter>)
    ensures f.Some? <==> name in ["all", "active", "used", "expired"]
    ensures name == "all" ==> f == Some(All)
    ensures name == "active" ==> f == Some(Active)
    ensures name == "used" ==> f == Some(Used)
    ensures name == "expired" ==> f == Some(Expired)
  {
    if name == "all" then Some(All)
    else if name == "active" then Some(Active)
    else if name == "used" then Some(Used)
    else if name == "expired" then Some(Expired)
    else None
  }

  /** The GET handler: `param` is the `filter` query parameter, `rows` and
      `users` the two tables, `now` the current time. */
  function ListTokensResponse(h: Headers, param: Option<string>, rows: seq<TokenRow>, users: seq<User>, now: int)
    : (r: Response)
    ensures RequireAdmin(h).Some? ==> r == RequireAdmin(h).value
    ensures RequireAdmin(h).None? && !Truthy(param) ==>
      r == Response(200, TokenList(Listing(rows, users, Active, now)))
    ensures RequireAdmin(h).None? && Truthy(param) ==>
      if ParseFilter(param.value).Some? then r == Response(200, TokenList(Listing(rows, users, ParseFilter(param.value).value, now)))
      else r == ErrorResponse(400, InvalidFilter)
  {
    match RequireAdmin(h)
    case Some(denied) => denied
    case None =>
      var name := if Truthy(param) then param.value else "active";
      match ParseFilter(name)
      case None => ErrorResponse(400, InvalidFilter)
      case Some(f) => Response(200, TokenList(Listing(rows, users, f, now)))
  }

  /** A token just issued shows in the active listing; only an unknown
      filter name is rejected, and the default lists exactly the active tokens. */
  lemma IssuedTokenIsListed(h: Headers, rows: seq<TokenRow>, nextId: int, users: seq<User>,
                            t: TokenRow, now: int)
    requires RequireAdmin(h).None?
    requires WellFormedTokens(rows, nextId) && FindToken(rows, t.token).None?
    requires t.id == nextId && t.createdAt == now && !t.used && t.usedBy.None? && t.usedAt.None? && t.expiresAt > now
    ensures ListTokensResponse(h, None, rows + [t], users, now).body.TokenList?
    ensures ToSafe(t, users) in ListTokensResponse(h, None, rows + [t], users, now).body.tokens
  {
    var r := rows + [t];
    ListingSpec(r, users, Active, now);
    assert r[|rows|] == t && Matches(Active, t, now);
  }
}
