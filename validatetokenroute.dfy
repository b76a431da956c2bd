/** `GET /api/auth/validate-token?token=…`: the public check the registration
    page makes before showing its form. */
module ValidateTokenRoute {
  import opened Types
  import opened Http
  import opened Tokens

  const TokenRequired := "Token parameter is required"
  const InvalidToken := "Invalid registration token"
  const AlreadyUsed := "Registration token has already been used"
  const ExpiredMessage := "Registration token has expired"

  function Invalid(status: int, reason: string): Response {
    Response(status, ValidationBody(false, Some(reason)))
  }

  /** `param` is the `token` query parameter, `rows` the token table and `now`
      the current time. The handler reads the table and changes nothing. */
  function ValidateToken(param: Option<string>, rows: seq<TokenRow>, now: int): (r: Response)
    ensures r.body.ValidationBody? && (r.body.valid <==> r.body.reason.None?)
    ensures r.status == (if Truthy(param) then 200 else 400)
    ensures r.body.valid <==>
      Truthy(param) && FindToken(rows, param.value).Some? && IsTokenValid(FindToken(rows, param.value).value, now)
    ensures Truthy(param) && FindToken(rows, param.value).None? ==> r == Invalid(200, InvalidToken)
  {
    if !Truthy(param) then Invalid(400, TokenRequired)
    else match FindToken(rows, param.value)
      case None => Invalid(200, InvalidToken)
      case Some(t) =>
        if t.used then Invalid(200, AlreadyUsed)
        else if t.expiresAt <= now then Invalid(200, ExpiredMessage)
        else Response(200, ValidationBody(true, None))
  }

  /** A used token is reported as used even once it is also past its expiry;
      an unused one past its expiry is reported as expired. */
  lemma UsedReportedBeforeExpired(value: string, rows: seq<TokenRow>, now: int)
    requires value != "" && FindToken(rows, value).Some?
    ensures FindToken(rows, value).value.used ==> ValidateToken(Some(value), rows, now) == Invalid(200, AlreadyUsed)
    ensures !FindToken(rows, value).value.used && FindToken(rows, value).value.expiresAt <= now ==>
      ValidateToken(Some(value), rows, now) == Invalid(200, ExpiredMessage)
  {
  }

  /** An answer given for a token stays the answer until the table changes or
      time passes its expiry: validity only ever goes from true to false as
      time advances. */
  lemma ValidityOnlyLapses(param: Option<string>, rows: seq<TokenRow>, now: int, later: int)
    requires now <= later
    ensures ValidateToken(param, rows, later).body.valid ==> ValidateToken(param, rows, now).body.valid
  {
  }
}
