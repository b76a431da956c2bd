/** How the routes fit together over a token's life: an admin issues it, the
    registration page checks it, the invitee registers with it once, and
    afterwards both routes refuse it. */
module Lifecycle {
  import opened Types
  import opened Http
  import opened Users
  import opened Tokens
  import V = ValidateTokenRoute
  import R = RegisterRoute

  /** The registration page and the registration itself judge a token alike:
      for a well-formed request with a free email, registration succeeds
      exactly when validation says valid, and otherwise refuses with the
      reason validation gives. */
  lemma RegisterAgreesWithValidation(req: R.RegisterRequest, tokens: seq<TokenRow>, users: seq<User>,
                                     nextUserId: int, now: int, passwordHash: string)
    requires R.WellFormedRequest(req) && FindUserByEmail(users, req.email.value).None?
    ensures var v := V.ValidateToken(req.token, tokens, now);
      var r := R.RegisterStep(req, tokens, users, nextUserId, now, passwordHash).response;
      && (r.status == 201 <==> v.body.valid)
      && (!v.body.valid ==> r == ErrorResponse(400, v.body.reason.value))
  {
  }

  /** In a sequential history a token serves one registration: after a
      successful one, another well-formed request with the same token is
      refused as already used, and the validation route reports it used, at
      any later time. Two requests racing between lookup and marking are not
      part of this model. */
  lemma TokenIsSingleUse(req: R.RegisterRequest, tokens: seq<TokenRow>, users: seq<User>, nextUserId: int,
                         now: int, passwordHash: string,
                         req2: R.RegisterRequest, nextUserId2: int, later: int, passwordHash2: string)
    requires UniqueTokens(tokens)
    requires R.RegisterStep(req, tokens, users, nextUserId, now, passwordHash).response.status == 201
    requires R.WellFormedRequest(req2) && req2.token == req.token
    ensures var o := R.RegisterStep(req, tokens, users, nextUserId, now, passwordHash);
      && R.RegisterStep(req2, o.tokens, o.users, nextUserId2, later, passwordHash2).response
         == ErrorResponse(400, R.AlreadyUsed)
      && V.ValidateToken(req.token, o.tokens, later) == V.Invalid(200, V.AlreadyUsed)
  {
    var o := R.RegisterStep(req, tokens, users, nextUserId, now, passwordHash);
    var value := req.token.value;
    R.SuccessCondition(req, tokens, users, nextUserId, now, passwordHash);
    assert o.tokens == MarkUsed(tokens, value, nextUserId, now);
    MarkUsedConsumes(tokens, value, nextUserId, now);
    var consumed := FindToken(o.tokens, value).value;
    assert consumed.used && !IsTokenValid(consumed, later);
    R.FirstFailureWins(req2, o.tokens, o.users, nextUserId2, later, passwordHash2);
  }

  /** A token an admin has just issued for `days` days opens registration to
      anyone who holds it until it expires, and not from then on. */
  lemma IssuedTokenRegistersUntilExpiry(rows: seq<TokenRow>, nextId: int, value: string, createdBy: int, days: int,
                                        issuedAt: int, req: R.RegisterRequest, users: seq<User>,
                                        nextUserId: int, now: int, passwordHash: string)
    requires WellFormedTokens(rows, nextId) && FindToken(rows, value).None?
    requires 1 <= days <= 365 && issuedAt <= now
    requires R.WellFormedRequest(req) && req.token == Some(value) && FindUserByEmail(users, req.email.value).None?
    ensures var issued := rows + [NewTokenRow(nextId, value, createdBy, days, issuedAt)];
      && V.ValidateToken(Some(value), issued, issuedAt) == Response(200, ValidationBody(true, None))
      && (now < issuedAt + days * MsPerDay <==>
            R.RegisterStep(req, issued, users, nextUserId, now, passwordHash).response.status == 201)
      && (now >= issuedAt + days * MsPerDay ==>
            R.RegisterStep(req, issued, users, nextUserId, now, passwordHash).response == ErrorResponse(400, R.ExpiredMessage))
  {
    var t := NewTokenRow(nextId, value, createdBy, days, issuedAt);
    InsertToken(rows, nextId, t);
  }
}
