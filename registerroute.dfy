/** `POST /api/auth/register`: create an account with a registration token.
    The checks run in a fixed order and the first that fails decides the
    answer; only when all pass is a user created and the token consumed. */
module RegisterRoute {
  import opened Types
  import opened JsText
  import opened Validation
  import opened Http
  import opened Users
  import opened Tokens

  /** The JSON body; a field is `None` when missing. */
  datatype RegisterRequest = RegisterRequest(token: Option<string>, email: Option<string>, password: Option<string>)

  const FieldsRequired := "Token, email, and password are required"
  const InvalidEmail := "Invalid email format"
  const InvalidToken := "Invalid registration token"
  const AlreadyUsed := "Registration token has already been used"
  const ExpiredMessage := "Registration token has expired"
  const EmailTaken := "Email already registered"
  const NewUserRole := "user"

  /** The answer and the two tables after the request. */
  datatype Outcome = Outcome(response: Response, tokens: seq<TokenRow>, users: seq<User>)

  /** All three fields are present and non-empty. */
  predicate HasFields(req: RegisterRequest) {
    Truthy(req.token) && Truthy(req.email) && Truthy(req.password)
  }

  /** The request passes every check that looks at the body alone. */
  predicate WellFormedRequest(req: RegisterRequest) {
    HasFields(req) && ValidateEmail(req.email.value) && PasswordErrors(req.password.value) == []
  }

  /** The handler as one step on the tables. `nextUserId` is the id the user
      insert assigns, `now` the current time and `passwordHash` what
      `hashPassword` returns for the password. */
  function RegisterStep(req: RegisterRequest, tokens: seq<TokenRow>, users: seq<User>,
                        nextUserId: int, now: int, passwordHash: string): Outcome
  {
    var reject := (message: string) => Outcome(ErrorResponse(400, message), tokens, users);
    if !HasFields(req) then reject(FieldsRequired)
    else if !ValidateEmail(req.email.value) then reject(InvalidEmail)
    else if PasswordErrors(req.password.value) != [] then reject(Join(PasswordErrors(req.password.value), ", "))
    else match FindToken(tokens, req.token.value)
      case None => reject(InvalidToken)
      case Some(t) =>
        if !IsTokenValid(t, now) then reject(if t.used then AlreadyUsed else ExpiredMessage)
        else if FindUserByEmail(users, req.email.value).Some? then reject(EmailTaken)
        else
          var u := NewUser(nextUserId, req.email.value, passwordHash, NewUserRole, now);
          Outcome(Response(201, Registered(true, u.id, u.email, u.role)),
                  MarkUsed(tokens, req.token.value, u.id, now), users + [u])
  }

  /** The handler. */
  method Register(req: RegisterRequest, tokenStore: TokenStore, userStore: UserStore, now: int, passwordHash: string)
    returns (resp: Response)
    requires tokenStore.Valid() && userStore.Valid()
    modifies tokenStore, userStore
    ensures tokenStore.Valid() && userStore.Valid()
    ensures RegisterStep(req, old(tokenStore.rows), old(userStore.rows), old(userStore.nextId), now, passwordHash)
         == Outcome(resp, tokenStore.rows, userStore.rows)
    ensures tokenStore.nextId == old(tokenStore.nextId)
    ensures userStore.nextId == old(userStore.nextId) + (if resp.status == 201 then 1 else 0)
  {
    if !Truthy(req.token) || !Truthy(req.email) || !Truthy(req.password) {
      return ErrorResponse(400, FieldsRequired);
    }
    var tokenValue, email, password := req.token.value, req.email.value, req.password.value;
    if !ValidateEmail(email) {
      return ErrorResponse(400, InvalidEmail);
    }
    var check := ValidatePassword(password);
    if !check.valid {
      return ErrorResponse(400, Join(check.errors, ", "));
    }
    var token := FindToken(tokenStore.rows, tokenValue);
    if token.None? {
      return ErrorResponse(400, InvalidToken);
    }
    if !IsTokenValid(token.value, now) {
      if token.value.used {
        return ErrorResponse(400, AlreadyUsed);
      } else {
        return ErrorResponse(400, ExpiredMessage);
      }
    }
    var existing := FindUserByEmail(userStore.rows, email);
    if existing.Some? {
      return ErrorResponse(400, EmailTaken);
    }
    var user := userStore.CreateUser(email, passwordHash, NewUserRole, now);
    tokenStore.MarkTokenAsUsed(tokenValue, user.id, now);
    resp := Response(201, Registered(true, user.id, user.email, user.role));
  }

  /** Every refusal is a 400 that leaves both tables as they were; the only
      other answer is 201. */
  lemma RejectionChangesNothing(req: RegisterRequest, tokens: seq<TokenRow>, users: seq<User>,
                                nextUserId: int, now: int, passwordHash: string)
    ensures var o := RegisterStep(req, tokens, users, nextUserId, now, passwordHash);
      o.response.status in {201, 400}
      && (o.response.status == 400 ==> o.tokens == tokens && o.users == users && o.response.body.ErrorBody?)
  {
  }

  /** A registration succeeds exactly when the body is well formed, the token
      exists and is valid now, and the email is not taken. */
  lemma SuccessCondition(req: RegisterRequest, tokens: seq<TokenRow>, users: seq<User>,
                         nextUserId: int, now: int, passwordHash: string)
    ensures RegisterStep(req, tokens, users, nextUserId, now, passwordHash).response.status == 201 <==>
      && WellFormedRequest(req)
      && FindToken(tokens, req.token.value).Some?
      && IsTokenValid(FindToken(tokens, req.token.value).value, now)
      && FindUserByEmail(users, req.email.value).None?
  {
  }

  /** On success the new user is an ordinary user with the next id and the
      submitted email; the token row now records that user as its consumer,
      and both tables stay well formed. */
  lemma SuccessEffects(req: RegisterRequest, tokens: seq<TokenRow>, nextTokenId: int, users: seq<User>,
                       nextUserId: int, now: int, passwordHash: string)
    requires WellFormedTokens(tokens, nextTokenId) && WellFormedUsers(users, nextUserId)
    requires RegisterStep(req, tokens, users, nextUserId, now, passwordHash).response.status == 201
    ensures var o := RegisterStep(req, tokens, users, nextUserId, now, passwordHash);
      var u := NewUser(nextUserId, req.email.value, passwordHash, NewUserRole, now);
      && o.users == users + [u]
      && o.response.body == Registered(true, nextUserId, req.email.value, NewUserRole)
      && FindUserByEmail(o.users, req.email.value) == Some(u)
      && FindToken(o.tokens, req.token.value).Some?
      && FindToken(o.tokens, req.token.value).value == ConsumedRow(FindToken(tokens, req.token.value).value, nextUserId, now)
      && WellFormedTokens(o.tokens, nextTokenId)
      && WellFormedUsers(o.users, nextUserId + 1)
  {
    var o := RegisterStep(req, tokens, users, nextUserId, now, passwordHash);
    var u := NewUser(nextUserId, req.email.value, passwordHash, NewUserRole, now);
    FindAppendedUser(users, u);
    InsertUserWellFormed(users, nextUserId, u);
    MarkUsedConsumes(tokens, req.token.value, nextUserId, now);
    MarkUsedKeepsWellFormed(tokens, nextTokenId, req.token.value, nextUserId, now);
  }

  /** Registration never creates an administrator: every admin of the new
      table was already one before. */
  lemma NoAdminCreated(req: RegisterRequest, tokens: seq<TokenRow>, users: seq<User>,
                       nextUserId: int, now: int, passwordHash: string)
    ensures forall u | u in RegisterStep(req, tokens, users, nextUserId, now, passwordHash).users ::
      u.role == "admin" ==> u in users
  {
  }

  /** The order of the checks: each message is given exactly when every
      earlier check passed and this one failed. */
  lemma FirstFailureWins(req: RegisterRequest, tokens: seq<TokenRow>, users: seq<User>,
                         nextUserId: int, now: int, passwordHash: string)
    ensures var r := RegisterStep(req, tokens, users, nextUserId, now, passwordHash).response;
      && (r == ErrorResponse(400, FieldsRequired) <==> !HasFields(req))
      && (r == ErrorResponse(400, InvalidEmail) <==> HasFields(req) && !ValidateEmail(req.email.value))
      && (HasFields(req) ==>
            (r == ErrorResponse(400, Join(PasswordErrors(req.password.value), ", "))
             <==> ValidateEmail(req.email.value) && PasswordErrors(req.password.value) != []))
      && (WellFormedRequest(req) ==>
            (r == ErrorResponse(400, InvalidToken) <==> FindToken(tokens, req.token.value).None?))
      && (WellFormedRequest(req) && FindToken(tokens, req.token.value).Some? ==>
            (r == ErrorResponse(400, if FindToken(tokens, req.token.value).value.used then AlreadyUsed else ExpiredMessage)
             <==> !IsTokenValid(FindToken(tokens, req.token.value).value, now)))
      && (WellFormedRequest(req) && FindToken(tokens, req.token.value).Some?
          && IsTokenValid(FindToken(tokens, req.token.value).value, now) ==>
            (r == ErrorResponse(400, EmailTaken) <==> FindUserByEmail(users, req.email.value).Some?))
  {
    if HasFields(req) && PasswordErrors(req.password.value) != [] {
      JoinedPasswordErrors(req.password.value);
    }
  }

  /** The password message is never one of the fixed messages of the other
      checks, so the checks cannot be confused by the text they return. */
  lemma JoinedPasswordErrors(p: string)
    requires PasswordErrors(p) != []
    ensures var m := Join(PasswordErrors(p), ", ");
      m != FieldsRequired && m != InvalidEmail && m != InvalidToken
      && m != AlreadyUsed && m != ExpiredMessage && m != EmailTaken
  {
    var e := PasswordErrors(p);
    var m := Join(e, ", ");
    assert m[0] == 'P' by {
      assert e[0] in {LengthError, LetterError, NumberError};
      if |e| > 1 {
        assert m == e[0] + ", " + Join(e[1..], ", ");
      }
    }
  }

  /** A password whose only fault is its length is refused with that one
      message, "short1" for instance. */
  lemma PasswordMessages(p: string)
    requires Utf16Length(p) < MinPasswordLength && HasLetter(p) && HasDigit(p)
    ensures Join(PasswordErrors(p), ", ") == LengthError
    ensures Join(PasswordErrors("short1"), ", ") == "Password must be at least 8 characters"
  {
    PasswordTooShort();
  }
}
