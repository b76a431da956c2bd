# Registration portal core, modelled in Dafny

This project models the server side of an invitation-only registration portal (a Next.js application):

- **Registration tokens.** An admin issues single-use registration tokens. A token is *active* until it is used or passes its expiry. It becomes *used* when someone registers with it, or *expired* when time alone passes it by.
- **Validation.** A public route tells the registration page whether a token is still valid. The password-strength and email-format validators decide which input is accepted.
- **Registration.** The registration route runs a fixed chain of checks. If they all pass, it creates an ordinary user and consumes the token.
- **Admin API.** The admin routes issue and list tokens and list users. They sit behind a guard that trusts the identity headers (`x-user-id`, `x-user-email`, `x-user-role`) a reverse proxy forwards. `/api/auth/me` echoes those headers back.

Modules:

- `Types`: the rows of the two tables and the records the routes return. Timestamps are integer milliseconds since the epoch.
- `JsText`: the pieces of JavaScript semantics the code relies on:
  - the `\s` class;
  - `Array.prototype.join`;
  - `String.prototype.length`, which counts UTF-16 code units: a character outside the Basic Multilingual Plane counts twice;
  - global `parseInt` without a radix: whitespace, sign, "0x" prefix and the digit run are handled as in JavaScript, but the result is the exact integer rather than a rounded Number. `None` stands for `NaN`.
- `Validation`: `validatePassword` as a method that pushes messages, proved against the function `PasswordErrors`. `validateEmail` is the regular expression written out, and it is proved equivalent to a rule-by-rule description of an address (`EmailShape`).
- `Users`: the user table, as far as the core uses it:
  - `queryUser` (lookup by email);
  - the LEFT JOIN on user ids;
  - the insert `createUser` performs, as the class `UserStore`.
- `Tokens`: the `registration_tokens` table. Each database function has a pure meaning on the rows (`FindToken`, `MarkUsed`, `DeleteUnused`, `Listing`), with lemmas about it. The class `TokenStore` holds the rows and a serial id counter, and its methods apply those meanings in place while keeping the table invariant `WellFormedTokens`.
- `Http`: request headers, JSON bodies and responses.
- `AdminAuth`: `requireAdmin` and `getUserFromHeaders`.
- One module per route:
  - `MeRoute`, `AdminUsersRoute` and `ValidateTokenRoute` are pure functions of the request and the tables.
  - `AdminTokensRoute` has a pure decision function. The POST handler is a method that inserts into the `TokenStore`.
  - `RegisterRoute` has an imperative `Register` method over both stores, proved equal to the pure step `RegisterStep`.
- `Lifecycle`: properties that span several routes over a token's life.

Inputs outside the program become parameters:

- the current time `now`;
- the random token string (`randomUUID`), which must not already be in the table;
- the result of `hashPassword`;
- the next serial user id;
- the environment variables `REGISTRATION_TOKEN_EXPIRY_DAYS` (already parsed) and `NEXT_PUBLIC_BASE_URL`.

Two behaviours of the code are worth knowing:

- **Consuming a token.** The UPDATE has no `used = false` condition, so a second marking overwrites `used_by` and `used_at` (`Tokens.MarkUsedTwice`).
- **Token lifetime.** A requested lifetime of 0 is falsy and falls through to the configured default, exactly like an absent one (`AdminTokensRoute.ExpiryDefaults`).

## Model

| member | source | states |
|---|---|---|
| JsText.ParseInt | Auth/src/lib/adminAuth.ts:52 | global `parseInt` with no radix; its behaviour is stated by the lemmas in the rows below |
| JsText.ParseIntDecimalString | Auth/src/lib/adminAuth.ts:52 | `parseInt` reads back every integer as `String(n)` writes it, so a numeric id forwarded in `x-user-id` is recovered; the model's integer is exact, which a JavaScript Number matches for ids below 2^53 |
| JsText.ParseIntHexPrefix | Auth/src/lib/adminAuth.ts:52 | `parseInt` with no radix reads a "0x" prefix as hexadecimal: "0x1A" gives 26 |
| JsText.ParseIntStopsAtNonDigit | Auth/src/lib/adminAuth.ts:52 | `parseInt` stops at the first non-digit: "12abc" gives 12 |
| JsText.ParseIntNaN | Auth/src/lib/adminAuth.ts:52 | `parseInt` of "abc" is NaN |
| JsText.ParseIntEmptyNaN | Auth/src/lib/adminAuth.ts:52 | `parseInt` of "" is NaN |
| JsText.ParseIntBarePrefixNaN | Auth/src/lib/adminAuth.ts:52 | `parseInt` of "0x", a hexadecimal prefix with no digits, is NaN |
| JsText.Join | Auth/src/app/api/auth/register/route.ts:38 | `errors.join(', ')`; `RegisterRoute.JoinedPasswordErrors` and `RegisterRoute.PasswordMessages` state what the joined message is |
| JsText.Utf16Length | Auth/src/lib/validation.ts:15 | `password.length` counts UTF-16 code units: at least one and at most two per character |
| JsText.Utf16LengthCounts | Auth/src/lib/validation.ts:15 | the length equals the number of characters iff none lies outside the Basic Multilingual Plane, and doubles it iff all do |
| Validation.PasswordErrors | Auth/src/lib/validation.ts:12-25 | the length message is present iff the password is shorter than 8 UTF-16 code units; the letter message iff it has no ASCII letter; the number message iff it has no digit; no other message occurs; the messages come in the fixed order length, letter, number, with no repeats; the list is empty iff all three rules hold |
| Validation.ValidatePassword | Auth/src/lib/validation.ts:12-31 | the message-pushing method yields exactly `PasswordErrors`, and `valid` holds iff that list is empty |
| Validation.PasswordTooShort | Auth/src/lib/validation.ts:15-17 | "short1" yields only the length message |
| Validation.PasswordWithoutLetter | Auth/src/lib/validation.ts:19-21 | "12345678" yields only the letter message |
| Validation.PasswordWithoutDigit | Auth/src/lib/validation.ts:23-25 | "abcdefgh" yields only the number message |
| Validation.PasswordAccepted | Auth/src/lib/validation.ts:27-30 | "abcd1234" yields no message, so it is valid |
| Validation.PasswordCountsSurrogates | Auth/src/lib/validation.ts:15-17 | "a1" followed by three emoji is eight code units, so it gets no length message and is valid |
| Validation.PasswordCountsBmpOnce | Auth/src/lib/validation.ts:15-17 | "a1éé" is four code units and gets only the length message |
| Validation.ValidateEmail | Auth/src/lib/validation.ts:36-38 | the pattern written out as three non-empty runs around '@' and '.'; `Validation.EmailCharacterization` states which addresses it accepts |
| Validation.EmailPatternHasShape | Auth/src/lib/validation.ts:36-38 | an address the pattern accepts has exactly one '@', no whitespace, a non-empty local part, and a domain with a '.' that is neither its first nor its last character |
| Validation.EmailShapeMatchesPattern | Auth/src/lib/validation.ts:36-38 | every address of that shape is accepted by the pattern |
| Validation.EmailCharacterization | Auth/src/lib/validation.ts:36-38 | the pattern accepts an address iff it has that shape |
| Validation.EmailExamples | Auth/src/lib/validation.ts:36-38 | "a@b.co" is accepted; "a@b", "a.com" and "@b.com" are rejected |
| Users.FindUserByEmail | Auth/src/lib/db.ts:18-25 | `queryUser` returns a row of the table holding that email, and returns nothing iff no row holds it |
| Users.EmailOfUser | Auth/src/lib/tokens.ts:90-91 | the LEFT JOIN yields the email of a row with that id, and yields nothing iff no row has that id |
| Users.InsertUserWellFormed | Auth/src/app/api/auth/register/route.ts:80 | inserting a user with a free email and the next id keeps the emails unique and the ids increasing and below the counter |
| Users.FindAppendedUser | Auth/src/app/api/auth/register/route.ts:80 | after the insert, `queryUser` of the new email finds the new row |
| Users.UserStore.CreateUser | Auth/src/app/api/auth/register/route.ts:80 | `createUser` appends exactly one row with the next id, the given email, hash and role, leaves the other rows alone and advances the counter |
| Tokens.IsTokenValid | Auth/src/lib/tokens.ts:118-120 | `isTokenValid`: unused and expiring after `now`; `Tokens.Matches` ties it to the active filter, `Tokens.NewTokenIsValid` and `ValidateTokenRoute.ValidityOnlyLapses` state how it changes with time |
| Tokens.Matches | Auth/src/lib/tokens.ts:70-82 | the `all` filter selects every row; `active` selects exactly the rows `isTokenValid` accepts; `used` selects the used rows; `expired` selects the unused rows that are not valid |
| Tokens.FiltersClassify | Auth/src/lib/tokens.ts:70-82 | every row passes exactly one of the `active`, `used` and `expired` filters |
| Tokens.FindToken | Auth/src/lib/tokens.ts:36-43 | `getTokenByValue` returns a row of the table with that value, and null iff no row has that value |
| Tokens.FindTokenUnique | Auth/src/lib/tokens.ts:36-43 | when token values are unique, looking up a row's value returns that very row |
| Tokens.InsertToken | Auth/src/lib/tokens.ts:21-28 | inserting a row with a fresh value and the next id keeps ids and values unique, and a lookup of the value then finds the new row |
| Tokens.NewTokenIsValid | Auth/src/lib/tokens.ts:14-19 | a token created for 1 to 365 days is valid at its creation time, and no longer valid at any time from its expiry instant (creation plus that many days) on |
| Tokens.MarkUsed | Auth/src/lib/tokens.ts:50-58 | the UPDATE of `markTokenAsUsed` on the rows, keeping their number; the `MarkUsed…` lemmas below state which rows and columns it changes |
| Tokens.MarkUsedAt | Auth/src/lib/tokens.ts:50-58 | the UPDATE sets `used`, `used_by` and `used_at` on the rows with that value, and changes no other row or column |
| Tokens.MarkUsedPointwise | Auth/src/lib/tokens.ts:50-58 | the same statement for every row at once |
| Tokens.MarkUnknownIsNoOp | Auth/src/lib/tokens.ts:50-58 | marking a value that no row holds leaves the table unchanged |
| Tokens.MarkUsedKeepsWellFormed | Auth/src/lib/tokens.ts:50-58 | marking keeps ids and values unique, and keeps `used_by`/`used_at` set exactly on the used rows |
| Tokens.MarkUsedConsumes | Auth/src/lib/tokens.ts:50-58 | afterwards a lookup finds the row used, by `usedBy`, at `now`; an unknown value is still not found |
| Tokens.MarkUsedTwice | Auth/src/lib/tokens.ts:53-55 | with no `used = false` condition, a second marking overwrites the first one's `used_by` and `used_at` |
| Tokens.DeleteUnused | Auth/src/lib/tokens.ts:104-111 | the DELETE of `deleteToken`, never growing the table; the `Delete…` lemmas below state exactly which rows go |
| Tokens.DeleteUnusedMembers | Auth/src/lib/tokens.ts:104-111 | the DELETE keeps exactly the rows that do not have the id or are used |
| Tokens.DeleteNothing | Auth/src/lib/tokens.ts:104-111 | when no unused row has the id, the table is unchanged |
| Tokens.DeleteExactlyOne | Auth/src/lib/tokens.ts:104-111 | with unique ids, deleting an unused row removes exactly that row and keeps the order of the rest |
| Tokens.DeleteKeepsWellFormed | Auth/src/lib/tokens.ts:104-111 | deleting keeps the table invariant |
| Tokens.Select | Auth/src/lib/tokens.ts:70-92 | the WHERE clause of `listTokens`, never growing the table; `Tokens.SelectMembers` and `Tokens.FiltersPartitionTable` state what it keeps |
| Tokens.SelectMembers | Auth/src/lib/tokens.ts:70-92 | the WHERE clause keeps exactly the rows of the table that match the filter |
| Tokens.FiltersPartitionTable | Auth/src/lib/tokens.ts:70-82 | the `active`, `used` and `expired` selections together hold every row exactly once, and `all` selects the whole table |
| Tokens.InsertByAgeSorted | Auth/src/lib/tokens.ts:93 | inserting a row into a newest-first list keeps it newest first |
| Tokens.SortNewestFirst | Auth/src/lib/tokens.ts:93 | `ORDER BY created_at DESC` yields a newest-first permutation of its input |
| Tokens.ListRows | Auth/src/lib/tokens.ts:84-96 | the listed rows are newest first, a permutation of the selected rows, and are exactly the table's rows that match the filter |
| Tokens.ToSafe | Auth/src/lib/tokens.ts:84-91 | the SELECT list with both LEFT JOINs: the row's columns, the issuer's email and, for a used token, the consumer's email, each looked up with `Users.EmailOfUser` |
| Tokens.Listing | Auth/src/lib/tokens.ts:70-96 | the whole query of `listTokens`: selection, order and joined emails; `Tokens.ListingSpec` and `Tokens.ListingClasses` state its properties |
| Tokens.ListingSpec | Auth/src/lib/tokens.ts:84-96 | `listTokens` has one entry per selected row, newest first; entry i is the i-th listed row, a matching row of the table, with the emails joined in; every matching row of the table is listed |
| Tokens.ListingClasses | Auth/src/lib/tokens.ts:70-96 | the active listing holds only unused, unexpired tokens; the used listing only used ones; the expired listing only unused, expired ones |
| Tokens.TokenStore.CreateToken | Auth/src/lib/tokens.ts:12-28 | `createToken` appends exactly one row with the next id, the given issuer and value, unused, expiring `expiresInDays` days (7 by default) after `now`; it leaves the other rows alone and keeps the table invariant |
| Tokens.TokenStore.MarkTokenAsUsed | Auth/src/lib/tokens.ts:50-58 | the table becomes `MarkUsed` of the old one: the matching row is consumed, and an unknown value changes nothing |
| Tokens.TokenStore.ListTokens | Auth/src/lib/tokens.ts:65-97 | returns `Listing` of the table for the filter (`active` by default): one entry per matching row, newest first, entry i the joined view of the i-th listed row, which is a matching row of the table, and every matching row listed |
| Tokens.TokenStore.DeleteToken | Auth/src/lib/tokens.ts:104-111 | returns true iff an unused row has the id; removes exactly that row and never a used one; otherwise the table is unchanged |
| AdminAuth.RequireAdmin | Auth/src/lib/adminAuth.ts:16-35 | passes iff the id header is non-empty and the role header is exactly "admin"; a missing or empty id or role gives 401 "Not authenticated", ahead of the role check; any other role gives 403 |
| AdminAuth.GetUserFromHeaders | Auth/src/lib/adminAuth.ts:42-56 | null iff any of the three headers is missing or empty; otherwise email and role are copied unchanged and the id is `parseInt` of the id header |
| AdminAuth.GuardIgnoresEmail | Auth/src/lib/adminAuth.ts:27-34 | the guard's verdict does not depend on the email header, and the role "Admin" is refused with 403 (the comparison is case-sensitive) |
| AdminAuth.GuardAndIdentity | Auth/src/lib/adminAuth.ts:34-49 | when the guard passes, an identity is found iff the email header is present, and its role is then "admin" |
| AdminAuth.ForwardedIdentity | Auth/src/lib/adminAuth.ts:47-55 | headers carrying a decimal id, an email and a role give back exactly that id, email and role |
| MeRoute.Me | Auth/src/app/api/auth/me/route.ts:3-25 | answers 200 with the identity iff `getUserFromHeaders` yields one, and that very identity; otherwise 401 "Not authenticated" |
| MeRoute.MeEchoesForwardedIdentity | Auth/src/app/api/auth/me/route.ts:18-24 | `/me` reports exactly the id, email and role the proxy forwarded |
| AdminUsersRoute.ListUsers | Auth/src/app/api/admin/users/route.ts:11-28 | a refused request gets the guard's response; otherwise 200 with one entry per user in the same order, each copying id, email, role and both timestamps |
| AdminUsersRoute.HashesNeverListed | Auth/src/app/api/admin/users/route.ts:19-28 | tables that differ only in password hashes give the same response, so no hash reaches it; a refused response does not depend on the table |
| ValidateTokenRoute.ValidateToken | Auth/src/app/api/auth/validate-token/route.ts:10-56 | 400 iff the parameter is missing or empty, otherwise 200; `valid` is true iff a row with that value exists and `isTokenValid` holds for it; a reason is given iff invalid; an unknown token is reported as "Invalid registration token" |
| ValidateTokenRoute.UsedReportedBeforeExpired | Auth/src/app/api/auth/validate-token/route.ts:35-50 | a used token is reported as used even when it has also expired; an unused token past its expiry is reported as expired |
| ValidateTokenRoute.ValidityOnlyLapses | Auth/src/app/api/auth/validate-token/route.ts:44-56 | on an unchanged table, a token valid at a later time was valid at every earlier time |
| AdminTokensRoute.EffectiveExpiryDays | Auth/src/app/api/admin/tokens/route.ts:23 | `expiresInDays || default || 7`; `AdminTokensRoute.ExpiryDefaults` states each case |
| AdminTokensRoute.PlanIssue | Auth/src/app/api/admin/tokens/route.ts:11-34 | a refused guard returns its response; a token is issued iff the guard passes, the identity headers are present with a numeric id, and the effective lifetime is within 1..365; the issuer is the header id |
| AdminTokensRoute.AdminWithoutEmail | Auth/src/app/api/admin/tokens/route.ts:16-19 | a request that passes the guard but lacks the email header gets 401 "User not found" |
| AdminTokensRoute.ExpiryDefaults | Auth/src/app/api/admin/tokens/route.ts:23-31 | an absent or zero requested lifetime falls through to the configured default when there is one (and that default is used when in range), and gives 7 days when there is none; an effective lifetime outside 1..365 gives 400; an in-range requested lifetime is used as given |
| AdminTokensRoute.RegistrationUrl | Auth/src/app/api/admin/tokens/route.ts:37-38 | the link is the base URL (by default "http://localhost:3010"), then "/register?token=", then the token |
| AdminTokensRoute.IssueToken | Auth/src/app/api/admin/tokens/route.ts:11-46 | a refused request changes nothing and returns the refusal; otherwise exactly one new row is appended, and the answer is 201 with the token, its expiry and its registration URL |
| AdminTokensRoute.ParseFilter | Auth/src/app/api/admin/tokens/route.ts:70 | a filter name is accepted iff it is one of all, active, used, expired, and each of those names yields the filter of the same name |
| AdminTokensRoute.ListTokensResponse | Auth/src/app/api/admin/tokens/route.ts:60-79 | a refused guard returns its response; a missing or empty filter lists the active tokens; an unknown filter gives 400; otherwise 200 with `listTokens` of that filter |
| AdminTokensRoute.IssuedTokenIsListed | Auth/src/app/api/admin/tokens/route.ts:60-79 | a freshly issued token appears in the default listing |
| RegisterRoute.RegisterStep | Auth/src/app/api/auth/register/route.ts:19-95 | the handler as a pure step on both tables; `RegisterRoute.SuccessCondition`, `RegisterRoute.FirstFailureWins`, `RegisterRoute.SuccessEffects` and `RegisterRoute.RejectionChangesNothing` state what it does |
| RegisterRoute.Register | Auth/src/app/api/auth/register/route.ts:13-95 | the handler's answer and the new contents of both tables are exactly those of `RegisterStep`; the user counter advances only on success |
| RegisterRoute.RejectionChangesNothing | Auth/src/app/api/auth/register/route.ts:19-74 | every answer is 201 or 400, and a 400 leaves both tables unchanged |
| RegisterRoute.SuccessCondition | Auth/src/app/api/auth/register/route.ts:19-95 | registration succeeds iff all fields are present, the email and password pass, the token exists and is valid now, and the email is not registered |
| RegisterRoute.SuccessEffects | Auth/src/app/api/auth/register/route.ts:76-95 | on success exactly one user is appended, with the next id, the submitted email and role "user"; the token row is marked used by that id at `now`; the answer carries that id, email and role; both tables stay well formed |
| RegisterRoute.NoAdminCreated | Auth/src/app/api/auth/register/route.ts:80 | registration never creates an administrator |
| RegisterRoute.FirstFailureWins | Auth/src/app/api/auth/register/route.ts:19-74 | each refusal message, the joined password message and the used/expired message included, is given if and only if every earlier check passed and this one failed, in the order: fields, email, password, token exists, token valid (used before expired), email unused |
| RegisterRoute.JoinedPasswordErrors | Auth/src/app/api/auth/register/route.ts:35-41 | the joined password message cannot be mistaken for any other refusal message |
| RegisterRoute.PasswordMessages | Auth/src/app/api/auth/register/route.ts:35-41 | a password whose only fault is its length (shorter than 8 code units, with a letter and a digit) is refused with just the length message; "short1" is one such password |
| Lifecycle.RegisterAgreesWithValidation | Auth/src/app/api/auth/register/route.ts:44-65 | for a well-formed request with a free email, registration succeeds iff validate-token says valid, and otherwise refuses with validate-token's reason |
| Lifecycle.TokenIsSingleUse | Auth/src/app/api/auth/register/route.ts:53-83 | after a successful registration, any later well-formed request with the same token is refused as already used, and validate-token reports it used |
| Lifecycle.IssuedTokenRegistersUntilExpiry | Auth/src/app/api/admin/tokens/route.ts:23-34 | a token just issued for 1..365 days validates at once, and allows registration exactly until its expiry; from then on it is refused as expired |

## Left out

- JWT signing and verification (`Auth/src/lib/auth.ts` and the verify route): a call into a cryptographic library, with wall-clock expiry.
- The connection pool and raw SQL in `Auth/src/lib/db.ts`. The user table is an in-memory sequence.
- `createUser`, `getAllUsers` and `hashPassword` are not part of this model:
  - `createUser` becomes an append with the next serial id, with both timestamps set to the insertion time;
  - `getAllUsers` becomes the sequence it returns;
  - `hashPassword` becomes a parameter.
- `randomUUID()` becomes a parameter, which must be absent from the table.
- `new Date()` and `NOW()` become the parameter `now`.
- The calendar and daylight-saving behaviour of `setDate` is not modelled: a day is a fixed 86 400 000 ms.
- JavaScript number quirks:
  - JsText.ParseInt returns the exact integer: the rounding of a Number above 2^53 (`parseInt("9007199254740993")` is 9007199254740992), Infinity for a very long numeral and `-0` for "-0" are not modelled;
  - a fractional `expiresInDays`;
  - a non-numeric body value;
  - a `NaN` produced by parsing the environment variable (it would slip past the range check), because the configured default is taken as an already-parsed integer.
- AdminTokensRoute.PlanIssue: the 500 for a `NaN` user id assumes the database refuses the insert. No other failure of the database inside a `try` block (a 500 answer) is modelled.
- Concurrency. Two registrations racing between the token lookup and the marking can both succeed. The model is sequential and does not claim atomic consumption.
- The PATCH/DELETE handlers for single users and for single tokens, and their self-protection rules: not part of the core.
- The React pages and components, layouts and logout. Parsing JSON bodies and serialising responses is not modelled: bodies are datatypes.
- Tokens.Listing: `ORDER BY created_at DESC` leaves rows with equal `created_at` in an unspecified order; the model lists such ties in table order. The proved properties (`Tokens.ListingSpec`) state only the order by `created_at` and membership, so they do not depend on it.
- A JavaScript string may hold a lone surrogate (for instance from the JSON text `"\ud800"`), which `password.length` counts as one unit and `[^\s@]` accepts. A Dafny `string` holds only Unicode scalar values, so the model cannot represent such input.
- Tokens.ToSafe: every joined email is typed as possibly missing. That is what a LEFT JOIN can yield, even though the declared TypeScript type says the issuer's email is always there.
