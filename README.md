# Authentication core of backend-nodejs, in Dafny

This project models the authentication core of a small Node.js HTTP back end and
the utilities around it, and proves properties of that model. Each module follows
one source file:

- `Session` (api/auth/services/session.ts): the session store. It keeps three maps:
  sessions keyed by `sha256(sid)`, the users' roles, and reset tokens keyed by
  `sha256(token)`. The class `SessionService` owns them. Each method (`create`,
  `validate`, `invalidate`, `invalidateAll`, `resetToken`, `validateToken`) is
  proved equal to a pure transition function. Lemmas over runs of those
  transitions show three things: expiry never decreases; revocation is terminal;
  a reset token succeeds at most once.
- `Auth` (api/auth/middleware/auth.ts):
  - the role order `roleCheck`;
  - the `guard` middleware, with its fixed order of effects (cache headers, cookie
    read, validation, cookie forwarding, then 401, 403 or the attached session);
  - the `optional` middleware.
- `Http` (core/http/custom-response.ts): the response object's `status`,
  `setCookie` (append to the `Set-Cookie` list) and the content-type side of `json`.
- `Cookies` (core/utils/parse-cookies.ts): the `Cookie` header parser. It is a loop
  that fills a map. The model proves that parsing a `; `-joined list of clean pairs
  gives back the pairs, with the later of two equal names winning.
- `Validate` (core/utils/validate.ts): the input validators `string`, `boolean`,
  `object`, `email`, `password` and `file`, and the `required` wrapper (an error
  with status 422).
- `RateLimit` (core/middleware/rate-limit.ts): the fixed-window limiter as a class
  holding its per-key map of entries. Lemmas prove that exactly `max` calls per
  window pass.
- `Router` (core/router.ts): route registration per HTTP method, with the key order
  of JavaScript objects. `find` is a loop, proved equal to a functional
  specification: an exact path first, then the first `:param` pattern in key order.
- `PasswordFormat`, `Password` (api/auth/utils/password.ts):
  - the stored-hash format `scrypt$v=1$norm=…$N=…,r=…,p=…$<salt hex>$<key hex>`;
  - its parser, with a round-trip proof;
  - the decision logic of `verify`: it fails closed, checks the length first, then
    compares the whole key.
- `CryptoScript` (crypto.ts): the stand-alone script with the same format. Its
  verifier has no try/catch: where it throws, the model returns an `Err`.
- `Text` and `Wrappers`: the JavaScript string operations the sources use (`split`
  on one character, `trim`, `indexOf`, `replace`, decimal printing), plus
  `Option`/`Result`.

The primitives are parameters, not definitions:

- `sha256`, HMAC-SHA256 (RFC 2104), scrypt (RFC 7914) and Unicode normalisation are
  arrow-typed fields or arguments.
- Where a proof needs `sha256` to be injective, that is a precondition of the lemma.
- The clock (`Date.now()`) and the random bytes (session ids, reset tokens, salts)
  are arguments.

Places where the code behaves differently than one might expect, which the model follows:

- `optional` sets the cache headers only when the session is valid. It does not set
  them before every check as `guard` does.
- A hex digit whose case changes in the stored key does not change `verify`'s
  answer, because Node's hex decoder reads both cases (`Password.KeyCaseIgnored`).
  Not every edit of the stored key field makes `verify` fail.
- A cookie named `__proto__` is dropped by the cookie parser, because its result
  is a `{}` literal whose `__proto__` setter ignores strings
  (`Cookies.ProtoPieceIgnored`).
- A logout whose revoke throws still returns the clearing cookie and leaves the
  session live (`Session.FailedLogoutKeepsSession`).
- The `password` rule checks its three character classes with `.*` lookaheads. `.`
  stops at line terminators, so the classes must all occur before the first line
  break (`Validate.PasswordSecondLineIgnored`). The length bound counts UTF-16 code
  units, not characters.
- `boolean` returns the accepted true-like input itself (`"on"`, `1`, …). Only the
  false-like inputs are normalised to `false`.

## Model

| member | source | states |
|---|---|---|
| Session.RevokeOne | api/auth/services/session.ts:55 | revoking one hash sets only that row's `revoked` flag, keeps every key, and is a no-op for an absent hash |
| Session.RenewedExpiry | api/auth/services/session.ts:61-65 | for a live session the new expiry is never earlier than the old one and lies in the future; it is `now + TTL` whenever `now >= expires - TTL` |
| Session.CreateSpec | api/auth/services/session.ts:26-37 | `create` adds exactly one live row under `sha256(sid)`, owned by the user and expiring `TTLSec*1000` ms after `now`; no other row, user or reset changes |
| Session.ValidateSpec | api/auth/services/session.ts:43-83 | valid iff the row exists, is not revoked, has not expired and its user exists; invalid results carry the clearing cookie and leave the row revoked; valid results carry the stored user, the role read from the user store and a cookie with `Max-Age = floor((expires - now)/1000)`; rows only advance and other rows do not change |
| Session.InvalidateSpec | api/auth/services/session.ts:85-94 | logout revokes the given session if present, changes nothing for an absent or empty sid or when the revoke throws (the empty `catch`), and touches no other row |
| Session.InvalidateAllSpec | api/auth/services/session.ts:96-98 | all of the user's sessions are revoked and no other row changes |
| Session.ResetTokenSpec | api/auth/services/session.ts:100-111 | a reset row for the user under `sha256(token)` expiring in 30 minutes is added; sessions and other resets are unchanged |
| Session.ValidateTokenSpec | api/auth/services/session.ts:113-124 | succeeds iff the token's row exists and `now <= expires` (strict expiry); on success it returns the row's user, deletes exactly that user's reset rows, keeping every other user's, and revokes all their sessions; on failure nothing changes |
| Session.SessionService.constructor | api/auth/services/session.ts:19-24 | a service starts with no sessions and no resets over the given users |
| Session.SessionService.Create | api/auth/services/session.ts:26-37 | the store becomes `CreateSpec` of the old store and the returned cookie carries the plaintext sid with the default `Max-Age` |
| Session.SessionService.Validate | api/auth/services/session.ts:43-83 | result and new store are those of `ValidateSpec`: the early returns for absent/revoked, expired, renewal and missing user in the source's order |
| Session.SessionService.Invalidate | api/auth/services/session.ts:85-94 | the store becomes `InvalidateSpec` of the old one and the clearing cookie is always returned, also when the revoke throws |
| Session.SessionService.InvalidateAll | api/auth/services/session.ts:96-98 | the store becomes `InvalidateAllSpec` of the old one |
| Session.SessionService.ResetToken | api/auth/services/session.ts:100-111 | the store becomes `ResetTokenSpec` of the old one and the plaintext token is returned |
| Session.SessionService.ValidateToken | api/auth/services/session.ts:113-124 | result and new store are those of `ValidateTokenSpec` |
| Session.StepAdvances | api/auth/services/session.ts:53-65 | one operation that does not re-create a session keeps its row and only advances it (expiry never decreases, revoked stays revoked, owner fixed) |
| Session.RunAdvances | api/auth/services/session.ts:53-65 | the same over any sequence of operations |
| Session.RevocationTerminal | api/auth/services/session.ts:46-52 | once revoked, a session never validates again after any run that does not log in with the same sid, and validating it changes nothing |
| Session.ExpiryBoundary | api/auth/services/session.ts:53-60 | a session is valid at `expires - 1`, invalid at `expires`, and invalid at every later time after that |
| Session.RenewalAlwaysTaken | api/auth/services/session.ts:61-65 | because the renewal window equals the TTL, every valid validation of a row written no later than `now` renews to `now + TTL` and sends `Max-Age=TTLSec` |
| Session.StepWrittenBy | api/auth/services/session.ts:61-65 | rows written no later than `t` stay written no later than each later event's time |
| Session.RunWrittenBy | api/auth/services/session.ts:61-65 | the same over a time-ordered run |
| Session.LogoutRejects | api/auth/services/session.ts:85-94 | after a logout whose revoke succeeds, the session no longer validates |
| Session.FailedLogoutKeepsSession | api/auth/services/session.ts:87-92 | after a logout whose revoke throws, every session validates exactly as before: the cookie is cleared but the session stays live |
| Session.InvalidateAllRejects | api/auth/services/session.ts:96-98 | after `invalidateAll(uid)` no session of `uid` validates |
| Session.StepKeepsConsumed | api/auth/services/session.ts:121-122 | a deleted reset row does not come back through an operation that does not issue the same token |
| Session.ConsumedStaysConsumed | api/auth/services/session.ts:121-122 | the same over any run |
| Session.ResetAtMostOnce | api/auth/services/session.ts:113-124 | after a successful `validateToken`, the same token never succeeds again unless it is re-issued |
| Session.ConsumeRevokesSessions | api/auth/services/session.ts:121 | a successful reset revokes every session of that user |
| Auth.RoleCheck | api/auth/middleware/auth.ts:27-38 | `admin` satisfies every role, otherwise a known role satisfies exactly the known roles ranked at or below it (`user` < `editor`), and an unknown user role satisfies nothing |
| Auth.RoleCheckIsPartialOrder | api/auth/middleware/auth.ts:28-37 | the role check is reflexive on known roles, transitive and antisymmetric |
| Auth.GuardSpec | api/auth/middleware/auth.ts:11-25 | cache headers on every outcome; no cookie gives 401 with no store effect; otherwise validation runs and its cookie is forwarded; invalid gives 401, an insufficient role 403, and a valid session of sufficient role gives `Next` with that session attached (and `Next` only then); the headers are the old ones with the cache headers set and the cookie appended to `Set-Cookie`; a rejection leaves the attached session unchanged |
| Auth.OptionalSpec | api/auth/middleware/auth.ts:40-49 | never rejects; without a cookie nothing changes; otherwise the cookie is appended to the old `Set-Cookie` list with every other header kept, and the session and cache headers are added only when it is valid |
| Auth.ForwardedHeaders | api/auth/middleware/auth.ts:11-25 | setting the cache headers and forwarding a cookie, in either order, sets `Cache-Control` and `Vary`, appends the cookie after the prior `Set-Cookie` entries and keeps every other header |
| Auth.GuardRoleOutcomes | api/auth/middleware/auth.ts:20-23 | for a valid session: requiring `admin` of a `user` gives 403, requiring `user` of any known role passes, an unknown role always gives 403 |
| Auth.SidCookieNameValue | api/auth/services/session.ts:39-41 | the first `;` piece of an issued session cookie is `__Secure-sid=<sid>` |
| Auth.NameValueReadBack | api/auth/middleware/auth.ts:16 | parsing `__Secure-sid=<sid>` as a Cookie header yields that sid for the guard |
| Auth.IssuedCookieReadBack | api/auth/middleware/auth.ts:16 | a sid issued in a session cookie is read back by the guard from the cookie's name-value part |
| Auth.AuthMiddleware.constructor | api/auth/middleware/auth.ts:8-9 | the middleware holds the given session service |
| Auth.AuthMiddleware.Guard | api/auth/middleware/auth.ts:11-25 | the outcome, new store, headers and attached session are those of `GuardSpec` |
| Auth.AuthMiddleware.Optional | api/auth/middleware/auth.ts:40-49 | the outcome, new store, headers and attached session are those of `OptionalSpec` |
| Http.AppendCookie | core/http/custom-response.ts:25-37 | the new `Set-Cookie` list is the prior list (empty when absent or falsy, one string for a scalar) followed by the cookie |
| Http.AppendCookieTwice | core/http/custom-response.ts:31-35 | two appends keep the prior entries in order followed by both cookies |
| Http.Response.constructor | core/http/custom-response.ts:9-10 | a response starts with status 200 and no headers |
| Http.Response.SetHeader | core/http/custom-response.ts:18 | setting a header replaces that one header and no other |
| Http.Response.Status | core/http/custom-response.ts:11-14 | `status(c)` sets the status code and returns the same object |
| Http.Response.Json | core/http/custom-response.ts:16-23 | `json` sets `Content-Type: text/json` and changes no other header |
| Http.Response.SetCookie | core/http/custom-response.ts:25-37 | `Set-Cookie` becomes the appended list and no other header changes |
| Cookies.AddPieceKeys | core/utils/parse-cookies.ts:8-19 | one piece adds at most its own non-empty, trimmed key, never `__proto__`; every other cookie keeps its value |
| Cookies.FoldPiecesKeys | core/utils/parse-cookies.ts:6-20 | every parsed key is non-empty, trimmed and not `__proto__` |
| Cookies.ParseCookie | core/utils/parse-cookies.ts:3-22 | the loop computes the header's cookie map (empty for an absent or empty header) and every key is non-empty, trimmed and not `__proto__` |
| Cookies.PieceWithoutEquals | core/utils/parse-cookies.ts:11-19 | a piece with no `=` maps its trimmed text to the empty value, unless that text is `__proto__` |
| Cookies.ProtoPieceIgnored | core/utils/parse-cookies.ts:4-19 | a `__proto__=v` piece changes nothing: assigning a string to `__proto__` of a `{}` literal hits the prototype setter, which ignores it |
| Cookies.PairTextParts | core/utils/parse-cookies.ts:10-16 | a clean `k=v` piece splits at its first `=` into exactly `k` and `v` |
| Cookies.TrimSpacePrefix | core/utils/parse-cookies.ts:8 | leading white space does not change a trimmed piece |
| Cookies.AddCleanPiece | core/utils/parse-cookies.ts:8-19 | a clean pair after white space sets exactly its key to its value |
| Cookies.FoldPiecesSnoc | core/utils/parse-cookies.ts:7-20 | the loop handles pieces left to right, each on the result of the previous ones |
| Cookies.SerializeOne | core/utils/parse-cookies.ts:6-19 | one clean pair reads back as itself |
| Cookies.FoldSerialize | core/utils/parse-cookies.ts:6-20 | the pieces of a `; `-joined list of clean pairs fold to the pairs' map, later duplicates winning |
| Cookies.ParseSerialize | core/utils/parse-cookies.ts:3-22 | parsing a `; `-joined list of clean pairs (names other than `__proto__`) gives back the pairs' map (round trip) |
| Validate.AsString | core/utils/validate.ts:4-9 | accepts exactly the strings that are not all white space, returning a non-empty trimmed string no longer than the input |
| Validate.AsStringIdempotent | core/utils/validate.ts:4-9 | applying `string` to its own result gives the same result |
| Validate.AsBoolean | core/utils/validate.ts:24-32 | accepts exactly the ten listed inputs; true-like inputs are returned unchanged, false-like ones as `false` |
| Validate.AsBooleanTruthy | core/utils/validate.ts:24-32 | an accepted result is truthy exactly when the input was true-like |
| Validate.AsObject | core/utils/validate.ts:35-40 | accepts exactly plain objects (not null, undefined, arrays or primitives) and returns them unchanged |
| Validate.ToLower | core/utils/validate.ts:45 | lowercasing keeps the length and maps each upper-case letter to its lower-case letter |
| Validate.EmailMatchParts | core/utils/validate.ts:42 | a matching address splits at its `@` and the next `.` into a local part without `@`, a domain without `@` or `.`, and a top-level domain of at least two letters |
| Validate.PartsEmailMatch | core/utils/validate.ts:42 | any such three parts form a matching address (the other direction) |
| Validate.AsEmail | core/utils/validate.ts:44-48 | accepts exactly the inputs whose trimmed, lower-cased text matches the pattern, and returns that text |
| Validate.Utf16Length | core/utils/validate.ts:54 | the JavaScript length lies between the number of characters and twice that |
| Validate.Utf16LengthBmp | core/utils/validate.ts:54 | for text without astral characters the JavaScript length is the number of characters |
| Validate.FirstLine | core/utils/validate.ts:50 | the text the lookaheads scan is the longest prefix without a line terminator |
| Validate.FirstLineBreak | core/utils/validate.ts:50 | the scanned text stops at the first line terminator |
| Validate.FirstLineWhole | core/utils/validate.ts:50 | text without a line terminator is scanned whole |
| Validate.AsPassword | core/utils/validate.ts:52-56 | accepts exactly strings of JavaScript length 10 to 256 with a lower-case letter, an upper-case letter and a digit before the first line break, returned unchanged |
| Validate.PasswordSecondLineIgnored | core/utils/validate.ts:50-56 | `"Abcdefghij\n1"` is refused although it holds all three classes |
| Validate.PasswordOneLineAccepted | core/utils/validate.ts:52-56 | any one-line string of 10 to 256 characters with the three classes is accepted |
| Validate.AsFile | core/utils/validate.ts:68-72 | accepts exactly the names over `[A-Za-z0-9._-]` not starting with `.`, so never empty, `.`, `..` or containing `/` |
| Validate.Required | core/utils/validate.ts:60-66 | fails with status 422 and the given message exactly when the validator gives nothing, otherwise returns its value unchanged |
| Validate.RequiredKeepsFalse | core/utils/validate.ts:77 | the required boolean validator returns `false` for `false` and `"off"` rather than failing, and fails for `"yes"` |
| RateLimit.CeilDiv | core/middleware/rate-limit.ts:28-30 | `Math.ceil(a/b)` is the least `q` with `a <= b*q` |
| RateLimit.HandleEffects | core/middleware/rate-limit.ts:16-38 | only the caller's entry changes: a fresh window `{1, now+time}` when absent or expired, else one more hit; `RateLimit` carries `max(0, max-hits)` and the ceiling of the seconds left, `RateLimit-Policy` carries `max` and the window in seconds; 429 with `Retry-After` iff `hits > max` |
| RateLimit.WindowHits | core/middleware/rate-limit.ts:19-27 | within one window the entry after `n` calls is `{n, first call + time}` |
| RateLimit.WindowPassesFirstMax | core/middleware/rate-limit.ts:33-36 | within one window the `i`-th call passes iff `i < max`: exactly `max` calls pass |
| RateLimit.NewWindowPasses | core/middleware/rate-limit.ts:20-26 | the first call after a window expires passes whatever came before |
| RateLimit.RateLimiter.constructor | core/middleware/rate-limit.ts:10-16 | a limiter starts with no entries |
| RateLimit.RateLimiter.Hit | core/middleware/rate-limit.ts:18-27 | the caller's entry becomes `Advance` of the old table (a fresh `{0, now+time}` window when absent or expired, then one more hit) and no other entry changes |
| RateLimit.RateLimiter.Handle | core/middleware/rate-limit.ts:16-38 | the new entries, headers and outcome are those of `HandleSpec` |
| Router.Register | core/router.ts:34-72 | registering keeps the table valid, sets exactly that route's entry, and adds the route at the end of the key order only if it is new |
| Router.NonEmpty | core/router.ts:84 | keeps exactly the non-empty pieces (a piece is in the result iff it is a non-empty piece of the input) and keeps an input without empty pieces whole |
| Router.Segments | core/router.ts:84 | path segments are non-empty and hold no `/` |
| Router.SegmentsOfPath | core/router.ts:84 | the path `/` + segments joined by `/` splits back into exactly those segments, in order |
| Router.MatchRouteIff | core/router.ts:84-102 | a pattern route matches iff it holds `:`, has as many segments as the request, shares its first segment, and every literal segment is equal |
| Router.BindIff | core/router.ts:93-101 | binding succeeds iff every literal segment equals the request's |
| Router.BindValues | core/router.ts:96-97 | a `:name` segment binds `name` to the request segment in its place |
| Router.FirstMatchIsFirst | core/router.ts:85-105 | the first pattern in key order that matches is the one returned |
| Router.FirstMatchNone | core/router.ts:103-108 | no route is returned iff no pattern matches |
| Router.BindPrefixNone | core/router.ts:98-101 | once a literal segment differs, the route is rejected whatever follows |
| Router.RegisterThenFind | core/router.ts:81-82 | after registering a path, finding that exact path returns the new entry with no parameters |
| Router.RegisterOtherMethod | core/router.ts:79-82 | registering under one method changes nothing that `find` answers for another method |
| Router.Router.constructor | core/router.ts:23-32 | a router starts with the five empty method tables and no middlewares |
| Router.Router.Add | core/router.ts:34-72 | registration under a known method replaces only that method's table by `Register` of it |
| Router.Router.Get | core/router.ts:34-40 | `get` registers under `GET` only |
| Router.Router.Put | core/router.ts:42-48 | `put` registers under `PUT` only |
| Router.Router.Delete | core/router.ts:50-56 | `delete` registers under `DELETE` only |
| Router.Router.Head | core/router.ts:58-64 | `head` registers under `HEAD` only |
| Router.Router.Post | core/router.ts:66-72 | `post` registers under `POST` only |
| Router.Router.Use | core/router.ts:74-76 | `use` appends the middlewares, in order, after the existing ones |
| Router.Router.Find | core/router.ts:78-109 | the loop returns what the specification returns: nothing for an unknown method, the exact path with empty parameters, else the first matching pattern in key order with its bindings |
| Router.BindParams | core/router.ts:91-102 | the inner loop succeeds iff binding succeeds, and then returns exactly the bindings |
| PasswordFormat.ParseForm | api/auth/utils/password.ts:79 | a stored form name is accepted iff it is the name of one of the four normalisation forms |
| PasswordFormat.Hex | api/auth/utils/password.ts:49 | hex text has two lower-case hex digits per byte |
| PasswordFormat.HexDecode | api/auth/utils/password.ts:56-57 | decoding yields at most one byte per two characters |
| PasswordFormat.HexRoundTrip | api/auth/utils/password.ts:49-57 | decoding the hex text of bytes gives back those bytes |
| PasswordFormat.HexDecodeSameValue | api/auth/utils/password.ts:56-57 | replacing a hex digit by one of the same value (other case) does not change the decoded bytes |
| PasswordFormat.AddOption | api/auth/utils/password.ts:59-66 | each `k=v` piece sets exactly the key before its first `=` (see "Left out" for `__proto__`) |
| PasswordFormat.OptionPair | api/auth/utils/password.ts:59-66 | a piece `k=<digits>` sets `k` to that number |
| PasswordFormat.OptionsRoundTrip | api/auth/utils/password.ts:59-66 | parsing `N=…,r=…,p=…` gives back the three numbers under `N`, `r`, `p` |
| PasswordFormat.Parse | api/auth/utils/password.ts:53-73 | parsing fails exactly when the text has fewer than six `$` fields |
| PasswordFormat.ShortHashFails | api/auth/utils/password.ts:54-55 | text without `$` does not parse |
| PasswordFormat.EncodeSplits | api/auth/utils/password.ts:47-50 | an encoding splits on `$` into exactly its six fields |
| PasswordFormat.ParseEncode | api/auth/utils/password.ts:47-73 | parsing an encoding gives back the form name, `N`, `r`, `p`, the salt bytes and the key bytes |
| PasswordFormat.DiffBitsZero | api/auth/utils/password.ts:90 | the OR of the XORs of all byte pairs is zero iff the keys are equal |
| PasswordFormat.TimingSafeEqual | api/auth/utils/password.ts:90 | the full-length compare without early exit answers exactly whether the keys are equal |
| Password.CostText | api/auth/utils/password.ts:24-26 | the default cost parameters print as `N=16384,r=8,p=1` |
| Password.DefaultFields | api/auth/utils/password.ts:22-29 | the default fields are `scrypt`, `v=1`, `norm=NFC`, `N=16384,r=8,p=1`, salt hex, key hex |
| Password.HashShape | api/auth/utils/password.ts:47-50 | a hash splits into those six fields, with 32 hex digits of salt and two hex digits per key byte |
| Password.HashParses | api/auth/utils/password.ts:35-73 | parsing a hash gives back the default options, `NFC`, the derived key and the salt |
| Password.Verify | api/auth/utils/password.ts:75-94 | true iff the text parses, names a form, scrypt succeeds, and the derived key equals the stored key byte for byte; every failure is `false` |
| Password.VerifyUsesStoredParameters | api/auth/utils/password.ts:79-88 | a hash made with any form and any `N`, `r`, `p` verifies, since `verify` reads them from the text |
| Password.VerifyHash | api/auth/utils/password.ts:35-94 | a password verifies against its own hash |
| Password.VerifyOtherPassword | api/auth/utils/password.ts:75-94 | another password verifies against that hash iff it derives the same key |
| Password.MalformedNeverVerifies | api/auth/utils/password.ts:91-93 | text with fewer than six fields never verifies |
| Password.KeyCaseIgnored | api/auth/utils/password.ts:57 | changing the case of a hex letter in the key field does not change the answer |
| CryptoScript.HashPassword | crypto.ts:30-41 | the script's hash exists iff scrypt succeeds and parses back to the defaults, `NFC`, the derived key and the salt |
| CryptoScript.VerifyPassword | crypto.ts:65-75 | the script throws exactly when the text has fewer than six fields, names no normalisation form, or scrypt fails; text that parses never gives the malformed-hash error |
| CryptoScript.ScriptAgreesWithVerify | crypto.ts:65-75 | where the script answers it agrees with `Password.verify`, and where it throws `Password.verify` says `false` |
| CryptoScript.ShortHashThrows | crypto.ts:43-48 | text with fewer than six fields makes the script throw |
| CryptoScript.VerifyAgainstHash | crypto.ts:65-75 | against a hash, a password verifies iff it derives the same key, and the script throws only if scrypt fails |
| CryptoScript.Demo | crypto.ts:77-81 | `P@ssw0rd` verifies against its hash and `12345678` does not, given distinct derived keys |
| Text.IndexOf | core/utils/parse-cookies.ts:10 | `indexOf` gives the first position of the character, or -1 exactly when it is absent |
| Text.Split | core/utils/parse-cookies.ts:6 | `split` gives at least one piece, none holding the separator, and joining them gives back the text |
| Text.SplitOfJoin | api/auth/utils/password.ts:54-55 | splitting joined separator-free pieces gives back the pieces |
| Text.Trim | core/utils/parse-cookies.ts:8 | `trim` leaves no white space at either end, is empty iff the text was all white space, and is no longer than the text |
| Text.TrimIdempotent | core/utils/validate.ts:5-6 | trimming twice is trimming once |
| Text.NatToString | api/auth/utils/password.ts:48 | decimal printing gives digits without a leading zero |
| Text.NatToStringRoundTrip | api/auth/utils/password.ts:48 | the printed digits read back as the number |
| Text.IndexOfSub | api/auth/utils/password.ts:58 | the search finds the first occurrence of the pattern, or -1 when there is none |
| Text.ReplaceFirstPrefix | api/auth/utils/password.ts:58 | removing the `norm=` prefix from `norm=<x>` gives `<x>` |

## Left out

- Cryptography: `sha256`, HMAC-SHA256, scrypt, random bytes and Unicode normalisation are parameters without definitions. Their outputs are not modelled.
- Timing: the constant-time property of `timingSafeEqual` cannot be stated. Only its answer is modelled, as a full-length compare.
- Clock: `Date.now()` is a parameter of each operation.
- Persistence: the SQL of the authentication queries (`AuthQuery`) is not part of this model. The store is three maps:
  - inserting overwrites an existing row with the same hash;
  - revoking an absent hash changes nothing;
  - `deleteReset(user)` deletes every reset row of that user.
- Store errors: only `invalidate` models a failing store (its revoke may throw; the empty `catch` swallows it). Elsewhere a query that throws reaches the caller: `create`, `resetToken` and `validateToken` are `async` and reject their promise, while `validate` and `invalidateAll` are synchronous and throw directly (so in `guard` the error escapes before `res.setCookie` runs). The model's store never fails in those operations, so neither path is modelled.
- Router.Bind: a route segment `:__proto__` binds `__proto__` in the model, whereas the source's `{}` parameter object sends it to the prototype setter, which ignores a string, so that parameter is lost there. Route patterns are written by the application, not by clients.
- PasswordFormat.AddOption: a `__proto__=v` options piece is stored under the key `__proto__` in the model, whereas the source's `{}` accumulator sends it to the prototype setter, which ignores a number. No stored hash that `hash` writes contains that key, and `verify` passes the options on to scrypt, so only the options map of such a hand-made hash differs.
- RateLimit.RateLimiter.Handle: the LRU cache's eviction (at most 200 entries, 30-minute TTL) is a foreign library and is not modelled. In the model an entry never disappears, so the proofs cover only runs in which the cache keeps the caller's entry.
- `validate.number` is left out: it relies on floating-point parsing and `isFinite`.
- Number parsing: the scrypt cost parameters are read as natural-number numerals; `""` reads as 0. Every other text becomes an opaque non-numeric value. Fractions, exponents and signs are not modelled.
- Validate.ToLower: lower-cases ASCII letters only. `toLowerCase` on other scripts is not modelled, so `email` is exact only for ASCII input.
- Validate.AsEmail, Validate.AsFile: the regular expressions are modelled as predicates over the characters (`[a-z]` with the `i` flag as an ASCII letter). The regular-expression engine itself is not modelled.
- Http.Response.Json: only the `Content-Type` header is modelled. The JSON serialisation, the body, and the 500 fallback when serialisation fails are left out.
- `console.log` in the cookie parser and the rate limiter is left out: it has no effect on results.
- Router: `routes[method]` for a name inherited from `Object.prototype` (such as `constructor`) is not modelled. Only the five registered methods and unknown names are.
- Router.Router.Add: the route tables are maps with an explicit key order. Keys that JavaScript orders numerically (integer-like route strings) are assumed not to occur.
- Password.HashShape: states two hex digits per key byte. The 64-digit key field holds only when scrypt returns the 32 bytes it was asked for, which the model does not assume of the scrypt parameter.
- Concurrency: the model is sequential. Races between concurrent validations of one session, and the `await`s, are not modelled.
- The HTTP server, request parsing, body parsing, file handling, CORS and logging middlewares, and the stream demos are outside the core.
