# Authentication sessions and user tables of a Spring user-management backend, in Dafny

This project models the part of the backend that carries real rules:

- the **refresh-token session store** (`RefreshTokenService`): a `refresh_tokens` table of
  `{id, userId, token, expiryDate}` rows with create, find-by-token, expiry check (which deletes an
  expired row and throws) and delete-by-user;
- the **token issuer** (`JwtUtil`): access and refresh JWTs as claims `(subject, issuedAt,
  expiration)` signed with one process-wide key, with `extractEmail`, `isTokenExpired` and
  `validateToken` over those claims;
- the **public user endpoints** (`UserAPI`): registration (field validation collecting at most one
  error per field, the emoji scan over UTF-16 code units, the slug with a three-digit random suffix,
  the default "customer" role), login (delete the user's sessions, then create one), token refresh
  (no rotation) and lookup by email;
- the **admin endpoints** (`AdminAPI`): create, update and delete over the `users` and `roles`
  tables, and the read endpoints' projection to a DTO without password.

The store and the handlers change tables in place, so they are classes whose methods state the
new table in terms of the old one (`RefreshTokenService.RefreshTokenStore`,
`Repositories.Database`, `UserApi.UserApi`, `AdminApi.AdminApi`). The issuer, the pattern checks
and the slug are functions. Each handler returns a `Response`: a reply with a status and a body,
or `Thrown(failure)` for an exception that escapes the handler; the global exception handler
(GlobalExceptionHandler.java:12-21) turns every such exception into a 500 reply.

Files: `wrappers.dfy` (Option, Result), `java_text.dfy` (the `String` operations used: UTF-16
encoding and `codePointAt`, `trim`, `toLowerCase`, `replace`, `%03d`), `entities.dfy` (rows, DTO,
messages, responses), `jwt_util.dfy`, `refresh_token_service.dfy`, `database.dfy`,
`validation.dfy`, `slug.dfy`, `user_api.dfy`, `admin_api.dfy`.

Behaviour worth knowing, all stated in the contracts below:

- `createRefreshToken` does not remove a user's earlier sessions; one session per user holds only
  because `login` calls `deleteByUserId` first (UserAPI.java:192-193).
- The refresh-token expiry check is strict: a row with `expiryDate == now` is still valid.
- A JWT's dates are whole seconds: issue and expiration instants are truncated to the second when
  the token is built, and the JWT library's parser refuses a token once now is past that truncated
  expiration. Every JwtUtil read (`extractEmail`, `isTokenExpired`, `validateToken`) parses, so an
  expired token makes each of them throw rather than answer; `isTokenExpired` can answer true only
  if the clock moves past the expiration between its parse and its comparison. A token with a
  lifetime under one second is already refused in the millisecond of its issue when that instant is
  not on a whole second and issue + lifetime stays within the same second (issued at 1900 ms with a
  500 ms lifetime it is still valid at 1900 ms, because its expiration is truncated to 2000 ms).
- An expired refresh token makes `verifyExpiration` delete the row and throw inside the
  `Optional` chain, so the refresh endpoint answers 500, not the 401 of its `orElseGet` branch. A
  session whose user row is gone also ends in a 500 (UserAPI.java:219-220); as long as every
  session belongs to an existing user, which every handler preserves, that cannot happen.
- Refresh does not rotate: the same refresh token is returned and the table is unchanged.
- The name pattern rejects every name with surrounding whitespace, so the trim check
  (UserAPI.java:98-100), which runs first, only chooses the message: " John" is reported as
  untrimmed rather than malformed, and it fails either way. The pattern also excludes every emoji,
  and the emoji check runs after it, so the emoji error (UserAPI.java:101-105) can never be
  reported. Likewise an email with a space would fail the pattern anyway, and the whitespace check
  only chooses the message.
- Admin slugs carry no random suffix, so two ASCII names differing only in case or in space
  versus '-' get the same slug.

## Model

| member | source | states |
|---|---|---|
| `RefreshTokenService.RefreshTokenStore.CreateRefreshToken` | src/main/java/com/example/demo/service/RefreshTokenService.java:22-29 | adds exactly one row under the fresh id, owned by the given user, with the fresh token and expiry now + 604800000 ms; every other row unchanged; tokens stay unique |
| `RefreshTokenService.NewSession` | src/main/java/com/example/demo/service/RefreshTokenService.java:22-28 | the new row's owner, token and expiry are the given user, the given token and now + seven days |
| `RefreshTokenService.CreateKeepsEarlierSessions` | src/main/java/com/example/demo/service/RefreshTokenService.java:22-29 | after a create, the user's sessions are the earlier ones plus the new one: nothing is replaced |
| `RefreshTokenService.RefreshTokenStore.FindByToken` | src/main/java/com/example/demo/service/RefreshTokenService.java:31-33 | returns a row iff some row's token equals the argument exactly, and then that row; reads the table only |
| `RefreshTokenService.RefreshTokenStore.VerifyExpiration` | src/main/java/com/example/demo/service/RefreshTokenService.java:35-41 | expiry strictly before now: the row is deleted and the call throws; expiry at or after now (equality included): the row is returned and the table unchanged |
| `RefreshTokenService.RefreshTokenStore.DeleteByUserId` | src/main/java/com/example/demo/service/RefreshTokenService.java:43-45 | the table becomes the old one without the user's rows |
| `RefreshTokenService.DeleteByUser` | src/main/java/com/example/demo/service/RefreshTokenService.java:43-45 | a row survives iff its owner is another user, and survivors are unchanged |
| `RefreshTokenService.DeleteByUserRemovesAll` | src/main/java/com/example/demo/service/RefreshTokenService.java:43-45 | afterwards the user has no session and every other user's sessions are as before |
| `RefreshTokenService.DeleteByUserIdempotent` | src/main/java/com/example/demo/service/RefreshTokenService.java:43-45 | deleting twice equals deleting once; deleting for a user without sessions changes nothing |
| `RefreshTokenService.DeletedTokensNotFound` | src/main/java/com/example/demo/service/RefreshTokenService.java:43-45 | after deleting a user's sessions, none of that user's former tokens is found |
| `RefreshTokenService.ReplaceLeavesOneSession` | src/main/java/com/example/demo/api/UserAPI.java:192-193 | delete-then-create leaves the user exactly one session, the new one |
| `RefreshTokenService.SecondSessionSupersedesFirst` | src/main/java/com/example/demo/api/UserAPI.java:192-193 | after two logins' delete-then-create for one user, the first token is not found, the second is, and it is the user's only session |
| `JwtUtil.ParseClaims` | src/main/java/com/example/demo/util/JwtUtil.java:65-71 | the parser with the process key yields claims exactly for tokens that key signed whose (whole-second) expiration is not before now, and then those claims; a signed token past its expiration is refused as expired |
| `JwtUtil.CreateToken` | src/main/java/com/example/demo/util/JwtUtil.java:44-52 | the token carries the given claims and subject, issued now and expiring now + lifetime, both truncated to whole seconds; it parses to exactly those claims up to its expiration and is refused as expired afterwards |
| `JwtUtil.GenerateAccessToken` | src/main/java/com/example/demo/util/JwtUtil.java:33-36 | no custom claims, subject = email, the access lifetime; parses as createToken states |
| `JwtUtil.GenerateRefreshToken` | src/main/java/com/example/demo/util/JwtUtil.java:38-42 | no custom claims, subject = email, the refresh lifetime; parses as createToken states |
| `JwtUtil.GeneratorsDifferOnlyInLifetime` | src/main/java/com/example/demo/util/JwtUtil.java:33-42 | the refresh generator is the access generator with the refresh lifetime; with equal lifetimes they coincide |
| `JwtUtil.ExtractEmail` | src/main/java/com/example/demo/util/JwtUtil.java:55-57 | succeeds iff the token was signed with the process key and has not expired, and then gives its subject |
| `JwtUtil.AccessTokenRoundTrip` | src/main/java/com/example/demo/util/JwtUtil.java:55-71 | the email extracted from an access token is the one it was issued for, at every instant up to its truncated expiration; afterwards the read fails as expired |
| `JwtUtil.IsTokenExpired` | src/main/java/com/example/demo/util/JwtUtil.java:74-80 | answers false exactly for unexpired tokens this key signed; fails as expired exactly for signed tokens past their expiration, and as malformed or mismatched for the rest; read at one instant it never answers true |
| `JwtUtil.ValidateTokenMeaning` | src/main/java/com/example/demo/util/JwtUtil.java:83-86 | true iff signed with the process key, the subject equals a non-null email, and the expiration is not before now; fails (not false) exactly on expired signed tokens; a null email never validates |
| `JwtUtil.AccessTokenLifetime` | src/main/java/com/example/demo/util/JwtUtil.java:74-86 | an access token validates for its email up to and including its whole-second expiration and fails as expired after it |
| `JwtUtil.SubSecondLifetimeExpiresAtIssue` | src/main/java/com/example/demo/util/JwtUtil.java:44-52 | with a lifetime under a second, a token is refused in its own issue millisecond exactly when the truncated expiration falls below it (issue not on a whole second and issue + lifetime within the same second) |
| `JwtUtil.ForeignKeyRefused` | src/main/java/com/example/demo/util/JwtUtil.java:25-30 | a token signed with any other key (such as the key of an earlier process) fails with a signature mismatch |
| `JavaText.ScanMeetsEveryChar` | src/main/java/com/example/demo/api/UserAPI.java:63-64 | scanning the UTF-16 units with codePointAt meets every character of the string |
| `JavaText.ScanMeetsOnlyChars` | src/main/java/com/example/demo/api/UserAPI.java:63-64 | apart from the string's characters, the scan meets only low surrogates, at the second half of a pair |
| `JavaText.TrimFixedPoint` | src/main/java/com/example/demo/api/UserAPI.java:98-99 | a string equals its trim() iff it is empty or neither starts nor ends with a character at or below U+0020 |
| `JavaText.FormatThreeDigitsValue` | src/main/java/com/example/demo/api/UserAPI.java:134-135 | %03d of a number in [0, 1000) is three digits whose decimal value is that number |
| `Validation.PhonePatternShape` | src/main/java/com/example/demo/api/UserAPI.java:54 | PHONE_PATTERN holds exactly for "+84" or "0" followed by nine or ten ASCII digits |
| `Validation.FullNamePatternShape` | src/main/java/com/example/demo/api/UserAPI.java:55 | FULL_NAME_PATTERN holds exactly for one or more non-empty words of ASCII letters, digits and U+00C0 to U+1EF9, with single spaces between them |
| `Validation.DomainPatternShape` | src/main/java/com/example/demo/api/UserAPI.java:56 | the domain part of EMAIL_PATTERN holds exactly for non-empty labels of [A-Za-z0-9_-] with single dots between, then a dot and a last label of two to four such characters |
| `Validation.EmailPatternShape` | src/main/java/com/example/demo/api/UserAPI.java:56 | EMAIL_PATTERN holds exactly for a non-empty local part of [A-Za-z0-9_.-], one '@', and a matching domain |
| `Validation.ContainsEmoji` | src/main/java/com/example/demo/api/UserAPI.java:62-73 | true iff some index's codePointAt lies in 0x1F600-0x1F64F, 0x1F300-0x1F5FF, 0x1F680-0x1F6FF or 0x1F1E6-0x1F1FF |
| `Validation.EmojiScanMeaning` | src/main/java/com/example/demo/api/UserAPI.java:62-73 | on a string, the unit scan finds an emoji iff one of its characters is an emoji |
| `Validation.EmailWithSpaceNeverMatches` | src/main/java/com/example/demo/api/UserAPI.java:85-88 | an email containing a space never matches the email pattern |
| `Validation.MatchingNameIsTrimmed` | src/main/java/com/example/demo/api/UserAPI.java:98-101 | a name matching the name pattern is non-empty and equals its trim() |
| `Validation.MatchingNameHasNoEmoji` | src/main/java/com/example/demo/api/UserAPI.java:101-105 | a name matching the name pattern contains no emoji |
| `Validation.EmailCheck` | src/main/java/com/example/demo/api/UserAPI.java:82-92 | no email error iff the email is present, matches EMAIL_PATTERN and no user holds it; a space is reported as such, before pattern and uniqueness |
| `Validation.NameCheck` | src/main/java/com/example/demo/api/UserAPI.java:95-106 | no name error iff the name is present and matches FULL_NAME_PATTERN; the emoji error is never produced |
| `Validation.PhoneCheck` | src/main/java/com/example/demo/api/UserAPI.java:109-113 | no phone error iff the phone is "+84" or "0" followed by exactly 9 or 10 ASCII digits |
| `Validation.PasswordCheck` | src/main/java/com/example/demo/api/UserAPI.java:116-118 | no password error iff the password is present and non-empty |
| `Validation.RegistrationErrorsShape` | src/main/java/com/example/demo/api/UserAPI.java:79-123 | at most four errors, one per field at most, in the order email, full_name, phone, password; none iff all four fields pass |
| `UserApi.UserApi.ValidateRegistration` | src/main/java/com/example/demo/api/UserAPI.java:79-118 | the list built by appending field by field is the specified error list |
| `UserApi.UserApi.Register` | src/main/java/com/example/demo/api/UserAPI.java:78-165 | any validation error gives 400 with the list and saves nothing; an unknown role gives 400 and saves nothing; otherwise one user is added with the encoded password, the slug and the given or the "customer" role, created only if missing; table invariants kept |
| `Slug.RegistrationSlugParts` | src/main/java/com/example/demo/api/UserAPI.java:132-136 | the registration slug is the base slug, '-', then three digits whose value is the random number |
| `Slug.BaseSlug` | src/main/java/com/example/demo/api/AdminAPI.java:49 | the name lower-cased by the JVM's mapping, with every space replaced by '-': as long as the lower-cased name, and no space remains |
| `Slug.BaseSlugIsLowerCase` | src/main/java/com/example/demo/api/AdminAPI.java:49 | for any name, the slug holds no space and no upper-case ASCII letter |
| `Slug.AsciiBaseSlug` | src/main/java/com/example/demo/api/AdminAPI.java:49 | for an ASCII name, the slug has the name's length and maps each space to '-' and each upper-case letter to its lower case |
| `Slug.AsciiSlugCollisions` | src/main/java/com/example/demo/api/AdminAPI.java:133 | two ASCII names get the same slug iff they agree up to case and space versus '-' |
| `Repositories.Database.FindOrCreateCustomerRole` | src/main/java/com/example/demo/api/UserAPI.java:150-158 | returns the existing "customer" role, or saves and returns a new one when there is none |
| `Repositories.Database.SaveUser` | src/main/java/com/example/demo/api/UserAPI.java:163 | saving a user puts exactly that row under its id and leaves every other row and the roles unchanged; the unique-email and existing-role invariants are kept |
| `UserApi.UserApi.Login` | src/main/java/com/example/demo/api/UserAPI.java:168-203 | blank email or password gives 400, failed authentication 401, neither touching the session table; success replaces the user's sessions by exactly one, returns its token (not the JWT refresh token) and an access token for the email |
| `UserApi.UserApi.RefreshToken` | src/main/java/com/example/demo/api/UserAPI.java:206-233 | blank token 400; unknown token 401; expired token deleted and thrown; otherwise a new access token for the owner's email with the same refresh token and the table unchanged |
| `UserApi.UserApi.GetUserByEmail` | src/main/java/com/example/demo/api/UserAPI.java:236-254 | blank email 400, unknown email 404, else the user's DTO without password |
| `AdminApi.AdminApi.CreateUser` | src/main/java/com/example/demo/api/AdminAPI.java:38-75 | an email already held gives 400 and saves nothing; an unknown role gives 400 before saving; a null role uses "customer", created if missing; slug has no number |
| `AdminApi.AdminApi.GetAllUsers` | src/main/java/com/example/demo/api/AdminAPI.java:80-91 | one DTO per user, each carrying id, email, name and role, never the password |
| `AdminApi.AdminApi.GetUserById` | src/main/java/com/example/demo/api/AdminAPI.java:96-110 | unknown id 404, else the user's DTO without password |
| `AdminApi.AdminApi.UpdateUser` | src/main/java/com/example/demo/api/AdminAPI.java:115-148 | unknown id 404; an email held by another user 400, one's own email allowed; unknown role 400 without saving; password replaced only by a non-empty one, role only when named |
| `AdminApi.AdminApi.DeleteUser` | src/main/java/com/example/demo/api/AdminAPI.java:153-165 | unknown id 404 with nothing deleted; otherwise the user's sessions are removed, then the user |

## Left out

- HTTP plumbing: `ResponseEntity`, routing, request binding and `@PreAuthorize("hasRole('ADMIN')")` are not modelled; a reply is a status and a body, and message texts are named constructors instead of the Vietnamese strings.
- The exception-to-500 mapping of GlobalExceptionHandler.java:12-21 is represented only by the `Thrown` outcome.
- The JWT library: HS256 key generation, compact serialisation and signature checking are symbolic (a token records the key that signed it); its parser is modelled only as far as signature, expiration (no clock skew) and whole-second dates go.
- JwtUtil.CreateToken: `createToken` reads the clock twice (JwtUtil.java:48-49); the model uses one instant for both dates.
- UserApi.UserApi.Login: one `now` stands for the clock reads of the access token and of the session expiry (RefreshTokenService.java:27), which the source takes separately.
- JwtUtil.IsTokenExpired: the parse and the comparison with `new Date()` (JwtUtil.java:75) read the clock separately; the model reads it once, so it does not capture the true answer a tick between the two reads can produce.
- JwtUtil.ValidateTokenMeaning: the two parses inside `validateToken` are taken at one instant, so a token expiring between them is not modelled.
- Overflow of `currentTimeMillis() + expiration` (a Java long) and of `Instant.plusMillis` is not modelled; integers are unbounded.
- Randomness and the clock: `UUID.randomUUID()`, `new Random().nextInt(1000)` and `Instant.now()` are parameters; new ids and tokens are required to be fresh.
- The password encoder's output is a parameter; the model assumes it refuses a null password, as Spring Security's BCrypt encoder does (the encoder bean is not part of this model).
- The authentication manager's verdict is a parameter; `SecurityContextHolder` (UserAPI.java:180-182) is ambient framework state and is left out.
- The regular-expression engine: the three patterns are written as predicates over the characters they admit.
- JavaText.LowerCaseLaws: `toLowerCase` is a parameter of the model (the JVM's default-locale mapping), constrained only by "no upper-case ASCII in the result" and "ASCII strings are lower-cased letter by letter". The second law is false under the Turkish and Azerbaijani locales, which are not modelled. Beyond ASCII nothing is promised about the slug: Unicode case tables, context-dependent mappings and length-changing ones such as U+0130 are left to the parameter.
- Slug.AsciiSlugCollisions: stated for ASCII names only; which non-ASCII names collide depends on the Unicode case tables.
- `String.format("%03d")` is assumed to produce ASCII digits.
- The repository interfaces (UserRepository, RoleRepository, RefreshTokenRepository) and Role.java are not part of this model; each table is a map from id to row. `findAll` order is not modelled (the result is a set). A null email is looked up as `email IS NULL`. Result-size exceptions of `findByEmail` and `findByName` cannot arise because the table invariants keep emails and role names unique.
- An entity changed through setters but not saved is assumed not to be persisted (the handlers run without a transaction).
- Concurrency and transactional atomicity of delete-then-insert in login are not modelled; the model is sequential.
- TestController.java is trivial and is not modelled.
