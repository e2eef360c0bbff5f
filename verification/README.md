# Authentication and post core of elice_dev, in Dafny

This project models the decision logic of the elice_dev FastAPI backend. It
does not model the web framework, the databases or the cryptography. The
model covers:

- the token and password rules of `app/core/security.py`;
- the refresh-session registry of `app/services/refresh_store.py`;
- the auth service of `app/services/auth.py` and the bearer gate
  `get_current_user` of `app/core/deps.py`;
- the user repository and the signup schema;
- the post service and its HTTP routes;
- the error taxonomy of `app/errors/` and `app/core/errors.py`.

Every operation is a pure function over immutable state. The user table and
the post table are sequences. The Redis store is a map from keys to entries
with an expiry instant. Each service call is one atomic step from state to
state plus a `Result`.

Outside effects become parameters:

- Time is integer seconds, passed as `now`.
- The random values (`uuid4()`, the bcrypt salt, the opaque refresh token)
  are passed in by the caller.
- The settings are a `Config.Settings` value. `app/core/config.py` defines
  none of the fields the code reads, so the model fixes no values.

Cryptography is symbolic:

- A JWT is the term `Signed(alg, claims, key)`. Decoding accepts it when
  `alg` and `key` are the configured ones and `iat <= now`. With expiry
  checking on, it also needs `now < exp`; these are PyJWT's rules.
- A bcrypt hash records its salt and the first 72 octets of the UTF-8
  password. That is what passlib's bcrypt consumes, so verification compares
  those octets.

The supporting modules are exact models of what the core relies on:

- `Utf8`: UTF-8 as defined in section 3 of RFC 3629, with encoder, decoder
  and the round trip between them. It supplies `len(password.encode())`.
- `Decimal`: Python's `str(int)` and `int(str)`, with the round trip. User
  ids travel as decimal strings in token subjects and store values.
- `JsonText`: the text `json.dumps({"uid": ...})` writes, using the default
  ASCII escaping, and a reader for it, with the round trip.

The title column is `String(100)`, which PostgreSQL stores as
`varchar(100)`. A longer title is refused only when some character past the
hundredth is not a space. Otherwise it is silently cut to 100 characters,
and the post is stored and returned with the shorter title.
`PostService.StoredTitle` models this rule.

## Where the code disagrees with itself

The model follows the code as it runs throughout.

- The auth service imports three functions that `app/core/security.py` does
  not define: `create_access_jwt`, `issue_refresh_token` and
  `revoke_refresh_token`. The model gives each the least behaviour its call
  site implies:
  - `AuthService.CreateAccessJwt` signs access claims for the user id.
  - `AuthService.IssueRefreshToken` stores `refresh:<token>` mapped to the
    decimal user id for `REFRESH_DAYS` days, and returns the token.
  - `AuthService.RevokeRefreshToken` deletes `refresh:<token>`.
- `users_repo.get_by_id`, which the gate calls, is not defined either.
  `UsersRepo.GetById` is a lookup by primary key.
- The auth service reads `refresh:<token>` keys, but the registry writes
  `rt:<jti>` keys. `AuthService.NamespacesDisjoint` proves the two never
  meet. `AuthService.RefreshIgnoresRegistry` proves that a saved session
  has no effect on `refresh`.
- The code has no refresh-token rotation, no single-use redemption by
  atomic check-and-delete, and no login rate limiting:
  - `refresh` only reads the store and returns a new access token.
  - `logout` deletes one key.
  - Nothing counts login attempts.
- Nothing rejects over-long passwords: `enforce_password_length` exists
  but nothing calls it. The signup schema
  caps the password at 72 characters, not 72 bytes, and login checks no
  length at all. `AuthSchemas.CharCapAdmitsOverlongBytes` exhibits a
  password the schema accepts but that is 76 bytes long.
  `AuthService.LoginAcceptsExtension` shows that any extension of a
  72-byte password logs in as its owner.
- Security and the auth service read different settings names. The model
  keeps both: `accessTtlMin`/`refreshTtlDays` for the token constructors,
  and `accessMin`/`refreshDays` for the service.
- The service imports `SignUpIn` from the schema module, which defines
  `SignUpPayload`. The model uses `SignUpPayload`.
- `int(sub)` in `get_current_user` sits outside the `try`. A non-numeric
  subject is therefore an unhandled `ValueError`, a server error, and not
  a 401. `Deps.Authenticate` models this as `ServerError`.
- `app/main.py` mounts only the auth router and registers only the
  handlers of `app/errors/handlers.py`. The post routes are modelled as if
  mounted in that application:
  - an `HTTPException` gets FastAPI's default `{"detail": ...}` body;
  - validation and integrity errors go to `app/errors/handlers.py`;
  - a `DataError` reaches no handler and is a 500.

  The `app/core/errors.py` envelope is modelled on its own, as `CoreErrors`.

## Model

| member | source | states |
|---|---|---|
| Utf8.EncodeLength | app/core/security.py:14 | the UTF-8 encoding of a string has exactly `ByteLength` octets, the length the 72-byte rule measures |
| Utf8.ByteLengthBounds | app/schemas/auth.py:7 | a string of n characters takes between n and 4n octets |
| Utf8.DecodeEncode | app/core/security.py:14 | decoding the UTF-8 encoding of any string gives back the string, so the byte length is that of a lossless encoding |
| Utf8.EncodeInjective | app/core/security.py:14 | distinct strings have distinct encodings |
| Decimal.ParseShow | app/core/deps.py:53 | `int(str(n)) == n` for every integer, so an id written as a subject or store value reads back as itself |
| Decimal.ShowInjective | app/services/auth.py:59 | distinct ids are written as distinct decimal strings |
| JsonText.ReadStringEscape | app/services/refresh_store.py:8 | an escaped string body followed by its closing quote reads back as the string and the rest of the text |
| JsonText.ParseDumpsUid | app/services/refresh_store.py:8 | the text `json.dumps({"uid": id})` reads back as `id` |
| JsonText.DumpsUidInjective | app/services/refresh_store.py:8 | different user ids are stored as different texts |
| Kv.Get | app/services/auth.py:54 | `GET` yields the stored value exactly when the key is present and its expiry instant has not been reached |
| Kv.SetEx | app/services/refresh_store.py:9 | `SETEX` fails exactly when the ttl is not positive; otherwise the key holds the value until `now + ttl` and no other key changes |
| Kv.Delete | app/services/refresh_store.py:19 | `DEL` removes exactly the key, changes no other key, and changes nothing when the key is absent |
| RefreshStore.KeyInjective | app/services/refresh_store.py:7-18 | distinct jtis have distinct `rt:` keys |
| RefreshStore.SaveRefresh | app/services/refresh_store.py:6-9 | saving fails exactly when the ttl is not positive; otherwise it adds exactly the key `rt:<jti>`, whose value parses back to the user id and which expires at `now + ttl`, and every other entry keeps its value and expiry |
| RefreshStore.ExistsRefresh | app/services/refresh_store.py:12-14 | a session exists exactly when its key can be read |
| RefreshStore.DeleteRefresh | app/services/refresh_store.py:17-19 | deleting removes exactly the key `rt:<jti>`; every other entry keeps its value and expiry |
| RefreshStore.SaveThenExists | app/services/refresh_store.py:6-14 | after a save, the session exists at a later instant exactly when that instant is before `now + ttl` |
| RefreshStore.SaveOverwrites | app/services/refresh_store.py:9 | saving under a jti already present does not grow the store |
| RefreshStore.DeleteThenAbsent | app/services/refresh_store.py:12-19 | after a delete the session does not exist at any instant |
| RefreshStore.DeleteIdempotent | app/services/refresh_store.py:17-19 | deleting an absent session changes nothing, and deleting twice equals deleting once |
| RefreshStore.OthersUnchanged | app/services/refresh_store.py:6-19 | saving or deleting one jti leaves every other jti's entry as it was: what `GET` returns for it at any instant, and whether it exists |
| Hasher.KeyOf | app/services/auth.py:18 | the key bcrypt consumes has the password's byte length, capped at 72 |
| Hasher.VerifyOwnHash | app/services/auth.py:33 | a password verifies against its own hash, whatever the salt |
| Hasher.VerifyExact | app/services/auth.py:33 | for a password under 72 bytes, a candidate verifies against its hash exactly when it is that password |
| Hasher.VerifyExactWithinCeiling | app/services/auth.py:33 | two passwords of at most 72 bytes verify against each other's hash only when equal |
| Hasher.ExtensionVerifies | app/services/auth.py:33 | every extension of a 72-byte password verifies against that password's hash |
| Security.EnforcePasswordLength | app/core/security.py:13-18 | a password passes exactly when its UTF-8 length is at most 72 bytes; otherwise the result is 422 "Password must be 72 bytes or less" |
| Security.DecodeToken | app/core/security.py:53-65 | decoding succeeds exactly when signature, algorithm, issue time and (when checked) expiry are acceptable; it then returns the signed claims; every failure is 401 "Invalid or expired token" |
| Security.CreateAccessToken | app/core/security.py:21-35 | an access token carries type "access" and the subject; it is signed so that decoding without expiry checks accepts it at once, and with them exactly when `ACCESS_TTL_MIN` is positive |
| Security.CreateRefreshToken | app/core/security.py:38-50 | a refresh token carries type "refresh", the subject and the `jti`; decoding without expiry checks accepts it at once, and with them exactly when `REFRESH_TTL_DAYS` is positive |
| Security.AccessTokenRoundTrip | app/core/security.py:21-60 | before expiry an access token decodes to type "access", the given subject, the given jti or else the drawn one, `iat = now` and `exp = now + ACCESS_TTL_MIN*60` |
| Security.RefreshTokenRoundTrip | app/core/security.py:38-60 | before expiry a refresh token decodes to exactly the claims built: type "refresh", subject, jti, `iat = now`, `exp = now + REFRESH_TTL_DAYS*86400` |
| Security.ExpiredStillDecodesUnverified | app/core/security.py:53-65 | an expired refresh token is refused with expiry checking on and decodes to its claims with it off |
| Security.ExpiredAccessStillDecodesUnverified | app/core/security.py:53-65 | the same for an expired access token |
| Security.ForeignSignatureRefused | app/core/security.py:55-65 | a token signed with another key or algorithm never decodes, with or without expiry checking |
| Security.VerifyExpMonotone | app/core/security.py:53-60 | turning expiry checking off never refuses a token that was accepted, and yields the same claims |
| UsersRepo.GetByEmail | app/repositories/users.py:9-12 | the lookup returns a user with that email exactly when one exists |
| UsersRepo.GetByEmailUnique | app/repositories/users.py:9-12 | in a table with unique emails the lookup returns the user with that email |
| UsersRepo.GetById | app/core/deps.py:53 | the lookup returns a user with that id exactly when one exists |
| UsersRepo.GetByIdUnique | app/core/deps.py:53 | in a valid table the id lookup returns the user with that id |
| UsersRepo.Create | app/repositories/users.py:14-29 | creation fails exactly when the email is taken, and the rows are then unchanged; otherwise exactly one user with the given fields is appended; email and id uniqueness are preserved |
| UsersRepo.CreateKeepsUsers | app/repositories/users.py:14-29 | creating a user never hides an existing one from the id lookup |
| AuthSchemas.LengthErrors | app/schemas/auth.py:5-7 | a length-bounded field reports an error, at its own location only, exactly when its length is out of bounds |
| AuthSchemas.ValidateSignUp | app/schemas/auth.py:4-7 | a body is accepted exactly when fullname has 1..50 characters, the email is valid and the password has 8..72 characters; a rejection reports each failing field and no other |
| AuthSchemas.ToUserOut | app/schemas/auth.py:15-19 | the public view carries the user's id, fullname, email and creation time |
| AuthSchemas.UserOutHidesHash | app/schemas/auth.py:15-19 | the public view does not depend on the password hash |
| AuthSchemas.ByteCeilingWithinCharCap | app/schemas/auth.py:7 | a password within 72 bytes is within the 72-character cap |
| AuthSchemas.CharCapAdmitsOverlongBytes | app/schemas/auth.py:7 | a 19-character password of four-byte characters passes the schema but takes 76 bytes |
| AppErrors.NewAppError | app/errors/exceptions.py:1-5 | an `AppError` keeps the code and detail given |
| AppErrors.Unauthorized | app/errors/exceptions.py:8-10 | code 401 with the given detail, default "Unauthorized" |
| AppErrors.Forbidden | app/errors/exceptions.py:13-15 | code 403 with the given detail, default "Forbidden" |
| AppErrors.NotFound | app/errors/exceptions.py:18-20 | code 404 with the given detail, default "Not Found" |
| AppErrors.Conflict | app/errors/exceptions.py:23-25 | code 409 with the given detail, default "Conflict" |
| AppErrors.CodeIdentifiesClass | app/errors/exceptions.py:8-25 | the four subclass codes are distinct, so a code identifies its subclass; each default detail is as declared |
| ErrorHandlers.AppErrorHandler | app/errors/handlers.py:9-13 | the status is the error's code and the body holds that code and the detail |
| ErrorHandlers.ValidationErrorHandler | app/errors/handlers.py:16-20 | status 422 with code 422 and the error list as detail |
| ErrorHandlers.IntegrityErrorHandler | app/errors/handlers.py:23-27 | status 409 with detail "Database integrity error" |
| ErrorHandlers.Dispatch | app/errors/handlers.py:30-33 | each of the three registered kinds goes to its own handler, and nothing else is handled |
| ErrorHandlers.BodyCodeIsStatus | app/errors/handlers.py:9-27 | every handled response repeats its status as the body's code |
| ErrorHandlers.DefaultDetailsReachClient | app/errors/handlers.py:9-13 | a default-detail `Unauthorized` reaches the client as 401 "Unauthorized"; an explicit detail is passed through |
| CoreErrors.StandardError | app/core/errors.py:7-13 | the status is the code; the envelope holds code and message; `details` is present exactly when the details are truthy, and then holds them |
| CoreErrors.HttpExceptionHandler | app/core/errors.py:16-17 | an `HTTPException` keeps its status, and its detail becomes the message |
| CoreErrors.ValidationErrorHandler | app/core/errors.py:20-21 | 422 "Validation error", with details exactly when there are errors |
| CoreErrors.IntegrityErrorHandler | app/core/errors.py:24-25 | 409 "Conflict" with no details |
| CoreErrors.HttpHandlerDropsHeaders | app/core/errors.py:16-17 | the envelope does not carry an exception's headers on |
| Deps.Authenticate | app/core/deps.py:26-60 | an HTTP error from decoding passes unchanged; another failure is 401 "Could not validate credentials"; a non-access type is 401 "Invalid token type"; a missing sub is 401 "Invalid token, no sub"; a non-numeric sub is a server error; an unknown id is 401 "User not found"; success returns the user whose id is `int(sub)` |
| Deps.GetCurrentUser | app/core/deps.py:26-60 | a user is admitted only with an accepted access token whose subject parses to that user's id; a token that does not decode is refused with decoding's own 401 |
| Deps.UndecodableTokenRefused | app/core/deps.py:29-45 | a token that does not decode is refused with 401 "Invalid or expired token", passed on unchanged |
| Deps.RefreshTokenRefused | app/core/deps.py:31-36 | a refresh token is never admitted by the gate: one that decodes is 401 "Invalid token type", any other gets decoding's 401 "Invalid or expired token" |
| Deps.AccessTokenAdmitsItsUser | app/core/deps.py:26-60 | an access token for an existing user's id admits exactly that user until it expires and is refused afterwards |
| AuthService.CreateAccessJwt | app/services/auth.py:36-41 | the token is signed with the given secret and algorithm, has type "access", a subject that `int()` reads back as the user id, and expires the given number of minutes after issue |
| AuthService.IssueRefreshToken | app/services/auth.py:42-44 | the token is returned and `refresh:<token>` holds the decimal user id until `REFRESH_DAYS` days later |
| AuthService.RevokeRefreshToken | app/services/auth.py:69-70 | `refresh:<token>` is absent afterwards and every other key keeps its entry |
| AuthService.Signup | app/services/auth.py:17-27 | signup fails with 409 "Email already registered" exactly when the email is taken, and adds no user then; otherwise it appends one user carrying the hash of the password, never the password; the store is untouched; the service invariant is preserved |
| AuthService.IssuePreservesValid | app/services/auth.py:42-44 | a session issued for an existing user keeps every stored session pointing at an existing user |
| AuthService.Login | app/services/auth.py:29-50 | login succeeds exactly when the email is known and the password verifies; it then returns `expires_in = ACCESS_MIN*60`, the access token `create_access_jwt` signs for the user's id with `JWT_SECRET`, `JWT_ALG` and `ACCESS_MIN`, and a refresh token stored under that id, with no other key of the store changed; failure is 401 "Invalid email or password" with nothing changed |
| AuthService.LoginAdmitsUser | app/services/auth.py:29-50 | the access token login returns admits the user who logged in for `ACCESS_MIN` minutes and is refused afterwards |
| AuthService.Refresh | app/services/auth.py:52-67 | a missing, expired or empty entry is 401 "Invalid or expired refresh token"; an unreadable id is a server error; a value that parses always succeeds, with an access token for the stored id; the state is never changed, so there is no rotation |
| AuthService.Logout | app/services/auth.py:69-70 | logout removes exactly `refresh:<token>` and nothing else, and always succeeds |
| AuthService.LoginFailuresAlike | app/services/auth.py:32-34 | an unknown email and a wrong password give the same error and the same state |
| AuthService.LogoutThenRefreshFails | app/services/auth.py:52-70 | after logout, refreshing with that token fails with 401 at any time |
| AuthService.LogoutIdempotent | app/services/auth.py:69-70 | logging out twice equals logging out once |
| AuthService.SignupThenLogin | app/services/auth.py:17-34 | a user who has just signed up can log in with that password |
| AuthService.DuplicateSignupRefused | app/services/auth.py:17-27 | a second signup with the same email is refused with 409 and keeps the user rows |
| AuthService.ValidRefreshAdmitsUser | app/services/auth.py:52-67 | in a valid state, a refresh with a live session succeeds, and the new access token is admitted by the gate |
| AuthService.LoginThenRefresh | app/services/auth.py:29-67 | refreshing with the token from a login, before it expires, gives an access token that admits the user who logged in |
| AuthService.NamespacesDisjoint | app/services/auth.py:53 | a `refresh:` key is never an `rt:` key |
| AuthService.RefreshIgnoresRegistry | app/services/auth.py:52-56 | a session saved in the `rt:` registry does not change the outcome of any refresh |
| AuthService.LoginAcceptsExtension | app/services/auth.py:32-34 | any extension of a user's 72-byte password logs in, since login checks no length |
| PostService.FindLive | app/services/post.py:41-46 | the lookup finds a non-deleted row with that id exactly when one exists |
| PostService.StoredTitle | app/models/post.py:28 | a title is refused exactly when some character past the hundredth is not a space; otherwise the column holds the title cut to at most 100 characters, and only spaces are cut |
| PostService.StoredTitleStable | app/models/post.py:28 | a stored title is stored again unchanged |
| PostService.TrailingSpacesCut | app/models/post.py:28 | a 100-character title followed by spaces is stored as those 100 characters |
| PostService.CreatePost | app/services/post.py:8-15 | a title the column refuses is a `DataError`; a reused id is an `IntegrityError`; both leave the table unchanged; otherwise one post is appended, authored by the caller, not deleted, with the title as the column stores it and the given content; ids stay unique and titles fit |
| PostService.GetPost | app/services/post.py:18-24 | a post is returned exactly when one with that id exists, and is hidden once deleted unless `include_deleted` |
| PostService.UpdatePost | app/services/post.py:38-58 | a missing or deleted post is `None` and a non-author is `PermissionError`, both changing nothing; for the author's live post, a title the column refuses is a `DataError`, otherwise a null field is an `IntegrityError`, and otherwise the update succeeds; on success only the fields set in the patch change, the title as the column stores it, and `updated_at` moves only on a net change; failures change nothing |
| PostService.DeletePost | app/services/post.py:61-75 | a missing or deleted post is `False` and a non-author is `PermissionError`, both changing nothing; otherwise the author's post is flagged deleted, its `updated_at` bumped, and `True` returned |
| PostService.DeleteTwice | app/services/post.py:61-75 | after a delete, a second delete finds nothing, the default read returns nothing, and the row is still there, flagged |
| PostService.NonOwnerChangesNothing | app/services/post.py:38-75 | a non-author's update or delete of a live post raises `PermissionError` and changes nothing |
| PostService.EmptyPatchIsIdentity | app/services/post.py:52-56 | the author's update that sets no field succeeds, returns the post as it was, and leaves the table exactly as it was |
| PostService.UpdateThenGet | app/services/post.py:18-58 | after a successful update, reading the post returns the updated row |
| PostService.Contains | app/services/post.py:32 | the substring search succeeds exactly when the needle occurs at some position of the text |
| PostService.Filter | app/services/post.py:30-32 | a post is listed exactly when it is in the table, not deleted, and (when `q` is non-empty) its title contains `q` case-insensitively; no row appears more often than in the table |
| PostService.Insert | app/services/post.py:33 | inserting into a newest-first sequence keeps it newest first and adds exactly that post |
| PostService.SortNewestFirst | app/services/post.py:33 | the result is newest first and a permutation of the input |
| PostService.TiesKeepTableOrder | app/services/post.py:33 | two posts of the same age come out in table order |
| PostService.Window | app/services/post.py:33 | the window holds the elements from `skip` on, at most `limit` of them, in order |
| PostService.WindowsTile | app/services/post.py:33 | windows at consecutive offsets concatenate to the window of twice the limit |
| PostService.RowsOnce | app/models/post.py:22-24 | with unique ids, no row occurs in the table twice |
| PostService.SubTableDistinct | app/services/post.py:30-35 | rows selected from a table with unique ids, none more often than the table holds it, are pairwise distinct |
| PostService.Ordered | app/services/post.py:30-33 | the ordered listing is newest first, holds exactly the listed posts, and, with unique ids, none of them twice |
| PostService.ListPosts | app/services/post.py:27-35 | the page is the run of the newest-first listing that starts at position `skip`: newest first, only listed posts, exactly `min(limit, n - skip)` of them (none when `skip >= n`) |
| PostService.ListPagesTile | app/services/post.py:27-35 | consecutive pages fit together, and a page as large as the listing holds the listed posts; with unique ids, each exactly once |
| PostService.ListAllLive | app/services/post.py:30-35 | with no query, every live post appears in a first page as large as the table |
| PostRoutes.Fail | app/errors/handlers.py:16-33 | an `HTTPException` keeps status, detail and headers; validation errors are 422 and integrity errors 409 through the registered handlers; a `DataError` or other fault is a 500 |
| PostRoutes.PathId | app/api/v1/posts.py:37 | the path id is accepted exactly when it is a UUID, else a 422 error at `path.post_id` |
| PostRoutes.ListQuery | app/api/v1/posts.py:28-29 | skip and limit default to 0 and 20 and are accepted exactly when `skip >= 0` and `1 <= limit <= 100`, with an error at each offending parameter |
| PostRoutes.JsonInvalid | app/api/v1/posts.py:16 | an undecodable body is a `json_invalid` error located at `body` and the position where decoding stopped |
| PostRoutes.CreateRoute | app/api/v1/posts.py:14-21 | a body that is not JSON is 422 before the gate is consulted; then a gate error, then a schema error; each changes nothing; an authenticated, valid request gets 201 with the post it stored, authored by the caller, with the title as the column stores it; a title the column refuses is a 500 and a reused id a 409 |
| PostRoutes.ListRoute | app/api/v1/posts.py:24-32 | a bad query is a 422; otherwise 200 with the page, never more than 100 posts |
| PostRoutes.GetRoute | app/api/v1/posts.py:35-43 | 200 with the post exactly when a live post has that id; otherwise 404 "Post not found" |
| PostRoutes.UpdateRoute | app/api/v1/posts.py:46-59 | a body that is not JSON is 422 before the gate is consulted; then a gate error; then path and body errors together as one 422; success is 200 with the updated post; `None` is 404 "Post not found"; `PermissionError` is 403 "Not the owner"; failures change nothing |
| PostRoutes.DeleteRoute | app/api/v1/posts.py:62-74 | success is 204 with no body; `False` is 404; `PermissionError` is 403; failures change nothing |
| PostRoutes.CreateThenGet | app/api/v1/posts.py:14-43 | a created post reads back at once, exactly as the creation response showed it |
| PostRoutes.UpdateThenGet | app/api/v1/posts.py:35-59 | after a successful update, reading the post answers exactly what the update answered |
| PostRoutes.DeleteThenGone | app/api/v1/posts.py:35-74 | after a delete, reading and deleting again both answer 404 |
| PostRoutes.OthersForbidden | app/api/v1/posts.py:46-74 | another user's update or delete of a live post is 403 "Not the owner" and changes nothing |

## Left out

- Real cryptography is not modelled; signing and hashing are symbolic terms. Cryptographic strength is out of scope.
- Redis, SQLAlchemy and asyncio are not modelled: connections, sessions, `commit`/`rollback` mechanics, `with_for_update` locking and every concurrent interleaving. Each call is one atomic step.
- Rate limiting, refresh-token rotation and atomic check-and-delete are not modelled, because the code has none of them.
- FastAPI wiring is not modelled: `app/main.py` (lifespan, CORS, routers), the auth routes of `app/api/v1/auth.py`, and `get_db`/`get_redis`. `app/core/config.py` (environment loading) and `app/errors/http.py` (a single raise) are not part of this model.
- The OAuth2 bearer scheme's own 401 for a missing `Authorization` header is left out. The gate starts from a token.
- `EmailStr` validity is the predicate parameter `isEmail`; normalisation of the address is left out.
- `uuid.UUID` parsing of path ids is the predicate parameter `isUuid`; canonicalisation of the accepted text is left out.
- `Decimal.Parse`: accepts an optional sign and ASCII digits only. Python's `int()` also accepts surrounding whitespace, underscores between digits and non-ASCII digits, which no value the model stores contains.
- `Utf8`: strings are sequences of Unicode scalar values, so lone surrogates, which Python's `str.encode()` rejects, cannot occur.
- `Hasher.Verify`: models passlib's truncation to 72 bytes. Newer bcrypt releases raise on longer passwords instead, and passlib also rejects NUL characters; neither is modelled.
- `Security.DecodeToken`: an `iat` in the future is refused, as the PyJWT releases that validate `iat` against the clock do; other releases accept it. Leeway, `nbf`, audience and issuer checks are left out, because the code sets none.
- `PostService.Filter`: `ILIKE '%q%'` is modelled as ASCII case-insensitive plain substring search. The `%` and `_` wildcards inside `q`, ILIKE's default backslash escape (so a `q` of one backslash matches titles ending in `%`, not titles holding a backslash), and non-ASCII case folding, are left out.
- `PostService.SortNewestFirst`: posts with equal `created_at` keep table order, which is one of the orders the database may return.
- `ErrorHandlers.ValidationErrorHandler`: each error in the detail list is written with its `type` and `loc` only. The `msg`, `input` and `ctx` entries that `exc.errors()` also carries are not modelled, because their text comes from pydantic and from the email and UUID validators.
- `CoreErrors.ValidationErrorHandler`: the details list has the same reduction to `type` and `loc`, for the same reason.
- `Validation.ErrorJson`: writes a validation error as `{"type", "loc"}`. Pydantic's `msg`, `input` and `ctx` entries are left out.
- `PostService.UpdatePost`: when a patch both nulls a field and sets a title the column refuses, the model reports the `DataError`. Which constraint the database reports first is not modelled.
- `PostRoutes.ListQuery`: `skip` and `limit` arrive as integers or absent. A query value that is not an integer, which FastAPI refuses with 422 `int_parsing`, is not modelled.
- `PostRoutes.JsonInvalid`: the position in `loc` is written as a decimal string. FastAPI writes it as a JSON number, but the model's locations hold strings only.
- `PostRoutes.CreateRoute`: only JSON bodies are modelled. A body sent with a non-JSON content type is not decoded, and it fails schema validation after the gate. FastAPI's 400 for a body it cannot read at all is left out.
- `PostService.CreatePost`: the foreign key from `author_id` to `users.id` is not modelled, because authors come from the gate and exist.
- `UsersRepo.Create`: a refused insert still consumes a value of the id sequence, so `nextId` advances while the rows stay the same. The table is unchanged in its rows, not in its sequence.
- `AuthService.IssueRefreshToken`: it stores the session with `SET ... EX REFRESH_DAYS*86400`. A non-positive `REFRESH_DAYS` makes Redis refuse the command; the model then stores nothing readable and does not model the refusal.
- Calendar arithmetic is left out beyond minutes times 60 and days times 86400.
- `app/models/post.py` declares a `User.posts` back-reference that `app/models/user.py` does not define. Mapper configuration is not modelled.
