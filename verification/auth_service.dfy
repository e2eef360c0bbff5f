/** `AuthService` of `app/services/auth.py`: signup, login, refresh and
    logout as transitions over the user table and the key-value store.

    The service imports `create_access_jwt`, `issue_refresh_token` and
    `revoke_refresh_token`, which `app/core/security.py` does not define.
    They are given here the least behaviour their call sites imply: the
    first signs access claims for the user id with the given lifetime, the
    second stores `refresh:<token>` -> user id for the given number of days
    and returns the token, the third deletes `refresh:<token>`. Random
    values (salt, `jti`, the opaque refresh token) are parameters. */
module AuthService {
  import opened Wrappers
  import opened Config
  import Kv
  import UsersRepo
  import Hasher
  import Security
  import Decimal
  import AppErrors
  import AuthSchemas
  import RefreshStore
  import Deps
  import Utf8

  datatype State = State(users: UsersRepo.Table, kv: Kv.Store)

  /** A raised `AppError`, or an exception no handler maps (a server error). */
  datatype AuthError = App(e: AppErrors.AppError) | ServerError

  /** The state after a call and what the call returned or raised. */
  datatype Step<T> = Step(state: State, result: Result<T, AuthError>)

  datatype LoginTokens = LoginTokens(accessToken: Security.Token, expiresIn: int, refreshToken: string)

  datatype RefreshedAccess = RefreshedAccess(accessToken: Security.Token, expiresIn: int)

  const EmailTaken: AppErrors.AppError := AppErrors.Conflict("Email already registered")
  const BadCredentials: AppErrors.AppError := AppErrors.Unauthorized("Invalid email or password")
  const BadRefresh: AppErrors.AppError := AppErrors.Unauthorized("Invalid or expired refresh token")

  const RefreshPrefix: string := "refresh:"

  /** The key `refresh` reads: `f"refresh:{refresh_token}"`. */
  function RefreshKey(token: string): string
  {
    RefreshPrefix + token
  }

  predicate IsRefreshKey(k: string) {
    |k| >= |RefreshPrefix| && k[..|RefreshPrefix|] == RefreshPrefix
  }

  /** `create_access_jwt(user_id, secret, alg, minutes)`. */
  function CreateAccessJwt(userId: int, secret: string, alg: string, minutes: int, jti: string, now: int)
    : (t: Security.Token)
    ensures t.Signed? && t.key == secret && t.alg == alg
    ensures t.claims.typ == Some(Security.AccessType)
    ensures t.claims.sub.Some? && Decimal.Parse(t.claims.sub.value) == Some(userId)
    ensures t.claims.exp == Some(now + minutes * SecondsPerMinute)
  {
    Decimal.ParseShow(userId);
    Security.Encode(
      Security.Claims(Some(Decimal.Show(userId)), Some(Security.AccessType), Some(jti), Some(now),
                      Some(now + minutes * SecondsPerMinute)),
      secret, alg)
  }

  /** `issue_refresh_token(redis, user_id, days)`, returning the token drawn. */
  function IssueRefreshToken(kv: Kv.Store, userId: int, days: int, token: string, now: int): (r: (Kv.Store, string))
    ensures r.1 == token
    ensures r.0 == kv[RefreshKey(token) := Kv.Entry(Decimal.Show(userId), Some(now + days * SecondsPerDay))]
  {
    (kv[RefreshKey(token) := Kv.Entry(Decimal.Show(userId), Some(now + days * SecondsPerDay))], token)
  }

  /** `revoke_refresh_token(redis, token)`. */
  function RevokeRefreshToken(kv: Kv.Store, token: string): (r: Kv.Store)
    ensures RefreshKey(token) !in r
    ensures r.Keys == kv.Keys - {RefreshKey(token)} && Kv.SameExcept(kv, r, RefreshKey(token))
  {
    Kv.Delete(kv, RefreshKey(token))
  }

  /** The state the service relies on: a valid user table, and every
      refresh session naming, in decimal, a user that exists. */
  ghost predicate Valid(st: State) {
    && UsersRepo.Valid(st.users)
    && forall k :: k in st.kv && IsRefreshKey(k) ==>
         && Decimal.Parse(st.kv[k].value).Some?
         && UsersRepo.GetById(st.users, Decimal.Parse(st.kv[k].value).value).Some?
  }

  /** `signup`: hashes the password and creates the user; a taken email is
      `Conflict("Email already registered")`. */
  function Signup(st: State, p: AuthSchemas.SignUpPayload, salt: string, now: int): (r: Step<AuthSchemas.UserOut>)
    ensures r.state.kv == st.kv
    ensures r.result.Err? <==> exists u :: u in st.users.rows && u.email == p.email
    ensures r.result.Err? ==> r.result.error == App(EmailTaken) && r.state.users.rows == st.users.rows
    ensures r.result.Ok? ==>
              exists u :: r.state.users.rows == st.users.rows + [u]
                && u.email == p.email && u.fullname == p.fullname
                && u.passwordHash == Hasher.Hash(p.password, salt)
                && r.result.value == AuthSchemas.ToUserOut(u)
    ensures Valid(st) ==> Valid(r.state)
  {
    var passwordHash := Hasher.Hash(p.password, salt);
    var (users, created) := UsersRepo.Create(st.users, p.fullname, p.email, passwordHash, now);
    var next := State(users, st.kv);
    assert Valid(st) ==> Valid(next) by {
      if Valid(st) {
        forall k | k in st.kv && IsRefreshKey(k)
          ensures UsersRepo.GetById(users, Decimal.Parse(st.kv[k].value).value).Some?
        {
          UsersRepo.CreateKeepsUsers(st.users, p.fullname, p.email, passwordHash, now,
                                     Decimal.Parse(st.kv[k].value).value);
        }
      }
    }
    match created
    case None => Step(next, Err(App(EmailTaken)))
    case Some(u) => Step(next, Ok(AuthSchemas.ToUserOut(u)))
  }

  /** A refresh session issued for an existing user keeps the state valid. */
  lemma IssuePreservesValid(st: State, u: UsersRepo.User, days: int, token: string, now: int)
    requires Valid(st) && u in st.users.rows
    ensures Valid(State(st.users, IssueRefreshToken(st.kv, u.id, days, token, now).0))
  {
    Decimal.ParseShow(u.id);
    UsersRepo.GetByIdUnique(st.users, u);
  }

  /** `login`: finds the user by email and checks the password; on success
      issues an access token and a stored refresh token. An unknown email
      and a wrong password fail alike. */
  function Login(st: State, s: Settings, email: string, password: string, jti: string, token: string, now: int)
    : (r: Step<LoginTokens>)
    ensures r.state.users == st.users
    ensures r.result.Ok? <==>
              UsersRepo.GetByEmail(st.users, email).Some?
              && Hasher.Verify(password, UsersRepo.GetByEmail(st.users, email).value.passwordHash)
    ensures r.result.Err? ==> r.result.error == App(BadCredentials) && r.state == st
    ensures r.result.Ok? ==>
              var u := UsersRepo.GetByEmail(st.users, email).value;
              && r.result.value.expiresIn == s.accessMin * SecondsPerMinute
              && r.result.value.refreshToken == token
              && r.result.value.accessToken == CreateAccessJwt(u.id, s.jwtSecret, s.jwtAlg, s.accessMin, jti, now)
              && r.result.value.accessToken.claims.sub == Some(Decimal.Show(u.id))
              && Kv.Get(r.state.kv, RefreshKey(token), now) == (
                   if s.refreshDays > 0 then Some(Decimal.Show(u.id)) else None)
              && Kv.SameExcept(st.kv, r.state.kv, RefreshKey(token))
    ensures Valid(st) ==> Valid(r.state)
  {
    var found := UsersRepo.GetByEmail(st.users, email);
    if found.None? || !Hasher.Verify(password, found.value.passwordHash) then
      Step(st, Err(App(BadCredentials)))
    else
      var u := found.value;
      var access := CreateAccessJwt(u.id, s.jwtSecret, s.jwtAlg, s.accessMin, jti, now);
      var (kv, refreshToken) := IssueRefreshToken(st.kv, u.id, s.refreshDays, token, now);
      var next := State(st.users, kv);
      assert Valid(st) ==> Valid(next) by {
        if Valid(st) {
          IssuePreservesValid(st, u, s.refreshDays, token, now);
        }
      }
      Step(next, Ok(LoginTokens(access, s.accessMin * SecondsPerMinute, refreshToken)))
  }

  /** `refresh`: looks the token up under `refresh:<token>`; a missing,
      expired or empty entry is `Unauthorized("Invalid or expired refresh
      token")`, a value `int()` cannot read is a server error. On success a
      new access token for the stored id is returned; nothing is rotated and
      the store is not written. */
  function Refresh(st: State, s: Settings, token: string, jti: string, now: int): (r: Step<RefreshedAccess>)
    ensures r.state == st
    ensures r.result == Err(App(BadRefresh)) <==>
              Kv.Get(st.kv, RefreshKey(token), now) in {None, Some("")}
    ensures r.result == Err(ServerError) <==>
              && Kv.Get(st.kv, RefreshKey(token), now) !in {None, Some("")}
              && Decimal.Parse(Kv.Get(st.kv, RefreshKey(token), now).value).None?
    ensures r.result.Ok? ==>
              && Kv.Get(st.kv, RefreshKey(token), now).Some?
              && var id := Decimal.Parse(Kv.Get(st.kv, RefreshKey(token), now).value);
              && id.Some?
              && r.result.value.accessToken == CreateAccessJwt(id.value, s.jwtSecret, s.jwtAlg, s.accessMin, jti, now)
              && r.result.value.expiresIn == s.accessMin * SecondsPerMinute
    ensures Kv.Get(st.kv, RefreshKey(token), now) !in {None, Some("")}
            && Decimal.Parse(Kv.Get(st.kv, RefreshKey(token), now).value).Some?
            ==> r.result.Ok?
  {
    var stored := Kv.Get(st.kv, RefreshKey(token), now);
    if stored.None? || stored.value == "" then
      Step(st, Err(App(BadRefresh)))
    else
      match Decimal.Parse(stored.value)
      case None => Step(st, Err(ServerError))
      case Some(id) =>
        var access := CreateAccessJwt(id, s.jwtSecret, s.jwtAlg, s.accessMin, jti, now);
        Step(st, Ok(RefreshedAccess(access, s.accessMin * SecondsPerMinute)))
  }

  /** `logout`: revokes the token; it never fails, whatever the token. */
  function Logout(st: State, token: string): (r: State)
    ensures r.users == st.users
    ensures r.kv.Keys == st.kv.Keys - {RefreshKey(token)}
    ensures forall k :: k in r.kv ==> r.kv[k] == st.kv[k]
    ensures Valid(st) ==> Valid(r)
  {
    State(st.users, RevokeRefreshToken(st.kv, token))
  }

  /** An unknown email and a wrong password are indistinguishable: same
      error, same (unchanged) state. */
  lemma LoginFailuresAlike(st: State, s: Settings, unknown: string, known: string, wrong: string,
                           password: string, jti: string, token: string, now: int)
    requires UsersRepo.GetByEmail(st.users, unknown).None?
    requires UsersRepo.GetByEmail(st.users, known).Some?
    requires !Hasher.Verify(wrong, UsersRepo.GetByEmail(st.users, known).value.passwordHash)
    ensures Login(st, s, unknown, password, jti, token, now) == Login(st, s, known, wrong, jti, token, now)
  {
  }

  /** After logout, the token can no longer be refreshed, at any time. */
  lemma LogoutThenRefreshFails(st: State, s: Settings, token: string, jti: string, now: int)
    ensures Refresh(Logout(st, token), s, token, jti, now).result == Err(App(BadRefresh))
  {
  }

  /** Logging out twice is the same as logging out once. */
  lemma LogoutIdempotent(st: State, token: string)
    ensures Logout(Logout(st, token), token) == Logout(st, token)
  {
  }

  /** A user who has just signed up can log in with the password given. */
  lemma SignupThenLogin(st: State, p: AuthSchemas.SignUpPayload, salt: string, now: int,
                        s: Settings, jti: string, token: string, later: int)
    requires Valid(st)
    requires Signup(st, p, salt, now).result.Ok?
    ensures Login(Signup(st, p, salt, now).state, s, p.email, p.password, jti, token, later).result.Ok?
  {
    var next := Signup(st, p, salt, now).state;
    var u :| next.users.rows == st.users.rows + [u] && u.email == p.email
             && u.passwordHash == Hasher.Hash(p.password, salt);
    assert u in next.users.rows;
    UsersRepo.GetByEmailUnique(next.users, u);
    Hasher.VerifyOwnHash(p.password, salt);
  }

  /** A second signup with a registered email is refused and the user
      table keeps its rows. */
  lemma DuplicateSignupRefused(st: State, p: AuthSchemas.SignUpPayload, q: AuthSchemas.SignUpPayload,
                               salt: string, salt2: string, now: int, later: int)
    requires Signup(st, p, salt, now).result.Ok?
    requires q.email == p.email
    ensures var st2 := Signup(st, p, salt, now).state;
      Signup(st2, q, salt2, later) == Step(State(UsersRepo.Table(st2.users.rows, st2.users.nextId + 1), st2.kv),
                                           Err(App(EmailTaken)))
  {
    var st2 := Signup(st, p, salt, now).state;
    var u :| st2.users.rows == st.users.rows + [u] && u.email == p.email;
    assert u in st2.users.rows;
  }

  /** In a valid state a refresh never fails on the stored id: it either
      finds no live session or succeeds, and the access token it returns
      admits the session's user at the gate. */
  lemma ValidRefreshAdmitsUser(st: State, s: Settings, token: string, jti: string, now: int)
    requires Valid(st)
    requires Kv.Get(st.kv, RefreshKey(token), now).Some?
    requires s.accessMin > 0
    ensures Refresh(st, s, token, jti, now).result.Ok?
    ensures Deps.GetCurrentUser(s, st.users, Refresh(st, s, token, jti, now).result.value.accessToken, now).Ok?
  {
    var k := RefreshKey(token);
    assert IsRefreshKey(k);
    var id := Decimal.Parse(st.kv[k].value).value;
    var u := UsersRepo.GetById(st.users, id).value;
    assert st.kv[k].value != "";
    Decimal.ParseShow(u.id);
  }

  /** The access token login returns admits the user who logged in for
      `ACCESS_MIN` minutes, and nobody afterwards. */
  lemma LoginAdmitsUser(st: State, s: Settings, email: string, password: string, jti: string, token: string,
                        now: int, later: int)
    requires Valid(st)
    requires Login(st, s, email, password, jti, token, now).result.Ok?
    requires now <= later
    ensures var r := Login(st, s, email, password, jti, token, now);
      var gate := Deps.GetCurrentUser(s, r.state.users, r.result.value.accessToken, later);
      && (later < now + s.accessMin * SecondsPerMinute ==> gate == Ok(UsersRepo.GetByEmail(st.users, email).value))
      && (later >= now + s.accessMin * SecondsPerMinute ==> gate == Err(Deps.Rejected(Security.InvalidOrExpired)))
  {
    var u := UsersRepo.GetByEmail(st.users, email).value;
    Decimal.ParseShow(u.id);
    UsersRepo.GetByIdUnique(st.users, u);
  }

  /** Login, then refresh with the returned token before it expires: the new
      access token admits the user who logged in. */
  lemma LoginThenRefresh(st: State, s: Settings, email: string, password: string, jti: string, token: string,
                         now: int, jti2: string, later: int)
    requires Valid(st)
    requires Login(st, s, email, password, jti, token, now).result.Ok?
    requires now <= later < now + s.refreshDays * SecondsPerDay
    requires s.accessMin > 0
    ensures var st2 := Login(st, s, email, password, jti, token, now).state;
      && Refresh(st2, s, token, jti2, later).result.Ok?
      && Deps.GetCurrentUser(s, st2.users, Refresh(st2, s, token, jti2, later).result.value.accessToken, later)
         == Ok(UsersRepo.GetByEmail(st.users, email).value)
  {
    var st2 := Login(st, s, email, password, jti, token, now).state;
    var u := UsersRepo.GetByEmail(st.users, email).value;
    assert st2.kv[RefreshKey(token)].value == Decimal.Show(u.id);
    Decimal.ParseShow(u.id);
    UsersRepo.GetByIdUnique(st.users, u);
  }

  /** The `rt:` keys of the refresh-session registry and the `refresh:`
      keys this service reads never coincide. */
  lemma NamespacesDisjoint(jti: string, token: string)
    ensures RefreshStore.Key(jti) != RefreshKey(token)
  {
    assert RefreshStore.Key(jti)[1] == 't';
    assert RefreshKey(token)[1] == 'e';
  }

  /** Consequently a session saved through the registry never makes a
      refresh succeed or fail differently: the two stores do not meet. */
  lemma RefreshIgnoresRegistry(st: State, s: Settings, token: string, jti: string, now: int,
                               sessionJti: string, userId: string, ttlSec: int, savedAt: int)
    requires RefreshStore.SaveRefresh(st.kv, sessionJti, userId, ttlSec, savedAt).Ok?
    ensures var kv := RefreshStore.SaveRefresh(st.kv, sessionJti, userId, ttlSec, savedAt).value;
      Refresh(State(st.users, kv), s, token, jti, now).result == Refresh(st, s, token, jti, now).result
  {
    NamespacesDisjoint(sessionJti, token);
  }

  /** Login never checks the 72-byte ceiling, so for a user whose password
      is exactly 72 bytes, any extension of it logs in as well. */
  lemma LoginAcceptsExtension(st: State, s: Settings, u: UsersRepo.User, password: string, salt: string,
                              suffix: string, jti: string, token: string, now: int)
    requires UsersRepo.Valid(st.users) && u in st.users.rows
    requires u.passwordHash == Hasher.Hash(password, salt)
    requires Utf8.ByteLength(password) == Hasher.MaxKeyBytes
    ensures Login(st, s, u.email, password + suffix, jti, token, now).result.Ok?
  {
    UsersRepo.GetByEmailUnique(st.users, u);
    Hasher.ExtensionVerifies(password, suffix, salt);
  }
}
