/** Token and credential rules of `app/core/security.py`.

    Signing is symbolic: a token is either a signed claim set, recording the
    algorithm named in its header and the key it was signed with, or
    text that does not parse as a token at all. A signature checks out
    exactly when it was made with the configured secret. Timestamps are
    integer seconds (PyJWT writes `exp`/`iat` datetimes as whole seconds). */
module Security {
  import opened Wrappers
  import opened Config
  import opened Http
  import Utf8

  /** The registered claims of section 4.1 of RFC 7519 the source uses
      (`sub`, `exp`, `iat`, `jti`) plus its private `type` claim; a decoded
      payload may lack any of them. */
  datatype Claims = Claims(
    sub: Option<string>,
    typ: Option<string>,
    jti: Option<string>,
    iat: Option<int>,
    exp: Option<int>)

  datatype Token =
    | Signed(alg: string, claims: Claims, key: string)
    | Malformed(raw: string)

  const AccessType: string := "access"
  const RefreshType: string := "refresh"
  const PasswordByteLimit: nat := 72

  const PasswordTooLong: HttpException :=
    HttpException(Unprocessable422, "Password must be 72 bytes or less", [])

  /** The one exception every decoding failure becomes. */
  const InvalidOrExpired: HttpException :=
    HttpException(Unauthorized401, "Invalid or expired token", [])

  /** `enforce_password_length`: refuses a password whose UTF-8 encoding is
      longer than 72 bytes. */
  function EnforcePasswordLength(password: string): (r: Result<(), HttpException>)
    ensures r.Ok? <==> Utf8.ByteLength(password) <= PasswordByteLimit
    ensures r.Err? ==> r.error == PasswordTooLong
  {
    Utf8.EncodeLength(password);
    if |Utf8.Encode(password)| > PasswordByteLimit then Err(PasswordTooLong) else Ok(())
  }

  /** `jwt.encode(claims, secret, algorithm)`. */
  function Encode(claims: Claims, secret: string, alg: string): Token
  {
    Signed(alg, claims, secret)
  }

  /** `create_access_token(sub, jti)` at instant `now`; `newJti` is the
      `uuid4()` drawn when no `jti` is passed. */
  function CreateAccessToken(s: Settings, sub: string, jti: Option<string>, newJti: string, now: int): (t: Token)
    ensures Accepts(s, t, now, false)
    ensures s.accessTtlMin > 0 <==> Accepts(s, t, now, true)
    ensures t.claims.typ == Some(AccessType) && t.claims.sub == Some(sub)
  {
    var id := if jti.Some? then jti.value else newJti;
    Encode(Claims(Some(sub), Some(AccessType), Some(id), Some(now),
                  Some(now + s.accessTtlMin * SecondsPerMinute)),
           s.jwtSecret, s.jwtAlg)
  }

  /** `create_refresh_token(sub, jti)` at instant `now`. */
  function CreateRefreshToken(s: Settings, sub: string, jti: string, now: int): (t: Token)
    ensures Accepts(s, t, now, false)
    ensures s.refreshTtlDays > 0 <==> Accepts(s, t, now, true)
    ensures t.claims.typ == Some(RefreshType) && t.claims.sub == Some(sub) && t.claims.jti == Some(jti)
  {
    Encode(Claims(Some(sub), Some(RefreshType), Some(jti), Some(now),
                  Some(now + s.refreshTtlDays * SecondsPerDay)),
           s.jwtSecret, s.jwtAlg)
  }

  /** PyJWT's rule: a token is expired once `now >= exp`. */
  predicate Expired(c: Claims, now: int) {
    c.exp.Some? && c.exp.value <= now
  }

  /** PyJWT's rule: a token issued in the future is not yet valid. */
  predicate Immature(c: Claims, now: int) {
    c.iat.Some? && c.iat.value > now
  }

  /** Whether `jwt.decode` accepts the token at `now`. The signature and the
      algorithm are always checked; expiry only when `verifyExp`. */
  predicate Accepts(s: Settings, t: Token, now: int, verifyExp: bool) {
    && t.Signed?
    && t.alg == s.jwtAlg
    && t.key == s.jwtSecret
    && !Immature(t.claims, now)
    && !(verifyExp && Expired(t.claims, now))
  }

  /** `decode_token(token, verify_exp)`: the payload, or 401 "Invalid or
      expired token" whatever the reason for refusal. */
  function DecodeToken(s: Settings, t: Token, now: int, verifyExp: bool): (r: Result<Claims, HttpException>)
    ensures r.Ok? <==> Accepts(s, t, now, verifyExp)
    ensures r.Ok? ==> r.value == t.claims
    ensures r.Err? ==> r.error == InvalidOrExpired
  {
    if t.Malformed? then Err(InvalidOrExpired)
    else if t.alg != s.jwtAlg || t.key != s.jwtSecret then Err(InvalidOrExpired)
    else if Immature(t.claims, now) then Err(InvalidOrExpired)
    else if verifyExp && Expired(t.claims, now) then Err(InvalidOrExpired)
    else Ok(t.claims)
  }

  /** The claims of an access token: type "access", the given subject, the
      given `jti` or else the new one, and an expiry `ACCESS_TTL_MIN`
      minutes after issue; decoding it before then returns exactly them. */
  lemma AccessTokenRoundTrip(s: Settings, sub: string, jti: Option<string>, newJti: string, now: int, later: int)
    requires now <= later < now + s.accessTtlMin * SecondsPerMinute
    ensures var r := DecodeToken(s, CreateAccessToken(s, sub, jti, newJti, now), later, true);
      && r.Ok?
      && r.value.typ == Some(AccessType)
      && r.value.sub == Some(sub)
      && r.value.jti == (if jti.Some? then jti else Some(newJti))
      && r.value.iat == Some(now)
      && r.value.exp == Some(now + s.accessTtlMin * SecondsPerMinute)
  {
  }

  /** The claims of a refresh token: type "refresh", the caller's subject and
      `jti`, and an expiry `REFRESH_TTL_DAYS` days after issue; decoding it
      before then returns exactly them. */
  lemma RefreshTokenRoundTrip(s: Settings, sub: string, jti: string, now: int, later: int)
    requires now <= later < now + s.refreshTtlDays * SecondsPerDay
    ensures var r := DecodeToken(s, CreateRefreshToken(s, sub, jti, now), later, true);
      && r.Ok?
      && r.value == Claims(Some(sub), Some(RefreshType), Some(jti), Some(now),
                           Some(now + s.refreshTtlDays * SecondsPerDay))
  {
  }

  /** Once its expiry has passed, a token is refused with expiry checking on
      and still decodes, to the same claims, with it off. */
  lemma ExpiredStillDecodesUnverified(s: Settings, sub: string, jti: string, now: int, later: int)
    requires later >= now + s.refreshTtlDays * SecondsPerDay && later >= now
    ensures DecodeToken(s, CreateRefreshToken(s, sub, jti, now), later, true) == Err(InvalidOrExpired)
    ensures DecodeToken(s, CreateRefreshToken(s, sub, jti, now), later, false).Ok?
    ensures DecodeToken(s, CreateRefreshToken(s, sub, jti, now), later, false).value
            == CreateRefreshToken(s, sub, jti, now).claims
  {
  }

  /** The same holds of access tokens. */
  lemma ExpiredAccessStillDecodesUnverified(s: Settings, sub: string, jti: Option<string>, newJti: string, now: int, later: int)
    requires later >= now + s.accessTtlMin * SecondsPerMinute && later >= now
    ensures DecodeToken(s, CreateAccessToken(s, sub, jti, newJti, now), later, true) == Err(InvalidOrExpired)
    ensures DecodeToken(s, CreateAccessToken(s, sub, jti, newJti, now), later, false)
            == Ok(CreateAccessToken(s, sub, jti, newJti, now).claims)
  {
  }

  /** A token signed with another key or algorithm never decodes, whether or
      not expiry is checked. */
  lemma ForeignSignatureRefused(s: Settings, c: Claims, key: string, alg: string, now: int, verifyExp: bool)
    requires key != s.jwtSecret || alg != s.jwtAlg
    ensures DecodeToken(s, Encode(c, key, alg), now, verifyExp) == Err(InvalidOrExpired)
  {
  }

  /** Turning expiry checking off only ever admits more tokens, and admits
      them with the same claims. */
  lemma VerifyExpMonotone(s: Settings, t: Token, now: int)
    ensures DecodeToken(s, t, now, true).Ok? ==> DecodeToken(s, t, now, false) == DecodeToken(s, t, now, true)
  {
  }
}
