/** The bearer gate `get_current_user` of `app/core/deps.py`: which access
    tokens identify a user, and the exception each rejected token yields. */
module Deps {
  import opened Wrappers
  import opened Http
  import opened Config
  import Security
  import Decimal
  import UsersRepo

  /** What the `try` block around `decode_token` can end in: a payload, the
      `HTTPException` decoding raised, or any other exception. */
  datatype DecodeOutcome =
    | Decoded(claims: Security.Claims)
    | RaisedHttp(e: HttpException)
    | RaisedOther

  /** A rejection: an `HTTPException`, or the `ValueError` that `int(sub)`
      raises outside the `try` (a server error). */
  datatype GateError = Rejected(e: HttpException) | ServerError

  const InvalidTokenType: HttpException := HttpException(Unauthorized401, "Invalid token type", BearerChallenge)
  const NoSub: HttpException := HttpException(Unauthorized401, "Invalid token, no sub", BearerChallenge)
  const CouldNotValidate: HttpException := HttpException(Unauthorized401, "Could not validate credentials", BearerChallenge)
  const UserNotFound: HttpException := HttpException(Unauthorized401, "User not found", BearerChallenge)

  /** The decision `get_current_user` takes once decoding has ended in `d`. */
  function Authenticate(d: DecodeOutcome, users: UsersRepo.Table): (r: Result<UsersRepo.User, GateError>)
    ensures d.RaisedHttp? ==> r == Err(Rejected(d.e))
    ensures d.RaisedOther? ==> r == Err(Rejected(CouldNotValidate))
    ensures d.Decoded? && d.claims.typ != Some(Security.AccessType) ==> r == Err(Rejected(InvalidTokenType))
    ensures d.Decoded? && d.claims.typ == Some(Security.AccessType) && d.claims.sub.None?
            ==> r == Err(Rejected(NoSub))
    ensures d.Decoded? && d.claims.typ == Some(Security.AccessType) && d.claims.sub.Some?
            && Decimal.Parse(d.claims.sub.value).Some?
            && UsersRepo.GetById(users, Decimal.Parse(d.claims.sub.value).value).None?
            ==> r == Err(Rejected(UserNotFound))
    ensures r == Err(ServerError) <==>
              d.Decoded? && d.claims.typ == Some(Security.AccessType) && d.claims.sub.Some?
              && Decimal.Parse(d.claims.sub.value).None?
    ensures r.Ok? <==>
              d.Decoded? && d.claims.typ == Some(Security.AccessType) && d.claims.sub.Some?
              && Decimal.Parse(d.claims.sub.value).Some?
              && UsersRepo.GetById(users, Decimal.Parse(d.claims.sub.value).value).Some?
    ensures r.Ok? ==> r.value in users.rows && Decimal.Parse(d.claims.sub.value) == Some(r.value.id)
  {
    match d
    case RaisedHttp(e) => Err(Rejected(e))
    case RaisedOther => Err(Rejected(CouldNotValidate))
    case Decoded(c) =>
      if c.typ != Some(Security.AccessType) then Err(Rejected(InvalidTokenType))
      else if c.sub.None? then Err(Rejected(NoSub))
      else
        match Decimal.Parse(c.sub.value)
        case None => Err(ServerError)
        case Some(id) =>
          match UsersRepo.GetById(users, id)
          case None => Err(Rejected(UserNotFound))
          case Some(u) => Ok(u)
  }

  /** `decode_token(token)` as the gate sees it. The model's codec raises
      only `HTTPException`; the other branch stands for failures outside it. */
  function DecodeForGate(s: Settings, token: Security.Token, now: int): DecodeOutcome
  {
    match Security.DecodeToken(s, token, now, true)
    case Ok(c) => Decoded(c)
    case Err(e) => RaisedHttp(e)
  }

  /** `get_current_user(token)` at instant `now`. */
  function GetCurrentUser(s: Settings, users: UsersRepo.Table, token: Security.Token, now: int)
    : (r: Result<UsersRepo.User, GateError>)
    ensures r.Ok? ==>
              && Security.Accepts(s, token, now, true)
              && token.claims.typ == Some(Security.AccessType)
              && token.claims.sub.Some?
              && Decimal.Parse(token.claims.sub.value) == Some(r.value.id)
              && r.value in users.rows
    ensures !Security.Accepts(s, token, now, true) ==> r == Err(Rejected(Security.InvalidOrExpired))
  {
    Authenticate(DecodeForGate(s, token, now), users)
  }

  /** A token that does not decode is refused with decoding's own 401,
      passed on unchanged (no bearer challenge added). */
  lemma UndecodableTokenRefused(s: Settings, users: UsersRepo.Table, token: Security.Token, now: int)
    requires !Security.Accepts(s, token, now, true)
    ensures GetCurrentUser(s, users, token, now) == Err(Rejected(Security.InvalidOrExpired))
  {
  }

  /** A refresh token is never accepted as a bearer credential: one that
      decodes is 401 "Invalid token type", any other is decoding's own 401. */
  lemma RefreshTokenRefused(s: Settings, users: UsersRepo.Table, sub: string, jti: string, issued: int, now: int)
    ensures var token := Security.CreateRefreshToken(s, sub, jti, issued);
      GetCurrentUser(s, users, token, now)
      == Err(Rejected(if Security.Accepts(s, token, now, true) then InvalidTokenType else Security.InvalidOrExpired))
  {
  }

  /** An access token issued for an existing user's id admits exactly that
      user for `ACCESS_TTL_MIN` minutes, and nobody afterwards. */
  lemma AccessTokenAdmitsItsUser(s: Settings, users: UsersRepo.Table, u: UsersRepo.User,
                                 jti: Option<string>, newJti: string, issued: int, now: int)
    requires UsersRepo.Valid(users) && u in users.rows
    requires issued <= now
    ensures var r := GetCurrentUser(s, users, Security.CreateAccessToken(s, Decimal.Show(u.id), jti, newJti, issued), now);
      && (now < issued + s.accessTtlMin * SecondsPerMinute ==> r == Ok(u))
      && (now >= issued + s.accessTtlMin * SecondsPerMinute ==> r == Err(Rejected(Security.InvalidOrExpired)))
  {
    Decimal.ParseShow(u.id);
    UsersRepo.GetByIdUnique(users, u);
  }
}
