/** FastAPI's `HTTPException` as a value: status, detail and extra headers. */
module Http {

  datatype Header = Header(name: string, value: string)

  datatype HttpException = HttpException(status: int, detail: string, headers: seq<Header>)

  const Unauthorized401: int := 401
  const Forbidden403: int := 403
  const NotFound404: int := 404
  const Unprocessable422: int := 422

  /** The challenge header the bearer gate attaches to its rejections. */
  const BearerChallenge: seq<Header> := [Header("WWW-Authenticate", "Bearer")]
}
