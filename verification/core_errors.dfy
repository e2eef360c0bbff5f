/** The standard error envelope of `app/core/errors.py`:
    `{"error": {"code": ..., "message": ..., "details"?: ...}}` with the
    status repeated as `code`, and the three handlers built on it. */
module CoreErrors {
  import opened Wrappers
  import opened Json
  import opened Http
  import Validation

  datatype JsonResponse = JsonResponse(status: int, content: Json, headers: seq<Header>)

  /** `standard_error(code, message, details)`; `details` is attached only
      when it is truthy. */
  function StandardError(code: int, message: string, details: Option<Json>): (r: JsonResponse)
    ensures r.status == code && r.headers == []
    ensures Get(r.content, "error").Some?
    ensures var err := Get(r.content, "error").value;
      && Get(err, "code") == Some(JInt(code))
      && Get(err, "message") == Some(JStr(message))
      && (Get(err, "details").Some? <==> details.Some? && Truthy(details.value))
      && (Get(err, "details").Some? ==> Get(err, "details") == details)
  {
    var base := [("code", JInt(code)), ("message", JStr(message))];
    var fields := if details.Some? && Truthy(details.value) then base + [("details", details.value)] else base;
    LookupAt(fields, "message", 1);
    assert Lookup(fields, "details") == (if details.Some? && Truthy(details.value) then details else None) by {
      if details.Some? && Truthy(details.value) {
        LookupAt(fields, "details", 2);
      }
    }
    JsonResponse(code, JObj([("error", JObj(fields))]), [])
  }

  /** `http_exception_handler`: keeps the exception's status and detail. */
  function HttpExceptionHandler(e: HttpException): (r: JsonResponse)
    ensures r.status == e.status
    ensures Get(r.content, "error").Some? && Get(Get(r.content, "error").value, "message") == Some(JStr(e.detail))
  {
    StandardError(e.status, e.detail, None)
  }

  /** `validation_error_handler`: 422 "Validation error" with the error list. */
  function ValidationErrorHandler(errors: seq<Validation.FieldError>): (r: JsonResponse)
    ensures r.status == 422
    ensures Get(r.content, "error").Some? && Get(Get(r.content, "error").value, "message") == Some(JStr("Validation error"))
    ensures Get(r.content, "error").Some? && Get(Get(r.content, "error").value, "details").Some? <==> |errors| > 0
    ensures |errors| > 0 ==> Get(Get(r.content, "error").value, "details") == Some(Validation.ErrorsJson(errors))
  {
    StandardError(422, "Validation error", Some(Validation.ErrorsJson(errors)))
  }

  /** `integrity_error_handler`: 409 "Conflict", no details. */
  function IntegrityErrorHandler(): (r: JsonResponse)
    ensures r.status == 409
    ensures Get(r.content, "error").Some? && Get(Get(r.content, "error").value, "message") == Some(JStr("Conflict"))
    ensures Get(r.content, "error").Some? && Get(Get(r.content, "error").value, "details").None?
  {
    StandardError(409, "Conflict", None)
  }

  /** The envelope is rebuilt from status and detail alone: the headers an
      exception carried (the bearer challenge of a 401) are not passed on. */
  lemma HttpHandlerDropsHeaders(e: HttpException)
    ensures HttpExceptionHandler(e).headers == []
  {
  }
}
