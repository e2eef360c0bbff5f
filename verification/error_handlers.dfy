/** The exception handlers of `app/errors/handlers.py`, the ones
    `app/main.py` registers: each handled exception kind becomes a JSON
    response whose body repeats the status as `code`. */
module ErrorHandlers {
  import opened Wrappers
  import opened Json
  import opened AppErrors
  import Validation

  datatype JsonResponse = JsonResponse(status: int, content: Json)

  /** The exceptions that can reach the application boundary. */
  datatype Raised =
    | RaisedApp(e: AppError)
    | RaisedValidation(errors: seq<Validation.FieldError>)
    | RaisedIntegrity
    | RaisedOther

  /** `app_error_handler`. */
  function AppErrorHandler(e: AppError): (r: JsonResponse)
    ensures r.status == e.code
    ensures Get(r.content, "code") == Some(JInt(e.code))
    ensures Get(r.content, "detail") == Some(JStr(e.detail))
  {
    var fields := [("code", JInt(e.code)), ("detail", JStr(e.detail))];
    LookupAt(fields, "detail", 1);
    JsonResponse(e.code, JObj(fields))
  }

  /** `validation_error_handler`: 422 with the error list as `detail`. */
  function ValidationErrorHandler(errors: seq<Validation.FieldError>): (r: JsonResponse)
    ensures r.status == 422
    ensures Get(r.content, "code") == Some(JInt(422))
    ensures Get(r.content, "detail") == Some(Validation.ErrorsJson(errors))
  {
    var fields := [("code", JInt(422)), ("detail", Validation.ErrorsJson(errors))];
    LookupAt(fields, "detail", 1);
    JsonResponse(422, JObj(fields))
  }

  /** `integrity_error_handler`: 409 "Database integrity error". */
  function IntegrityErrorHandler(): (r: JsonResponse)
    ensures r.status == 409
    ensures Get(r.content, "code") == Some(JInt(409))
    ensures Get(r.content, "detail") == Some(JStr("Database integrity error"))
  {
    var fields := [("code", JInt(409)), ("detail", JStr("Database integrity error"))];
    LookupAt(fields, "detail", 1);
    JsonResponse(409, JObj(fields))
  }

  /** `register_exception_handlers`: each kind goes to its own handler;
      anything else is left to FastAPI's own handlers (an `HTTPException`
      keeps its status, any other exception is a 500). */
  function Dispatch(x: Raised): (r: Option<JsonResponse>)
    ensures r.Some? <==> !x.RaisedOther?
    ensures x.RaisedApp? ==> r == Some(AppErrorHandler(x.e))
    ensures x.RaisedValidation? ==> r == Some(ValidationErrorHandler(x.errors))
    ensures x.RaisedIntegrity? ==> r == Some(IntegrityErrorHandler())
  {
    match x
    case RaisedApp(e) => Some(AppErrorHandler(e))
    case RaisedValidation(errors) => Some(ValidationErrorHandler(errors))
    case RaisedIntegrity => Some(IntegrityErrorHandler())
    case RaisedOther => None
  }

  /** Every handled response carries its own status as the body's `code`. */
  lemma BodyCodeIsStatus(x: Raised)
    requires Dispatch(x).Some?
    ensures Get(Dispatch(x).value.content, "code") == Some(JInt(Dispatch(x).value.status))
  {
  }

  /** The subclasses' default details reach the client unchanged. */
  lemma DefaultDetailsReachClient()
    ensures AppErrorHandler(Unauthorized()).status == 401
    ensures Get(AppErrorHandler(Unauthorized()).content, "detail") == Some(JStr("Unauthorized"))
    ensures Get(AppErrorHandler(Conflict("Email already registered")).content, "detail")
            == Some(JStr("Email already registered"))
  {
  }
}
