/** The application exceptions of `app/errors/exceptions.py`: `AppError`
    carries an HTTP status code and a detail message, and each of its four
    subclasses fixes the code and supplies a default detail. */
module AppErrors {

  /** The class an error was raised as. */
  datatype ErrorClass = Base | UnauthorizedClass | ForbiddenClass | NotFoundClass | ConflictClass

  datatype AppError = AppError(cls: ErrorClass, code: int, detail: string)

  /** `AppError(code, detail)`. */
  function NewAppError(code: int, detail: string): (e: AppError)
    ensures e.code == code && e.detail == detail
  {
    AppError(Base, code, detail)
  }

  /** `Unauthorized(detail="Unauthorized")`. */
  function Unauthorized(detail: string := "Unauthorized"): (e: AppError)
    ensures e.code == 401 && e.detail == detail
  {
    AppError(UnauthorizedClass, 401, detail)
  }

  /** `Forbidden(detail="Forbidden")`. */
  function Forbidden(detail: string := "Forbidden"): (e: AppError)
    ensures e.code == 403 && e.detail == detail
  {
    AppError(ForbiddenClass, 403, detail)
  }

  /** `NotFound(detail="Not Found")`. */
  function NotFound(detail: string := "Not Found"): (e: AppError)
    ensures e.code == 404 && e.detail == detail
  {
    AppError(NotFoundClass, 404, detail)
  }

  /** `Conflict(detail="Conflict")`. */
  function Conflict(detail: string := "Conflict"): (e: AppError)
    ensures e.code == 409 && e.detail == detail
  {
    AppError(ConflictClass, 409, detail)
  }

  /** The subclass whose fixed code is `code`, if any. */
  function ClassForCode(code: int): ErrorClass
  {
    if code == 401 then UnauthorizedClass
    else if code == 403 then ForbiddenClass
    else if code == 404 then NotFoundClass
    else if code == 409 then ConflictClass
    else Base
  }

  /** The subclasses' codes are pairwise distinct, so the status of a
      response identifies the subclass that was raised; without an explicit
      detail each one reports its default. */
  lemma CodeIdentifiesClass(detail: string)
    ensures ClassForCode(Unauthorized(detail).code) == UnauthorizedClass
    ensures ClassForCode(Forbidden(detail).code) == ForbiddenClass
    ensures ClassForCode(NotFound(detail).code) == NotFoundClass
    ensures ClassForCode(Conflict(detail).code) == ConflictClass
    ensures Unauthorized().detail == "Unauthorized" && Forbidden().detail == "Forbidden"
    ensures NotFound().detail == "Not Found" && Conflict().detail == "Conflict"
  {
  }
}
