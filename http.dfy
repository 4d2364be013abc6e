/** The web framework's error vocabulary as the handlers use it. */
module Http {

  datatype HttpError = HttpError(status: int, detail: string)

  /** What a handler body can raise: a framework `HTTPException` or anything else. */
  datatype Exc = HttpException(error: HttpError) | OtherException(message: string)

  /** A handler's outcome: it returned a value or raised. */
  datatype Outcome<+T> = Returned(value: T) | Raised(exc: Exc)
}
