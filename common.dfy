/** Shared vocabulary: optional values, partially supplied request fields and the
    error outcomes every handler can answer with. */
module Common {

  datatype Option<T> = None | Some(value: T)

  /** A field of a partial-update request body: left out by the client (`Unset`), or
      present with a value, which may itself be null (`Set(None)`). */
  datatype Field<T> = Unset | Set(value: T)

  /** One entry of a request-validation failure: the offending field and the kind of
      constraint it broke. */
  datatype Violation = Violation(field: string, kind: string)

  /** The error responses of the API. */
  datatype Error =
    | BadRequest(detail: string)                 // 400
    | Unauthorized(detail: string)               // 401
    | Forbidden(detail: string)                  // 403
    | NotFound(detail: string)                   // 404
    | Conflict(detail: string)                   // 409
    | ValidationFailed(violations: seq<Violation>) // 422, request body or query rejected
    | Unprocessable(detail: string)              // 422, raised by a handler
    | ServerError(detail: string)                // 500, an unhandled exception

  /** The body of every 500 answer: the framework's text for an unhandled exception, a
      commit the store refused or a response that failed its own schema. */
  const InternalServerError := "Internal Server Error"

  datatype Result<T> = Ok(value: T) | Err(error: Error)

  /** Python truthiness of an optional integer: None and 0 are falsy. */
  predicate TruthyInt(o: Option<int>) {
    o.Some? && o.value != 0
  }

  /** Python truthiness of an optional string: None and "" are falsy. */
  predicate TruthyStr(o: Option<string>) {
    o.Some? && o.value != ""
  }
}
