/** The `ErrorOr` library's error values as the services return them: a
    failed call carries a non-empty list of errors, each with a code, a
    description and a type. */
module Errors {

  /** `ErrorOr.ErrorType`; `Custom` stands for the numeric custom types the
      library also allows. */
  datatype ErrorType =
    | Failure | Unexpected | Validation | Conflict | NotFound | Unauthorized | Forbidden
    | Custom(kind: int)

  datatype Error = Error(code: string, description: string, kind: ErrorType)

  /** `ErrorOr<T>`: a value, or the errors that replace it. */
  datatype ErrorOr<+T> = Value(value: T) | Errors(errors: seq<Error>) {
    predicate IsError() {
      Errors?
    }
  }

  function ConflictError(code: string, description: string): Error {
    Error(code, description, Conflict)
  }

  function NotFoundError(code: string, description: string): Error {
    Error(code, description, NotFound)
  }

  function ValidationError(code: string, description: string): Error {
    Error(code, description, Validation)
  }
}
