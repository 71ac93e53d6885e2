/**
 * The exception kinds the services throw, and the shapes of their outcomes.
 * Every service method either completes or throws one of these; the HTTP status
 * each maps to is presentation and is not modelled.
 */
module Errors {

  datatype Option<T> = None | Some(value: T)

  /** UserNotFoundException, PostNotFoundException, CommentNotFoundException,
      IllegalArgumentException and IllegalStateException. */
  datatype ErrorKind =
    | UserNotFound
    | PostNotFound
    | CommentNotFound
    | IllegalArgument
    | IllegalState

  /** The outcome of a `void` service method: it returns, or it throws. */
  datatype Outcome = Success | Failure(error: ErrorKind)

  /** The outcome of a service method that returns a value. */
  datatype Result<T> = Ok(value: T) | Err(error: ErrorKind)
}
