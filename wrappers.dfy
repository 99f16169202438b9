/** The optional value, the value-or-error and the success-or-error types shared by the other modules. */
module Wrappers {

  /** A value that may be absent: a missing map entry, a null column, a query that found nothing. */
  datatype Option<+T> = None | Some(value: T)

  /** The outcome of an operation that either produces a value or raises an error with a message. */
  datatype Result<+T, +E> = Success(value: T) | Failure(error: E)

  /** The outcome of an operation that produces nothing but may raise an error with a message. */
  datatype Outcome<+E> = Pass | Fail(error: E)
}
