/** Failure-carrying wrappers shared by the lexer and the type inspector. */
module Wrappers {

  /** A value that may be absent (the source's `T | undefined`). */
  datatype Option<+T> = None | Some(value: T)

  /** The outcome of an operation that either succeeds with a value or fails with an error. */
  datatype Result<+R, +E> = Success(value: R) | Failure(error: E)
}
