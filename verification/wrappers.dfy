/** Failure-carrying datatypes shared by the log store and the log reader. */
module Wrappers {

  /** A value that may be missing: Swift's `Optional`. */
  datatype Option<+T> = None | Some(value: T)

  /** The outcome of an operation that produces a value or throws. */
  datatype Result<+T, +E> = Success(value: T) | Failure(error: E)

  /** The outcome of an operation that produces no value but may throw:
      the `Error?` handed to a write completion handler. */
  datatype Outcome<+E> = Pass | Fail(error: E)
}
