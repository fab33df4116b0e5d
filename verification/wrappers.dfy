/** The failure-carrying shapes the model uses where the program returns
    `undefined` or throws. */
module Wrappers {

  /** A value that may be absent (`undefined` in the program). */
  datatype Option<+T> = None | Some(value: T)

  /** The outcome of an operation that either returns a value or throws. */
  datatype Result<+T, +E> = Success(value: T) | Failure(error: E)

  /** The outcome of a check that either passes silently or throws. */
  datatype Outcome<+E> = Pass | Fail(error: E)
}
