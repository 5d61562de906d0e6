/** Option and result datatypes shared by the other modules. */
module Wrappers {

  /** A value that may be absent: JavaScript's `null` where the source returns it. */
  datatype Option<+T> = None | Some(value: T)

  /** The outcome of an operation that either returns a value or throws. */
  datatype Result<+R, +E> = Success(value: R) | Failure(error: E)

  /** The outcome of a guard that either returns normally or throws. */
  datatype Outcome<+E> = Pass | Fail(error: E)
}
