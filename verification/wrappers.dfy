/** Failure-carrying result types shared by the other modules. */
module Wrappers {

  datatype Option<+T> = None | Some(value: T)

  /** An operation that yields a value or fails with an error (a thrown exception in the source). */
  datatype Result<+R, +E> = Success(value: R) | Failure(error: E)

  /** An operation that yields nothing on success or fails with an error. */
  datatype Outcome<+E> = Pass | Fail(error: E)
}
