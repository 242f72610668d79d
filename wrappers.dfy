/** Option and Result, the usual failure-compatible wrappers. `None` stands for a Java `null`. */
module Wrappers {

  datatype Option<+T> = None | Some(value: T)

  datatype Result<+R, +E> = Success(value: R) | Failure(error: E)

  /** A call that returns nothing on success (Java `void`) or fails with an error. */
  datatype Outcome<+E> = Pass | Fail(error: E)
}
