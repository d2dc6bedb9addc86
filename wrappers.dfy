/** Optional values and results with an error value, standing for Java's
    Optional/null and for exceptions thrown by the modelled code. */
module Wrappers {

  datatype Option<+T> = None | Some(value: T)

  datatype Result<+T, +E> = Success(value: T) | Failure(error: E)

  /** Success or a failure value, for operations that return nothing. */
  datatype Outcome<+E> = Pass | Fail(error: E)
}
