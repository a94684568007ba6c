/** Result and outcome types standing for the exceptions the watcher throws. */
module Wrappers {

  /** A computed value, or the error that would have been thrown instead. */
  datatype Result<+T, +E> = Success(value: T) | Failure(error: E)

  /** Completion of an operation that returns nothing, or the error it threw. */
  datatype Outcome<+E> = Pass | Fail(error: E)
}
