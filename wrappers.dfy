/** Failure-carrying results: the model's stand-in for the exceptions the sorter throws. */
module Wrappers {

  /** Either a value or an error. */
  datatype Result<+T, +E> = Success(value: T) | Failure(error: E)

  /** Either normal completion or an error, for operations that return nothing. */
  datatype Outcome<+E> = Pass | Fail(error: E)
}
