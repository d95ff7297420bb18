/** Failure-carrying values used by the model in place of Python's
    exceptions and the dashboard's early stops. */
module Wrappers {

  datatype Option<+T> = None | Some(value: T)

  datatype Result<+R, +E> = Success(value: R) | Failure(error: E)
}
