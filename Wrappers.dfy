/** Option and Result: the explicit success/failure values that replace the
    exceptions (and the crashes) of the Python helpers. */
module Wrappers {

  datatype Option<+T> = None | Some(value: T)

  datatype Result<+R, +E> = Success(value: R) | Failure(error: E)
}
