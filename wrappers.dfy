/** Option and Result: the error paths that the Go code takes by `panic`
    are returned as values in this model. */
module Wrappers {

  datatype Option<+T> = None | Some(value: T)

  datatype Result<+R, +E> = Success(value: R) | Failure(error: E)
}
