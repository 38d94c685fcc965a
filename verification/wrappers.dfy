/** Option and Result, the failure-carrying datatypes the model uses for
    nil handles and error returns. */
module Wrappers {

  datatype Option<+T> = None | Some(value: T)

  datatype Result<+R, +E> = Success(value: R) | Failure(error: E)
}
