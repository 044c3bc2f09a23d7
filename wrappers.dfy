/** Option and Result: the error paths of the modelled Python code (a raised
    exception, a missing value) become values instead of preconditions. */
module Wrappers {

  datatype Option<+T> = None | Some(value: T)

  datatype Result<+T, +E> = Success(value: T) | Failure(error: E)
}
