/** Option and Result, the failure-carrying values used by the rest of the model. */
module Wrappers {

  datatype Option<+T> = None | Some(value: T)

  /** What a Python call either returns or raises. */
  datatype Result<+R, +E> = Success(value: R) | Failure(error: E)
}
