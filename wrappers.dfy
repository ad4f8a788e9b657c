/** Option and Result, the two failure-carrying values the model uses. */
module Wrappers {

  datatype Option<+T> = None | Some(value: T)

  /** Success carries the value a Python call returns; Failure the exception it raises. */
  datatype Result<+R, +E> = Success(value: R) | Failure(error: E)
}
