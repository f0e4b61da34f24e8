/** Values that may be missing, and computations that may fail. */
module Wrappers {

  /** A value that may be undefined: `None` plays the part of pandas' NaN. */
  datatype Option<+T> = None | Some(value: T)

  /** Either a value or the error a pandas operation raises. */
  datatype Result<+T, +E> = Success(value: T) | Failure(error: E)
}
