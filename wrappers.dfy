/** Optional values and results with an error, for the two decoding steps of the extractor. */
module Wrappers {

  /** A decoded value, or `None` when the JSON text could not be decoded. */
  datatype Option<+T> = None | Some(value: T)

  /** Either the value computed, or the error that stopped the computation. */
  datatype Result<+T, +E> = Success(value: T) | Failure(error: E)
}
