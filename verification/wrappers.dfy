/** Failure-compatible result types used by the decoders. */
module Wrappers {

  /** A value that may be missing, as returned by the readers. */
  datatype Option<+T> = None | Some(value: T)

  /** Either a decoded value or the reason decoding stopped. */
  datatype Result<+R, +E> = Success(value: R) | Failure(error: E)
}
