/** Failure-carrying result types used by the model of the compressor. */
module Wrappers {

  /** A value that may be absent. */
  datatype Option<+T> = None | Some(value: T)

  /** The outcome of an operation that raises on some inputs in tesa_motif.py. */
  datatype Result<+R, +E> = Success(value: R) | Failure(error: E)
}
