/** Optional values and failing computations, used wherever the analyser
    produces "no value" (a field missing from a log line) or an error (a
    timestamp that does not parse). */
module Wrappers {

  /** A value that may be absent: Python's `None` versus a present value. */
  datatype Option<+T> = None | Some(value: T)

  /** The outcome of an operation that may raise. */
  datatype Result<+R, +E> = Success(value: R) | Failure(error: E)
}
