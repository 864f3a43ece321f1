/** Option and Result: the missing-value and error outcomes the scripts and the Go staging code produce. */
module Wrappers {

  /** A value that may be absent: a pandas NaN / null cell, a Go map miss, Python's None. */
  datatype Option<+T> = None | Some(value: T) {
    function GetOr(default: T): T {
      match this
      case Some(v) => v
      case None => default
    }
  }

  /** The outcome of an operation that can fail with an error of type E. */
  datatype Result<+R, +E> = Success(value: R) | Failure(error: E)
}
