/** Failure-carrying result types shared by the store and the ranker. */
module Wrappers {

  /** A value that may be absent; stands for Python's `None`. */
  datatype Option<+T> = None | Some(value: T) {

    // Python's `x if x is not None else fallback`, as in `metadata or {}`.
    function GetOr(fallback: T): T {
      if Some? then value else fallback
    }
  }

  /** The outcome of an operation that can raise. */
  datatype Result<+R, +E> = Success(value: R) | Failure(error: E)
}
