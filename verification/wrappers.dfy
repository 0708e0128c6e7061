/** Outcomes of calls that can come back empty or fail.

    A Python value that may be `None` (an `re.search` that finds nothing, a
    missing dictionary key) becomes an `Option`. A step that raises or returns
    an error dictionary becomes a `Result`, which the `:-` operator threads
    through a chain of steps. */
module Wrappers {

  /** Something that may be absent. */
  datatype Option<+T> = None | Some(value: T) {

    /** The value, or `default` when there is none. */
    function GetOr(default: T): T {
      if Some? then value else default
    }
  }

  /** A value, or the error that stopped the computation. */
  datatype Result<+R, +E> = Success(value: R) | Failure(error: E) {

    /** The three members below make `Result` usable with `:-`. */
    predicate IsFailure() {
      Failure?
    }

    /** A failure carried on unchanged under a different success type. */
    function PropagateFailure<U>(): Result<U, E>
      requires Failure?
    {
      Failure(error)
    }

    function Extract(): R
      requires Success?
    {
      value
    }
  }
}
