/** Absent values and thrown errors, the two ways a JavaScript call in the
    modelled code can fail to produce an ordinary value. */
module Outcomes {

  /** An optional value: an omitted option, a missing form field, a lookup
      that found nothing. */
  datatype Option<+T> = None | Some(value: T) {

    /** `x ?? fallback`. */
    function GetOr(fallback: T): T {
      if Some? then value else fallback
    }
  }

  /** The value a call returns, or the error it throws. A thrown error
      propagates through `:-` to the caller, as an uncaught exception does. */
  datatype Result<+R, +E> = Success(value: R) | Failure(error: E) {

    predicate IsFailure() {
      Failure?
    }

    function PropagateFailure<U>(): Result<U, E>
      requires Failure?
    {
      Failure(error)
    }

    function Extract(): R
      requires Success?
    {
      value
    }
  }
}
