/** Optional values and results with an error, the functional stand-ins for the
    `null` returns and the exceptions of the ray tracer. */
module Wrappers {

  /** A value that may be absent: `None` plays the part of a `null` RayHit. */
  datatype Option<+T> = None | Some(value: T)

  /** A value or the error that stopped its computation; usable with `:-`. */
  datatype Result<+T, +E> = Ok(value: T) | Err(error: E) {

    predicate IsFailure() {
      Err?
    }

    function PropagateFailure<U>(): Result<U, E>
      requires Err?
    {
      Err(error)
    }

    function Extract(): T
      requires Ok?
    {
      value
    }
  }
}
