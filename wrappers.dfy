/** Failure-carrying return types shared by the other modules. */
module Wrappers {

  /** A value that may be absent: JavaScript's `undefined`, a failed
      regular-expression match, a call that threw. */
  datatype Option<+T> = None | Some(value: T)

  /** A computation that either succeeds with a value or fails with an error. */
  datatype Result<+R, +E> = Success(value: R) | Failure(error: E)
}
