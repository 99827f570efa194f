/** Failure-compatible wrappers used for the thrown errors of the model. */
module Wrappers {

  /** A JavaScript value that may be `null`/`undefined` (None) or present. */
  datatype Option<+T> = None | Some(value: T)

  /** The outcome of a computation that may throw: its value, or the thrown error's message. */
  datatype Result<+R> = Success(value: R) | Failure(error: string) {
    predicate IsFailure() { Failure? }

    function PropagateFailure<U>(): Result<U>
      requires Failure?
    {
      Failure(error)
    }

    function Extract(): R
      requires Success?
    {
      value
    }
  }
}
