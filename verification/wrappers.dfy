/** Failure-carrying result types shared by the JSON editor and filter models. */
module Wrappers {

  /** An optional value: JavaScript's `undefined`/`null` versus a present value. */
  datatype Option<+T> = None | Some(value: T)

  /** The outcome of a call that may throw: a value, or the error message it threw with. */
  datatype Result<+R> = Success(value: R) | Failure(message: string)
}
