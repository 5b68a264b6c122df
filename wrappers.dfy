/** Failure-carrying values shared by the other modules. */
module Wrappers {

  datatype Option<+T> = None | Some(value: T)

  datatype Result<+R, +E> = Success(value: R) | Failure(error: E)

  /** Success without a value, or a failure: the outcome of an awaited `Promise<void>`. */
  datatype Outcome<+E> = Pass | Fail(error: E)
}
