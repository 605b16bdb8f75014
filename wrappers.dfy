/** Failure-carrying wrappers shared by the other modules. */
module Wrappers {

  /** An optional value: `None` is an attribute or listing that is not set at all. */
  datatype Option<+T> = None | Some(value: T)

  /** The outcome of an operation that can abort: either a value or the reason it failed. */
  datatype Result<+R, +E> = Success(value: R) | Failure(error: E)
}
