/** The optional value and the success-or-error value used across the model. */
module Wrappers {
  /** A value that may be absent: `T | null` or `undefined` in the source. */
  datatype Option<T> = None | Some(value: T)

  /** The outcome of an operation that can be refused with a reason. */
  datatype Result<T, E> = Success(value: T) | Failure(error: E)
}
