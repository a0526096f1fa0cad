/** Optional values and success-or-error results, shared by every module. */
module Wrappers {

  datatype Option<+T> = None | Some(value: T)

  /** A value, or an error message (a rejected promise, a thrown error, a Rust `Err`). */
  datatype Result<+T, +E> = Success(value: T) | Failure(error: E)
}
