/** Failure-carrying wrappers used in place of PHP's `null` and exceptions. */
module Wrappers {

  /** A value that may be absent; stands for PHP's nullable types (`?string`). */
  datatype Option<+T> = None | Some(value: T)

  /** Either a value or the error that an operation raised instead of returning. */
  datatype Result<+R, +E> = Success(value: R) | Failure(error: E)
}
