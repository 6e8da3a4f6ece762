/** Option and Result, the two failure-carrying shapes the helpers return. */
module Wrappers {

  /** A value or nothing; `None` stands for JavaScript's `null` result. */
  datatype Option<+T> = None | Some(value: T)

  /** A value, or the error a JavaScript helper would throw. */
  datatype Result<+R, +E> = Success(value: R) | Failure(error: E)
}
