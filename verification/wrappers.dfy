/** Optional values and results with an error, used where the source returns `null`
    or throws. */
module Wrappers {

  /** `None` stands for JavaScript's `null` / `undefined` (or, for a parsed number, NaN). */
  datatype Option<+T> = None | Some(value: T)

  /** The outcome of an operation that may throw: `Failure` carries the error message. */
  datatype Result<+R, +E> = Success(value: R) | Failure(error: E)
}
