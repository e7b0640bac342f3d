/** Optional and failure-carrying results, used wherever the source returns
    `null` to skip a value or throws to abandon a computation. */
module Wrappers {

  /** A value that may be absent: Kotlin's nullable return. */
  datatype Option<T> = None | Some(value: T)

  /** Either a computed value or the reason the computation stopped. */
  datatype Result<T, E> = Success(value: T) | Failure(error: E)
}
