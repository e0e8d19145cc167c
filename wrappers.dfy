/** Optional values and results with an error, used where the source returns
    a nullable value or can throw. */
module Wrappers {

  /** Kotlin's nullable `T?`. */
  datatype Option<+T> = None | Some(value: T)

  /** A computation that either yields a value or fails as the source would
      by throwing. */
  datatype Result<+T, +E> = Success(value: T) | Failure(error: E)
}
