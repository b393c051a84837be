/** Optional values and success/failure results, used wherever the Ruby code
    yields `nil` or raises. */
module Results {

  /** A value that may be absent (Ruby's `nil`). */
  datatype Option<T> = None | Some(value: T)

  /** The outcome of an operation that the Ruby code lets raise. */
  datatype Result<T, E> = Success(value: T) | Failure(error: E)
}
