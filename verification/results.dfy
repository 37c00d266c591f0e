/** Optional values and success-or-error results, used wherever the page
    or server code returns "nothing found" or raises an exception. */
module Results {

  /** A value that may be absent (Python's `None`, JavaScript's `undefined`). */
  datatype Option<+T> = None | Some(value: T)

  /** The outcome of an operation that either returns a value or raises. */
  datatype Result<+T, +E> = Success(value: T) | Failure(error: E)
}
