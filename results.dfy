/** Failure-compatible wrappers shared by the loader and the two scorers. */
module Results {

  /** A value that may be missing, as a pandas lookup that finds no key. */
  datatype Option<+T> = None | Some(value: T)

  /** The outcome of an operation that either succeeds or stops with an error. */
  datatype Result<+T, +E> = Success(value: T) | Failure(error: E)
}
