/** Optional and failure-carrying values shared by the matching and like modules. */
module Results {

  /** A value that may be absent; in a query predicate `None` is the ORM's `undefined`. */
  datatype Option<+T> = None | Some(value: T)

  /** The outcome of a call into the data store: a value, or the error it threw. */
  datatype Result<+R, +E> = Success(value: R) | Failure(error: E)
}
