/** Optional values and results with an error, as used across the scanner model. */
module Options {

  /** A value that may be absent (a missing key of a rule record, Python's None). */
  datatype Option<T> = None | Some(value: T) {
    /** The value, or `default` when absent (Python's dict.get with a default). */
    function GetOr(default: T): T {
      match this
      case Some(v) => v
      case None => default
    }
  }

  /** The outcome of an operation that may fail with an error value. */
  datatype Result<T, E> = Ok(value: T) | Err(error: E)
}
