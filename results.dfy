/** Optional values and results with an error, for the decoder's Go-style `(value, error)` returns. */
module Results {

  /** A value that may be missing (Go's `nil` slice, a failed conversion). */
  datatype Option<+T> = None | Some(value: T) {
    /** The value, or `default` when there is none. */
    function GetOr(default: T): T
    {
      match this
      case Some(v) => v
      case None => default
    }
  }

  /** A value, or the error that replaced it. */
  datatype Result<+T, +E> = Ok(value: T) | Err(error: E)
}
