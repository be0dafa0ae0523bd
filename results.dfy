/** Optional values and results, used for the library's exceptions and absent headers. */
module Results {

  datatype Option<T> = None | Some(value: T) {
    /** Python's `d.get(key, default)` once the lookup is done. */
    function GetOr(default: T): T {
      if Some? then value else default
    }
  }

  /** A value, or the error that was raised instead of producing it. */
  datatype Result<T, E> = Success(value: T) | Failure(error: E)
}
