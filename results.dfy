/** Optional values and error results used in place of the source's exceptions. */
module Results {

  datatype Option<T> = None | Some(value: T) {
    /** The value if present, otherwise the given default. */
    function GetOr(default: T): T {
      match this
      case Some(v) => v
      case None => default
    }
  }

  datatype Result<T, E> = Ok(value: T) | Err(error: E)
}
