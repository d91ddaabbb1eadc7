/** Optional values and the two ways a store operation can fail. */
module Results {

  datatype Option<T> = None | Some(value: T) {
    /** The value, or `default` when there is none (Python's `dict.get(key, default)`). */
    function GetOr(default: T): T {
      match this
      case Some(v) => v
      case None => default
    }
  }

  /** The exceptions the stores let escape to their callers. */
  datatype Error =
    | InvalidInteger(literal: string)  // `int(value)` raised ValueError
    | MissingKey(key: string)          // `dict.pop(key)` raised KeyError

  datatype Result<T> = Ok(value: T) | Err(error: Error)
}
