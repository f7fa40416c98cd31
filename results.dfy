/** Optional values and success-or-error results, standing in for Python's
    `None` defaults and raised exceptions. */
module Results {

  datatype Option<+T> = None | Some(value: T) {
    function GetOr(default: T): T {
      match this
      case Some(v) => v
      case None => default
    }
  }

  /** `Err(message)` stands for an exception raised with that message. */
  datatype Result<+T> = Ok(value: T) | Err(message: string)
}
