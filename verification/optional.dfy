/** JavaScript's `null`/`undefined` next to a present value, and callback results. */
module Optional {

  datatype Option<+T> = None | Some(value: T) {

    /** The value, or `default` when there is none. */
    function GetOr(default: T): T
    {
      match this
      case Some(v) => v
      case None => default
    }
  }

  /** A Node-style callback outcome: `cb(err, null)` or `cb(null, value)`. */
  datatype Result<+T, +E> = Success(value: T) | Failure(error: E)
}
