/** Small value types shared by the jukebox modules: optional values, the
    errors an endpoint reports, and an endpoint's outcome. */
module Common {

  datatype Option<T> = None | Some(value: T) {
    /** The value, or `default` when there is none. */
    function GetOr(default: T): T {
      match this
      case Some(v) => v
      case None => default
    }
  }

  /** The HTTP errors the queue endpoints answer with: 404, 429, and the
      500 an exception the endpoint does not catch turns into. */
  datatype Error = NotFound | RateLimited | ServerError

  /** A computation that either yields a value or fails with an Error. */
  datatype Result<T> = Success(value: T) | Failure(error: Error)

  /** What an endpoint answers: `{'ok': True}` or an HTTP error. */
  datatype Status = Ok | Err(error: Error)
}
