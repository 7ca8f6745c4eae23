/** Optional values and the error outcomes of the backend services. */
module Wrappers {

  /** A value that may be absent: a missing DTO field, a lookup that found nothing. */
  datatype Option<T> = None | Some(value: T) {
    function GetOr(default: T): T {
      if Some? then value else default
    }
  }

  /** The exception kinds the services throw; the HTTP layer maps them to 404 and 400. */
  datatype Error = NotFound | BadRequest

  /** The outcome of a service call: its result, or the exception it throws. */
  datatype Result<T> = Ok(value: T) | Err(error: Error)
}
