/** What a request handler of either service hands back: a value, or the
    error it raised. */
module Outcomes {

  /** The error kinds the handlers raise. NotFound is HTTP 404, Conflict 409,
      BadRequest 400; ServerError stands for an exception the handler does not
      catch, which the web server turns into a 500. */
  datatype Error = NotFound | Conflict | BadRequest | ServerError

  /** The outcome of one request. */
  datatype Result<T> = Ok(value: T) | Err(error: Error)

  /** A value that may be absent (Python's None). */
  datatype Option<T> = None | Some(value: T)
}
