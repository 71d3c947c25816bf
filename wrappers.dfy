/** Optional values, the service layer's error categories and results that carry them. */
module Wrappers {

  datatype Option<+T> = None | Some(value: T)

  /** The domain exceptions the services throw (NotFoundException, ConflictException and
      ForbiddenException), each with the message the source attaches to it. */
  datatype Error =
    | NotFound(message: string)
    | Conflict(message: string)
    | Forbidden(message: string)

  /** A service call either returns its response or throws one of the errors above. */
  datatype Result<+T> = Ok(value: T) | Err(error: Error)
}
