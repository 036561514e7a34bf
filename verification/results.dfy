/** Failure-carrying values shared by every service of the model.

    The services signal failure by throwing NestJS HTTP exceptions (or a plain
    `Error` for an invalid quality score); the model returns them as values. */
module Results {

  /** The kinds of failure the services raise. */
  datatype Error =
    | InvalidArgument   // plain `Error`: quality score outside 0..5
    | NotFound          // NotFoundException
    | BadRequest        // BadRequestException

  /** A value that may be absent (`null` / `undefined` in the source). */
  datatype Option<+T> = None | Some(value: T) {
    function GetOr(default: T): T {
      match this
      case Some(v) => v
      case None => default
    }
  }

  /** The outcome of an operation that may throw. */
  datatype Result<+T> = Ok(value: T) | Err(error: Error)
}
