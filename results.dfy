/** Outcomes of the model operations: a value, or one of the error kinds the models throw. */
module Results {

  /** The error classes the two models raise (NotFoundError, BadRequestError, UnauthorizedError).
      Their messages are not modelled: a failure is identified by its kind alone. */
  datatype Error = NotFound | BadRequest | Unauthorized

  /** What an operation returns: a value, or a thrown error. */
  datatype Result<+T> = Ok(value: T) | Err(error: Error)

  /** A value that may be absent (a NULL column, a key missing from a payload). */
  datatype Option<+T> = None | Some(value: T) {
    /** The value if present, otherwise `default`. */
    function GetOr(default: T): T {
      match this
      case Some(v) => v
      case None => default
    }
  }
}
