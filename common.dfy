/** Values shared by every part of the model: optional columns and the
    HTTP-style outcome of a request handler. */
module Common {

  /** A nullable column or an optional request field. */
  datatype Option<+T> = None | Some(value: T)

  /** An HTTP error response: status code and the `detail` message. */
  datatype HttpError = HttpError(status: int, detail: string)

  /** Every handler either fails with an HTTP error or returns a value. */
  datatype Result<+T> = Ok(value: T) | Err(error: HttpError)

  /** What the client sees when the handler raises something other than an
      HTTP error (a failed unique constraint, an attribute of a missing row). */
  const InternalServerError := HttpError(500, "Internal Server Error")
}
