/** The error-carrying values shared by every layer of the backend. */
module Results {

  datatype Option<+T> = None | Some(value: T)

  /** A value, or the exception that stopped the computation. */
  datatype Result<+T, +E> = Success(value: T) | Failure(error: E)

  /** FastAPI's HTTPException: a status code and the `detail` shown to the client. */
  datatype HttpError = HttpError(status: int, detail: string)
}
