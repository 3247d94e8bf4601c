/**
 * The tagged result every user-service operation returns. Its fields are the ones the
 * controller's `handleResponse` reads: an error carries a message and a status code, a
 * success carries the payload and a status code.
 */
module ApiResponse {

  datatype Result<+T> = Success(data: T, code: int) | Error(message: string, code: int)

  /** The code `success(data)` uses when the caller gives none. */
  const DEFAULT_SUCCESS_CODE := 200
}
