/** What a controller action answers: a status and, on success, a payload. */
module Http {
  import opened Schema

  /**
   * The statuses the controllers answer with: 200, 201, 400, 404 and 422
   * (a failed `validate` is answered with 422).
   */
  datatype Status = OK | Created | BadRequest | NotFound | Unprocessable

  /** Error bodies carry only a message, which the model does not keep. */
  datatype Response<+T> = Response(status: Status, payload: Option<T>)

  function Fail<T>(s: Status): Response<T> {
    Response(s, None)
  }
}
