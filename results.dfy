/** Outcomes of a request handler: a payload, or the HTTP status of the error response. */
module Results {

  datatype Option<+T> = None | Some(value: T)

  /** The three error statuses the handlers answer with. */
  datatype Status = BadRequest | NotFound | ServerError {
    function Code(): (c: int)
      ensures 400 <= c < 600
      ensures Code() == 400 <==> this == BadRequest
    {
      match this
      case BadRequest => 400
      case NotFound => 404
      case ServerError => 500
    }
  }

  /** `Ok(payload)` stands for the success envelope, `Err(status)` for the error envelope.
      An exception forwarded to the error handler becomes `Err(ServerError)`. */
  datatype Result<+T> = Ok(value: T) | Err(status: Status)

  /** A request field as it arrives in a JSON body or query string: absent or a string. */
  type Field = Option<string>

  /** A field passes a `!field` guard exactly when it is present and not the empty string. */
  predicate Present(f: Field) {
    f.Some? && f.value != ""
  }

  /** A numeric id field passes `!id` exactly when it is present and not 0. */
  predicate PresentId(f: Option<int>) {
    f.Some? && f.value != 0
  }
}
