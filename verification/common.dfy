/** Failure-carrying wrappers and the error taxonomy shared by every layer of the API model. */
module Common {

  datatype Option<+T> = None | Some(value: T)

  /** The outcome of a request handler or a store operation. */
  datatype Result<+T> = Ok(value: T) | Err(error: ApiError)

  /** The input fields a serializer can report an error against. */
  datatype Field =
    | Name | Slug | Username | Email | FirstName | LastName | Score | Text
    | Year | Description | GenreList | CategoryRef | ConfirmationCode

  /** The ways a request ends without success. */
  datatype ApiError =
      /** A serializer `ValidationError`: field-level messages, HTTP 400. */
    | Invalid(fields: set<Field>)
      /** A serializer `ValidationError` raised from `validate()`, HTTP 400. */
    | NonFieldInvalid
      /** `get_object_or_404` found nothing, HTTP 404. */
    | NotFound
      /** A handler's explicit 400 response. */
    | BadRequest
      /** The route does not accept the HTTP method, HTTP 405. */
    | MethodNotAllowed
      /** An uncaught database `IntegrityError`, HTTP 500. */
    | Integrity
      /** An uncaught `DoesNotExist` from `objects.get`, HTTP 500. */
    | Missing

  function Status(e: ApiError): (code: int)
    ensures 400 <= code < 600
    ensures code == 500 <==> (e.Integrity? || e.Missing?)
  {
    match e
    case Invalid(_) => 400
    case NonFieldInvalid => 400
    case NotFound => 404
    case BadRequest => 400
    case MethodNotAllowed => 405
    case Integrity => 500
    case Missing => 500
  }

  datatype Method = Get | Head | Post | Put | Patch | Delete
}
