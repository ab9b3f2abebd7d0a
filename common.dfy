/** Values shared by the three API routes: optional values, the HTTP statuses
    the handlers answer with, and the truthiness test the handlers apply to
    what they read from a form, a query string or a JSON body. */
module Common {

  datatype Option<+T> = None | Some(value: T)

  /** The responses a handler can give: 200, 201, 400, 404 and 500. */
  datatype Status = Ok | Created | BadRequest | NotFound | ServerError

  /** A field read from a request is `None` when it is absent (`null`) and
      `Some(text)` otherwise; JavaScript's `!field` holds exactly when the
      field is absent or the empty string. */
  predicate Present(field: Option<string>) {
    field.Some? && field.value != ""
  }
}
