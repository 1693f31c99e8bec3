/** What the backend's handlers produce: a response with a status, an
    optional body and an optional content type, or an exception the handler
    does not catch. */
module Http {
  import opened Common

  datatype Response<T> = Response(status: int, body: Option<T>, contentType: Option<string>)

  /** A handler either answers or lets an exception escape. */
  datatype Handled<T> = Responded(response: Response<T>) | Escaped(exception: JavaException)

  const OK: int := 200
  const NOT_FOUND: int := 404
  const SERVER_ERROR: int := 500
}
