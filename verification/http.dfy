/** What a handler hands back to the web framework: a payload on success, or
    the status code of the `abort` that ended the request. */
module Http {

  datatype Outcome<+T> = Ok(value: T) | Abort(status: nat)

  const BadRequest: nat := 400
  const NotFound: nat := 404
  const InternalServerError: nat := 500
}
