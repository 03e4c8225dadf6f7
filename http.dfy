/** What a handler sends back when it stops early or reports an error: an HTTP status and
    the `message` field of its JSON body. */
module Http {

  datatype Reply = Reply(status: int, message: string)

  const Ok := 200
  const Created := 201
  const BadRequest := 400
  const Unauthorized := 401
  const Forbidden := 403
  const NotFound := 404
  const Conflict := 409
  const ServerError := 500
}
