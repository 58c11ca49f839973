/** The response statuses the route handlers set. */
module Http {

  /** 200, 201, 400, 404, 409 and 500, in that order. */
  datatype Status = Ok | Created | BadRequest | NotFound | Conflict | ServerError
}
