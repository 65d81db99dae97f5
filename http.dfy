/** The HTTP status codes the two thumbnail handlers answer with (net/http constants). */
module Http {

  const StatusOK: int := 200
  const StatusBadRequest: int := 400
  const StatusUnauthorized: int := 401
  const StatusNotFound: int := 404
  const StatusInternalServerError: int := 500
}
