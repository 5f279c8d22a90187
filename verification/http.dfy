/** What a route handler sends back: a status code with a JSON body, or an error. */
module Http {

  datatype Reply<T> = Ok(code: nat, body: T) | Error(code: nat, message: string)

  const OK: nat := 200
  const CREATED: nat := 201
  const BAD_REQUEST: nat := 400
  const UNAUTHORIZED: nat := 401
  const FORBIDDEN: nat := 403
  const NOT_FOUND: nat := 404
  const SERVER_ERROR: nat := 500
}
