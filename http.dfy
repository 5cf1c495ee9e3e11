/**
 * The parts of an HTTP exchange the TODO handler and the basic-auth gate
 * look at. Transport, encoding and decoding are not modelled: a request
 * carries what `r.BasicAuth()` extracts and what JSON decoding of its body
 * yields for each request type, and a response carries its status, the
 * headers the code sets itself, and the value it encodes.
 */
module Http {
  import opened Wrappers
  import opened Model

  const MethodPost := "POST"
  const MethodGet := "GET"
  const MethodPut := "PUT"
  const MethodDelete := "DELETE"

  const StatusOK := 200
  const StatusBadRequest := 400
  const StatusUnauthorized := 401
  const StatusNotFound := 404
  const StatusMethodNotAllowed := 405
  const StatusInternalServerError := 500

  /** What `r.BasicAuth()` returns: user name, password, and whether a Basic Authorization header was present and well-formed. */
  datatype Credentials = Credentials(user: string, pass: string, ok: bool)

  /**
   * The request body as `json.NewDecoder(r.Body).Decode` sees it: for each
   * request type the handler may decode into, the decoded value, or None
   * when decoding fails.
   */
  datatype Body = Body(asCreate: Option<CreateTODORequest>,
                       asUpdate: Option<UpdateTODORequest>,
                       asDelete: Option<DeleteTODORequest>)

  /** An inbound request: method, query parameters (first value per key), body and credentials. */
  datatype Request = Request(verb: string, query: map<string, string>,
                             body: Body, credentials: Credentials)

  /** What a response body holds: one of the encoded response envelopes, or the text `http.Error` writes. */
  datatype Payload =
    | CreateBody(create: CreateTODOResponse)
    | ReadBody(read: ReadTODOResponse)
    | UpdateBody(update: UpdateTODOResponse)
    | DeleteBody(delete: DeleteTODOResponse)
    | ErrorText

  datatype Response = Response(status: int, header: map<string, string>, payload: Payload)

  /** `r.URL.Query().Get(key)`: the value given for `key`, or "" when there is none. */
  function QueryGet(query: map<string, string>, key: string): string
  {
    if key in query then query[key] else ""
  }

  /** `http.Error(w, msg, status)`. */
  function ErrorResponse(status: int): Response
  {
    Response(status, map[], ErrorText)
  }

  /** `json.NewEncoder(w).Encode(v)` with no status written first: 200. */
  function Encoded(p: Payload): Response
  {
    Response(StatusOK, map[], p)
  }
}
