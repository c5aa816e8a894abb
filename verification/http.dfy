/** The request and response vocabulary shared by the API handlers. */
module Http {
  import opened Wrappers
  import opened Adapter
  import opened Store

  /** An incoming call: the HTTP method (`verb`), the `Authorization` header if any, and the parsed JSON body. */
  datatype Request<B> = Request(verb: string, authorization: Option<string>, body: B)

  /** What a `catch` block receives: a constraint violation or a JavaScript runtime error. */
  datatype Failure =
    | Violated(violation: Violation)
    | ReadOfUndefined(property: string)   // TypeError: a property read on `undefined`
    | IllegalArguments                    // bcrypt given a hash that is not a string

  /** The JSON a response carries; a field holding `Undefined` is left out of the JSON text. */
  datatype Body =
    | NoBody
    | Message(error: string)
    | ServerError(cause: Failure)         // `{ error: e.message }`; the engine's wording is not modelled
    | SignedUp(id: Value, role: Value)
    | TokenIssued(token: string)
    | Created(id: Value)
    | Rows(rows: seq<Record>)
    | Resolved(status: string)

  datatype Response = Response(status: int, body: Body)

  /** One handled call: the response, the state afterwards, and the statements sent to storage. */
  datatype Exchange = Exchange(response: Response, db: Db, issued: seq<string>)

  const MethodNotAllowed: Response := Response(405, NoBody)

  function ServerFailure(f: Failure): Response {
    Response(500, ServerError(f))
  }

  /** The 400 message of both credential handlers. */
  const MissingCredentials: string := "Email and password required"

  /** JavaScript falsiness of an optional string field: absent, null or empty. */
  predicate Falsy(v: Option<string>) {
    v.None? || v.value == ""
  }
}
