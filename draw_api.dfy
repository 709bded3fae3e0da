/** The `POST /draw` handler: the outcome of one `draw()` call turned into an
    HTTP status and a JSON body. */
module DrawApi {
  import opened Signs
  import opened Draw
  import opened DrawProperties

  /** Driver error codes that mean the database cannot be reached. */
  const ConnectionErrorCodes: set<string> := {
    "ECONNREFUSED", "ETIMEDOUT", "ENOTFOUND", "ECONNRESET", "ER_ACCESS_DENIED_ERROR",
    "ER_BAD_DB_ERROR", "ER_CON_COUNT_ERROR"
  }

  /** The JSON body of a response. */
  datatype Body =
    | OutOfStockBody                            // { status: 'OUT_OF_STOCK' }
    | ResultBody(result: DrawResult)            // the draw result, as returned
    | ErrorBody(error: string, message: string)

  datatype Response = Response(status: nat, body: Body)

  /** `err.code && CONNECTION_ERROR_CODES.has(err.code)`. */
  predicate IsConnectionError(err: DbError)
  {
    err.code.Some? && err.code.value in ConnectionErrorCodes
  }

  /** The one response a request gets: 200 with the result for a returned
      value, OUT_OF_STOCK checked first; 503 for a connection error; 500 for
      any other exception. */
  function Respond(o: Outcome): (r: Response)
    ensures r.status in {200, 500, 503}
    ensures r.status == 200 <==> o.Returned?
    ensures o == Returned(OutOfStock) ==> r.body == OutOfStockBody
    ensures o.Returned? && o.result.Ok? ==> r.body == ResultBody(o.result)
    ensures o.Threw? ==> (r.status == 503 <==> IsConnectionError(o.error))
    ensures o.Threw? && o.error.code.None? ==> r.status == 500
    ensures r.body.ErrorBody? <==> o.Threw?
  {
    match o
    case Returned(result) =>
      if result.OutOfStock? then Response(200, OutOfStockBody)
      else Response(200, ResultBody(result))
    case Threw(err) =>
      if IsConnectionError(err) then Response(503, ErrorBody("Service Unavailable", "Database unavailable"))
      else Response(500, ErrorBody("Internal Server Error", "Draw failed"))
  }

  /** The response to a request that meets the table `s` and the world `e`,
      and the table the request leaves. Whatever the response, no sign is
      changed and no row undrawn; a body with a sign hands out the fields of a
      row that was undrawn before the request and is drawn after it. */
  function HandleDraw(s: seq<Row>, e: DrawEnv): (r: (seq<Row>, Response))
    requires ValidEnv(e)
    ensures SameSigns(s, r.0) && NeverUndraws(s, r.0)
    ensures r.1.body.ResultBody? ==>
              exists k :: 0 <= k < |s| && !s[k].isDrawn && r.0[k].isDrawn
                          && r.1.body.result == Ok(SignOf(s[k]))
  {
    var (s1, o) := RunDraw(s, e);
    if IsOk(o) then
      DrawClaimsUndrawnRow(s, e);
      (s1, Respond(o))
    else
      (s1, Respond(o))
  }

  /** A refused connection is answered 503 and leaves the table as it was. */
  lemma RefusedConnectionIs503(s: seq<Row>, e: DrawEnv)
    requires ValidEnv(e)
    requires e.connectError == Some(DbError(Some("ECONNREFUSED")))
    ensures HandleDraw(s, e) == (s, Response(503, ErrorBody("Service Unavailable", "Database unavailable")))
  {
  }

  /** Without faults and rivals the handler answers 200: with a sign from an
      undrawn row if there is one, and OUT_OF_STOCK otherwise. */
  lemma QuietRequestIs200(s: seq<Row>, e: DrawEnv)
    requires ValidEnv(e) && e.connectError.None? && Quiet(e.first) && DistinctIds(s)
    ensures HandleDraw(s, e).1.status == 200
    ensures HandleDraw(s, e).1.body == OutOfStockBody <==> UndrawnCount(s) == 0
  {
    RivalFreeAttempt(s, e.first);
  }
}
