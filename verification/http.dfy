/** The application's response shapes, its 404 fallback and its shared
    error handler (app.ts). Routing, CORS, logging and body parsing are not
    part of this module. */
module Http {
  import opened Common

  /** The JSON body of a response: the success envelope carries `data`, the
      failure envelope carries `error`. */
  datatype Body<+D> =
    | SuccessBody(message: string, data: D)
    | ErrorBody(message: string, error: Details)
  {
    /** The envelope's `success` field. */
    predicate Success() {
      SuccessBody?
    }
  }

  datatype Response<+D> = Response(status: int, body: Body<D>)

  /** What a request handler does: answer itself, or pass an error to `next`,
      which hands it to the error handler. */
  datatype Outcome<+D> = Sent(response: Response<D>) | Next(error: Thrown)

  const UnknownErrorMessage := "Unknown error has occurred"
  const EndpointsNotFound := "endpoints not found"

  /** The fallback every unmatched route reaches: an http-errors 404 made
      from a message alone, so it has no `errorDetails`. */
  function UnmatchedRoute(): Thrown
  {
    HttpError(404, EndpointsNotFound, Undefined)
  }

  /** The shared error handler: starts from status 500, the generic message
      and `null` details; an HTTP error overrides all three, any other `Error`
      only the message. The envelope always says `success: false`. */
  function HandleError<D>(e: Thrown): (r: Response<D>)
    ensures !r.body.Success()
    ensures e.HttpError? ==>
      r.status == e.status && r.body.message == e.message && r.body.error == e.details
    ensures e.PlainError? ==>
      r.status == 500 && r.body.message == e.message && r.body.error == Null
    ensures e.NonError? ==>
      r.status == 500 && r.body.message == UnknownErrorMessage && r.body.error == Null
  {
    match e
    case HttpError(status, message, details) => Response(status, ErrorBody(message, details))
    case PlainError(message) => Response(500, ErrorBody(message, Null))
    case NonError => Response(500, ErrorBody(UnknownErrorMessage, Null))
  }

  /** The response a client finally receives for a handler's outcome. */
  function Respond<D>(out: Outcome<D>): Response<D>
  {
    match out
    case Sent(r) => r
    case Next(e) => HandleError(e)
  }

  /** Every unmatched route answers 404 "endpoints not found", without an
      `error` property. */
  lemma UnmatchedRouteAnswer<D>()
    ensures Respond<D>(Next(UnmatchedRoute())) == Response(404, ErrorBody(EndpointsNotFound, Undefined))
  {
  }

  /** A response that went through the error handler never reports success,
      and a 2xx status can only come from an error that carried it itself. */
  lemma ErrorsNeverSucceed<D>(e: Thrown)
    ensures !Respond<D>(Next(e)).body.Success()
    ensures 200 <= Respond<D>(Next(e)).status < 300 ==> e.HttpError?
  {
  }
}
