/** Values shared by every layer of the library API: optional request fields,
    results, and what a handler can throw or hand to Express's `next`. */
module Common {

  datatype Option<+T> = None | Some(value: T)

  datatype Result<+T, +E> = Success(value: T) | Failure(error: E)

  /** The `errorDetails` an error carries into the envelope's `error` field:
      JSON `null`, a property that is not there at all, or a text. */
  datatype Details = Null | Undefined | Text(text: string)

  /** A thrown value as the error handler sees it: an error made by
      `http-errors` (status, message and details of its own), any other
      `Error` (only a message), or a value that is not an `Error` at all. */
  datatype Thrown =
    | HttpError(status: int, message: string, details: Details)
    | PlainError(message: string)
    | NonError

  /** A JSON string field as Mongoose's `required` and JavaScript's
      truthiness see it: absent and empty are both missing. */
  predicate Present(s: Option<string>) {
    s.Some? && |s.value| > 0
  }

  /** One failed schema rule: the path and the rule's message. */
  datatype Violation = Violation(path: string, message: string)

  /** Mongoose's ValidationError message: "<Model> validation failed: " then
      "path: message" for each failed path, separated by ", ". */
  function ValidationMessage(model: string, vs: seq<Violation>): string
  {
    model + " validation failed: " + JoinViolations(vs)
  }

  function JoinViolations(vs: seq<Violation>): string
  {
    if vs == [] then ""
    else if |vs| == 1 then vs[0].path + ": " + vs[0].message
    else vs[0].path + ": " + vs[0].message + ", " + JoinViolations(vs[1..])
  }
}
