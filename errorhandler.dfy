/** The global error handler of forumApi/middleware/errorHandler.js: how a thrown error
    becomes an HTTP status and a JSON body. */
module ErrorHandler {

  import opened Base
  import opened Errors

  const GenericMessage := "Une erreur interne est survenue."

  /** The response written: the status and the single `error` field of the JSON body. */
  datatype Response = Response(status: int, error: string)

  /** `errorHandler(err, ...)` on the duck-typed fields it reads: status `err.statusCode || 500`,
      message `err.message || GenericMessage`, and in production a 500 hides the message. */
  function Handle(statusCode: Option<int>, message: string, isProd: bool): (r: Response)
    ensures statusCode.Some? && statusCode.value != 0 ==> r.status == statusCode.value
    ensures statusCode.None? || statusCode == Some(0) ==> r.status == 500
    ensures isProd && r.status == 500 ==> r.error == GenericMessage
    ensures !(isProd && r.status == 500) ==> r.error == (if message == "" then GenericMessage else message)
  {
    var status := if statusCode.Some? && statusCode.value != 0 then statusCode.value else 500;
    var msg := if message == "" then GenericMessage else message;
    Response(status, if isProd && status == 500 then GenericMessage else msg)
  }

  /** The handler applied to an error object of the API. */
  function HandleError(e: Error, isProd: bool): Response
  {
    Handle(StatusCodeOf(e), MessageOf(e), isProd)
  }

  /** An `HttpError` answers with its kind's status and, even in production, its own message
      (or the generic one when that message is empty). */
  lemma HttpErrorResponse(k: Kind, message: string, isProd: bool)
    ensures HandleError(HttpError(k, message), isProd).status == Status(k)
    ensures HandleError(HttpError(k, message), isProd).error
      == (if message == "" then GenericMessage else message)
  {
  }

  /** Every error without a status code (a plain `Error`, a database error) is a 500, and in
      production its message never reaches the client. */
  lemma UntypedErrorIs500(e: Error, isProd: bool)
    requires !e.HttpError?
    ensures HandleError(e, isProd).status == 500
    ensures isProd ==> HandleError(e, isProd).error == GenericMessage
    ensures !isProd ==> HandleError(e, isProd).error == (if e.message == "" then GenericMessage else e.message)
  {
  }

  /** Outside production the body never depends on the status: it is the message. */
  lemma DevelopmentShowsMessage(statusCode: Option<int>, message: string)
    ensures Handle(statusCode, message, false).error == (if message == "" then GenericMessage else message)
  {
  }
}
