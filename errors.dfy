/** The HTTP error classes of forumApi/utils/errors.js and the other error values that
    reach the global handler, plus the Result type the services return. */
module Errors {

  import opened Base

  /** The four subclasses of `HttpError`. */
  datatype Kind = NotFoundKind | AuthorizationKind | ConflictKind | AuthenticationKind

  /** The fixed `name` each subclass passes to `HttpError`. */
  function Name(k: Kind): string
  {
    match k
    case NotFoundKind => "NotFoundError"
    case AuthorizationKind => "AuthorizationError"
    case ConflictKind => "ConflictError"
    case AuthenticationKind => "AuthenticationError"
  }

  /** The fixed `statusCode` each subclass passes to `HttpError`. */
  function Status(k: Kind): int
  {
    match k
    case NotFoundKind => 404
    case AuthorizationKind => 403
    case ConflictKind => 409
    case AuthenticationKind => 401
  }

  /** The message each subclass uses when its constructor gets none. */
  function DefaultMessage(k: Kind): string
  {
    match k
    case NotFoundKind => "Ressource non trouvée"
    case AuthorizationKind => "Action non autorisée"
    case ConflictKind => "Un conflit est survenu"
    case AuthenticationKind => "Identifiants invalides"
  }

  /** An error object as it is thrown in the API. */
  datatype Error =
    | HttpError(kind: Kind, message: string)
      // `new Error(...)` and the built-in errors (RangeError, TypeError): no `statusCode`
    | PlainError(message: string)
      // an error from the database driver: SQLSTATE `code`, violated `constraint`, no `statusCode`
    | DbError(code: string, constraint: string, message: string)

  /** `new K(message)`: JavaScript substitutes the default only for an omitted argument,
      so a supplied empty message stays empty. */
  function NewError(k: Kind, message: Option<string>): (e: Error)
    ensures e.HttpError? && e.kind == k
    ensures e.message == (if message.Some? then message.value else DefaultMessage(k))
  {
    HttpError(k, if message.Some? then message.value else DefaultMessage(k))
  }

  function NotFound(message: string): Error { NewError(NotFoundKind, Some(message)) }
  function Unauthorized(message: string): Error { NewError(AuthorizationKind, Some(message)) }
  function Conflict(message: string): Error { NewError(ConflictKind, Some(message)) }
  function Unauthenticated(message: string): Error { NewError(AuthenticationKind, Some(message)) }

  /** `err.statusCode`: present only on the `HttpError` subclasses. */
  function StatusCodeOf(e: Error): (c: Option<int>)
    ensures c.Some? <==> e.HttpError?
  {
    if e.HttpError? then Some(Status(e.kind)) else None
  }

  function MessageOf(e: Error): string
  {
    e.message
  }

  /** The table is one-to-one: the status code alone tells the kind, and so does the name. */
  lemma KindTableInjective(k1: Kind, k2: Kind)
    ensures Status(k1) == Status(k2) <==> k1 == k2
    ensures Name(k1) == Name(k2) <==> k1 == k2
  {
  }

  /** Every kind is a client error, and `NewError` sets the fixed status whatever the message;
      the `name` field is `Name(k)` in the same way. */
  lemma NewErrorFields(k: Kind, message: Option<string>)
    ensures 400 <= Status(k) < 500 && DefaultMessage(k) != ""
    ensures StatusCodeOf(NewError(k, message)) == Some(Status(k))
    ensures message.Some? ==> MessageOf(NewError(k, message)) == message.value
    ensures message.None? ==> MessageOf(NewError(k, message)) == DefaultMessage(k)
  {
  }

  /** What a service call produces: a value, or the error it throws. */
  datatype Result<+T> = Ok(value: T) | Err(error: Error)
}
