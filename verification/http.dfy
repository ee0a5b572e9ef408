/** The response shape shared by every endpoint: the `HttpResponse` envelope
    built with its builder, and the `ResponseEntity` that carries it with an
    HTTP status. The envelope's time stamp is a formatted clock reading and
    is not modelled. */
module Http {
  import opened Wrappers
  import opened Notes

  /** The HTTP statuses the service and its error handlers produce, and the
      others Spring's standard exception handling passes through. */
  datatype Status =
    | Ok
    | Created
    | BadRequest
    | NotFound
    | MethodNotAllowed
    | NotAcceptable
    | PayloadTooLarge
    | UnsupportedMediaType
    | InternalServerError
    | ServiceUnavailable

  /** `HttpStatus.value()`: the numeric status code. */
  function Code(s: Status): (c: nat)
    ensures 200 <= c < 600
    ensures c < 300 <==> s == Ok || s == Created
  {
    match s
    case Ok => 200
    case Created => 201
    case BadRequest => 400
    case NotFound => 404
    case MethodNotAllowed => 405
    case NotAcceptable => 406
    case PayloadTooLarge => 413
    case UnsupportedMediaType => 415
    case InternalServerError => 500
    case ServiceUnavailable => 503
  }

  /** The `HttpResponse` envelope. Unset builder fields are null. */
  datatype Envelope = Envelope(
    notes: Option<seq<Note>>,
    message: Option<string>,
    reason: Option<string>,
    developerMessage: Option<string>,
    status: Status,
    statusCode: nat)

  /** A `ResponseEntity`: the envelope as body and the HTTP status line. */
  datatype Reply = Reply(body: Envelope, status: Status)

  /** The envelope's numeric code is the value of its symbolic status. */
  predicate Consistent(e: Envelope) {
    e.statusCode == Code(e.status)
  }

  /** The shape of a success envelope: a payload and a message, no
      diagnostic fields, and a code agreeing with the status. */
  predicate IsSuccess(e: Envelope) {
    e.notes.Some? && e.message.Some? && e.reason.None? && e.developerMessage.None? && Consistent(e)
  }

  /** The shape of an error envelope: no payload and no message, a reason and
      developer message instead, and a code agreeing with the status. */
  predicate IsError(e: Envelope) {
    e.notes.None? && e.message.None? && Consistent(e)
  }

  /** What the envelope builder produces on the service's success paths. */
  function SuccessEnvelope(notes: seq<Note>, message: string, status: Status): (e: Envelope)
    ensures IsSuccess(e) && e.notes == Some(notes) && e.message == Some(message) && e.status == status
  {
    Envelope(Some(notes), Some(message), None, None, status, Code(status))
  }

  /** What the envelope builder produces on the error paths: `notes` and
      `message` are never set. */
  function ErrorEnvelope(reason: Option<string>, developerMessage: Option<string>, status: Status): (e: Envelope)
    ensures IsError(e) && e.reason == reason && e.developerMessage == developerMessage && e.status == status
  {
    Envelope(None, None, reason, developerMessage, status, Code(status))
  }
}
