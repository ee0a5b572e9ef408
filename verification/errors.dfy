/** The central exception advice: every failure that escapes an endpoint is
    turned into an error envelope with a reason, a developer message and a
    status, and no payload. */
module ErrorHandling {
  import opened Wrappers
  import opened Http
  import Text

  /** The failures the advice intercepts. A message is what `getMessage()`
      returns, which may be null. */
  datatype Failure =
      /** A request body failed bean validation: the default message of each
          violated field constraint, in the validator's order, the
          exception's own text, and the status Spring passes along. */
    | ArgumentNotValid(fieldMessages: seq<string>, detail: string, status: Status)
      /** One of the framework's standard exceptions, with the status Spring
          assigns it. */
    | Standard(message: Option<string>, status: Status)
    | IllegalState(message: Option<string>)
    | NoteNotFound(message: Option<string>)
    | NoResult(message: Option<string>)
    | Servlet(message: Option<string>)
      /** Any other exception. */
    | Uncaught(message: Option<string>)

  /** The failures routed through `createHttpErrorResponse`. */
  predicate IsDomainFailure(f: Failure) {
    f.IllegalState? || f.NoteNotFound? || f.NoResult? || f.Servlet? || f.Uncaught?
  }

  const InvalidFieldsPrefix: string := "Invalid fields: "

  /** The reason reported for a validation failure. */
  function ValidationReason(fieldMessages: seq<string>): (r: string)
    ensures |r| >= |InvalidFieldsPrefix| && r[..|InvalidFieldsPrefix|] == InvalidFieldsPrefix
    ensures |fieldMessages| == 0 ==> r == InvalidFieldsPrefix
    ensures (forall i :: 0 <= i < |fieldMessages| ==> Text.CommaFree(fieldMessages[i])) ==>
      (',' in r <==> |fieldMessages| > 1)
  {
    InvalidFieldsPrefix + Text.Join(fieldMessages)
  }

  /** The reply the advice builds for a failure. */
  function Translate(f: Failure): (r: Reply)
    ensures IsError(r.body)
    ensures r.status == r.body.status
    ensures f.ArgumentNotValid? ==>
      && r.body.reason == Some(ValidationReason(f.fieldMessages))
      && r.body.developerMessage == Some(f.detail)
      && r.status == f.status
    ensures f.Standard? ==>
      r.body.reason == r.body.developerMessage == f.message && r.status == f.status
    ensures IsDomainFailure(f) ==>
      r.body.reason == r.body.developerMessage == f.message && r.status == BadRequest
  {
    match f
    case ArgumentNotValid(fieldMessages, detail, status) =>
      HandleArgumentNotValid(fieldMessages, detail, status)
    case Standard(message, status) =>
      HandleInternal(message, status)
    case IllegalState(message) => CreateErrorResponse(BadRequest, message, message)
    case NoteNotFound(message) => CreateErrorResponse(BadRequest, message, message)
    case NoResult(message) => CreateErrorResponse(BadRequest, message, message)
    case Servlet(message) => CreateErrorResponse(BadRequest, message, message)
    case Uncaught(message) => CreateErrorResponse(BadRequest, message, message)
  }

  /** `handleMethodArgumentNotValid`. */
  function HandleArgumentNotValid(fieldMessages: seq<string>, detail: string, status: Status): (r: Reply)
    ensures IsError(r.body) && r.status == r.body.status == status
  {
    Reply(ErrorEnvelope(Some(ValidationReason(fieldMessages)), Some(detail), status), status)
  }

  /** `handleExceptionInternal`: the incoming status is kept. */
  function HandleInternal(message: Option<string>, status: Status): (r: Reply)
    ensures IsError(r.body) && r.status == r.body.status == status
  {
    Reply(ErrorEnvelope(message, message, status), status)
  }

  /** `createHttpErrorResponse`. */
  function CreateErrorResponse(status: Status, reason: Option<string>, message: Option<string>): (r: Reply)
    ensures IsError(r.body) && r.status == r.body.status == status
  {
    Reply(ErrorEnvelope(reason, message, status), status)
  }

  /** The envelope of every translated failure reports one status, in both
      its symbolic and numeric form and in the response line. */
  lemma StatusAgreesEverywhere(f: Failure)
    ensures var r := Translate(f);
      r.body.statusCode == Code(r.status) && r.body.status == r.status
  {
  }

  /** A domain failure always yields a client-error reply, never a success or
      a not-found status. */
  lemma DomainFailuresAreBadRequests(f: Failure)
    requires IsDomainFailure(f)
    ensures Translate(f).body.statusCode == 400
    ensures Translate(f).body.reason == Translate(f).body.developerMessage
  {
  }

  /** The reason of a validation failure names exactly the violated
      constraints: cutting it after the prefix gives back the field
      messages, provided none of them holds a comma. */
  lemma ValidationReasonRecoversMessages(fieldMessages: seq<string>, detail: string, status: Status)
    requires |fieldMessages| > 0
    requires forall i :: 0 <= i < |fieldMessages| ==> Text.CommaFree(fieldMessages[i])
    ensures var reason := Translate(ArgumentNotValid(fieldMessages, detail, status)).body.reason.value;
      && |reason| >= |InvalidFieldsPrefix|
      && reason[..|InvalidFieldsPrefix|] == InvalidFieldsPrefix
      && Text.Split(reason[|InvalidFieldsPrefix|..]) == fieldMessages
  {
    var reason := ValidationReason(fieldMessages);
    assert reason[|InvalidFieldsPrefix|..] == Text.Join(fieldMessages);
    Text.SplitJoin(fieldMessages);
  }
}
