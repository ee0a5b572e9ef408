/** One request end to end: the endpoint validates the body, calls the
    service, and any failure is translated by the exception advice. Over a
    run of requests this keeps every persisted note valid, never changes a
    note's id or creation time, and never hands out an id twice. */
module Requests {
  import opened Wrappers
  import opened Notes
  import opened Http
  import opened NoteService
  import opened ErrorHandling
  import Text

  datatype Request =
    | ListAll
    | FilterByLevel(level: Level)
    | Add(note: Note)
    | Update(note: Note)
    | Delete(id: int)
      /** A request, of any method, that reaches the handler mapped at
          `/note/error`. */
    | ErrorPage(httpMethod: string)

  /** The caller's side of the contract: a new note that passes validation
      comes without an id, an updated one names the note it replaces. A body
      that fails validation is rejected before its id is looked at. */
  predicate Admissible(req: Request) {
    && (req.Add? && Valid(req.note) ==> req.note.id.None?)
    && (req.Update? && Valid(req.note) ==> req.note.id.Some?)
  }

  /** A request as it arrives: the clock reading at the time, and the text
      the validation exception would report as its message. */
  datatype Call = Call(request: Request, now: Time, validationDetail: string)

  /** The status Spring passes for a body that fails validation. */
  const ValidationStatus: Status := BadRequest

  const NoMappingPrefix: string := "There is no mapping for a "
  const NoMappingSuffix: string := " request for this path on the server"

  /** The reply of the handler mapped at `/note/error`: a not-found error
      whose reason and developer message both name the request's method
      between a fixed prefix and a fixed suffix. */
  function NoMapping(httpMethod: string): (r: Reply)
    ensures IsError(r.body) && r.status == r.body.status == NotFound
    ensures r.body.reason == r.body.developerMessage
    ensures r.body.reason.Some?
    ensures |r.body.reason.value| == |NoMappingPrefix| + |httpMethod| + |NoMappingSuffix|
    ensures r.body.reason.value[..|NoMappingPrefix|] == NoMappingPrefix
    ensures r.body.reason.value[|NoMappingPrefix|..|NoMappingPrefix| + |httpMethod|] == httpMethod
    ensures r.body.reason.value[|NoMappingPrefix| + |httpMethod|..] == NoMappingSuffix
  {
    var text := NoMappingPrefix + httpMethod + NoMappingSuffix;
    assert text[..|NoMappingPrefix|] == NoMappingPrefix;
    assert text[|NoMappingPrefix|..|NoMappingPrefix| + |httpMethod|] == httpMethod;
    assert text[|NoMappingPrefix| + |httpMethod|..] == NoMappingSuffix;
    Reply(ErrorEnvelope(Some(text), Some(text), NotFound), NotFound)
  }

  /** The reason of the error page determines the method it names. */
  lemma NoMappingNamesMethod(m1: string, m2: string)
    requires NoMapping(m1).body.reason == NoMapping(m2).body.reason
    ensures m1 == m2
  {
    var r1 := NoMapping(m1).body.reason.value;
    var r2 := NoMapping(m2).body.reason.value;
    assert |m1| == |m2|;
    assert m1 == r1[|NoMappingPrefix|..|NoMappingPrefix| + |m1|];
  }

  /** The reply a service failure turns into. */
  function ServiceFailure(e: ServiceError): Reply {
    match e
    case NoteNotFound(message) => Translate(ErrorHandling.NoteNotFound(Some(message)))
  }

  /** The reply to a body that fails validation. */
  function Rejected(n: Note, detail: string): Reply {
    Translate(ArgumentNotValid(Violations(n), detail, ValidationStatus))
  }

  /** The facts every handled request keeps: the store stays well formed,
      the reply reports one status, valid notes stay valid, the identity
      counter never goes back, surviving notes keep their creation time, and
      new notes get ids the counter had not reached. */
  predicate Keeps(st: Store, r: Reply, st': Store)
    requires WellFormed(st)
  {
    && WellFormed(st')
    && r.status == r.body.status && Consistent(r.body)
    && (r.status.Ok? || r.status.Created? <==> IsSuccess(r.body))
    && (AllValid(st) ==> AllValid(st'))
    && st'.nextId >= st.nextId
    && (forall k :: k in st.notes && k in st'.notes ==> st'.notes[k].createdAt == st.notes[k].createdAt)
    && (forall k :: k in st'.notes && k !in st.notes ==> k >= st.nextId)
  }

  /** `POST /note/add`: a body that fails validation is rejected before the
      service runs; otherwise the note is created. */
  function HandleAdd(st: Store, note: Note, now: Time, detail: string): (out: (Reply, Store))
    requires WellFormed(st) && (Valid(note) ==> note.id.None?)
    ensures Keeps(st, out.0, out.1)
    ensures !Valid(note) ==>
      && out.1 == st && out.0.status == BadRequest
      && out.0.body.reason == Some(ValidationReason(Violations(note)))
    ensures Valid(note) ==> out.0.status == Created && |out.1.notes| == |st.notes| + 1
  {
    if !Valid(note) then (Rejected(note, detail), st)
    else
      var (e, st') := SaveNote(st, note, now);
      (Reply(e, Created), st')
  }

  /** `PUT /note/update`: validation first, then the service; a missing
      note becomes a client error. */
  function HandleUpdate(st: Store, note: Note, detail: string): (out: (Reply, Store))
    requires WellFormed(st) && (Valid(note) ==> note.id.Some?)
    ensures Keeps(st, out.0, out.1)
    ensures !Valid(note) ==>
      && out.1 == st && out.0.status == BadRequest
      && out.0.body.reason == Some(ValidationReason(Violations(note)))
    ensures Valid(note) && note.id.value !in st.notes ==>
      out.1 == st && out.0.status == BadRequest && out.0.body.reason == Some(NotFoundMessage)
    ensures Valid(note) && note.id.value in st.notes ==>
      out.0.status == Ok && out.1.notes.Keys == st.notes.Keys
  {
    if !Valid(note) then (Rejected(note, detail), st)
    else
      var (r, st') := UpdateNote(st, note);
      match r
      case Success(e) => (Reply(e, Ok), st')
      case Failure(err) => (ServiceFailure(err), st')
  }

  /** `DELETE /note/delete/{id}`: a missing note becomes a client error. */
  function HandleDelete(st: Store, id: int): (out: (Reply, Store))
    requires WellFormed(st)
    ensures Keeps(st, out.0, out.1)
    ensures id !in st.notes ==>
      out.1 == st && out.0.status == BadRequest && out.0.body.reason == Some(NotFoundMessage)
    ensures id in st.notes ==> out.0.status == Ok && id !in out.1.notes
  {
    var (r, st') := DeleteNote(st, id);
    match r
    case Success(e) => (Reply(e, Ok), st')
    case Failure(err) => (ServiceFailure(err), st')
  }

  /** The reply to one request and the store after it. Reads leave the store
      as it was. */
  function Handle(st: Store, c: Call): (out: (Reply, Store))
    requires WellFormed(st) && Admissible(c.request)
    ensures Keeps(st, out.0, out.1)
    ensures (c.request.ListAll? || c.request.FilterByLevel? || c.request.ErrorPage?) ==> out.1 == st
  {
    match c.request
    case ListAll => (Reply(GetNotes(st), Ok), st)
    case FilterByLevel(level) => (Reply(FilterNotes(st, level), Ok), st)
    case Add(note) => HandleAdd(st, note, c.now, c.validationDetail)
    case Update(note) => HandleUpdate(st, note, c.validationDetail)
    case Delete(id) => HandleDelete(st, id)
    case ErrorPage(httpMethod) => (NoMapping(httpMethod), st)
  }

  predicate AllAdmissible(calls: seq<Call>) {
    forall i :: 0 <= i < |calls| ==> Admissible(calls[i].request)
  }

  /** The store after handling `calls` in order. */
  function Run(st: Store, calls: seq<Call>): (st': Store)
    requires WellFormed(st) && AllAdmissible(calls)
    ensures WellFormed(st')
    decreases |calls|
  {
    if |calls| == 0 then st else Run(Handle(st, calls[0]).1, calls[1..])
  }

  /** Over any run of requests: persisted notes stay valid, a note that
      survives keeps its creation time, an id that was handed out and is no
      longer in use never comes back, and every new note got an id the
      counter had not yet reached. */
  lemma {:induction false} RunInvariants(st: Store, calls: seq<Call>)
    requires WellFormed(st) && AllValid(st) && AllAdmissible(calls)
    ensures var st' := Run(st, calls);
      && AllValid(st')
      && st'.nextId >= st.nextId
      && (forall k :: k in st.notes && k in st'.notes ==> st'.notes[k].createdAt == st.notes[k].createdAt)
      && (forall k :: k in st.notes && k in st'.notes ==> st'.notes[k].id == st.notes[k].id)
      && (forall k :: k in st'.notes && k !in st.notes ==> k >= st.nextId)
    decreases |calls|
  {
    if |calls| > 0 {
      var mid := Handle(st, calls[0]).1;
      assert AllAdmissible(calls[1..]) by {
        forall i | 0 <= i < |calls[1..]|
          ensures Admissible(calls[1..][i].request)
        {
          assert calls[1..][i] == calls[i + 1];
        }
      }
      RunInvariants(mid, calls[1..]);
      var st' := Run(st, calls);
      assert st' == Run(mid, calls[1..]);
      forall k | k in st.notes && k in st'.notes
        ensures st'.notes[k].createdAt == st.notes[k].createdAt
      {
        assert k < st.nextId <= mid.nextId;
        assert k in mid.notes;
      }
    }
  }

  /** A rejected body leaves the store as it was, so an invalid note is
      never persisted. */
  lemma InvalidNoteNeverStored(st: Store, n: Note, now: Time, detail: string)
    requires WellFormed(st) && !Valid(n)
    ensures var (r, st') := Handle(st, Call(Add(n), now, detail));
      st' == st && r.body.statusCode == 400 && r.body.notes.None?
      && r.body.reason == Some(ValidationReason(Violations(n)))
  {
  }

  /** Whatever order the validator reports the violated constraints in, the
      reason lists exactly them: cutting it apart after the prefix gives a
      list with the same messages, each as often. */
  lemma ValidationReasonAnyOrder(n: Note, order: seq<string>, detail: string)
    requires !Valid(n)
    requires multiset(order) == multiset(Violations(n))
    ensures var reason := Translate(ArgumentNotValid(order, detail, ValidationStatus)).body.reason.value;
      && reason[..|InvalidFieldsPrefix|] == InvalidFieldsPrefix
      && multiset(Text.Split(reason[|InvalidFieldsPrefix|..])) == multiset(Violations(n))
  {
    assert |order| == |Violations(n)| by {
      assert |multiset(order)| == |multiset(Violations(n))|;
    }
    forall i | 0 <= i < |order|
      ensures Text.CommaFree(order[i])
    {
      assert order[i] in multiset(Violations(n));
      assert order[i] in Violations(n);
      ConstraintMessageCommaFree(order[i]);
    }
    ValidationReasonRecoversMessages(order, detail, ValidationStatus);
  }
}
