# Note service: a Dafny model

This project models the core of a small note-taking backend. Clients list,
filter, create, update and delete notes. Each answer is wrapped in a uniform
`HttpResponse` envelope. Request bodies are checked against the bean-validation
constraints on the `Note` entity. A central exception advice turns every
failure into an error envelope.

The model is functional:

- `Notes` (`note.dfy`): the `Note` entity with its nullable fields as `Option`
  values, the `@NotNull`/`@NotEmpty` constraints as a validity predicate, and
  the list of violated-constraint messages.
- `Http` (`http.dfy`): HTTP statuses and their numeric codes, the envelope, and
  the `ResponseEntity` reply.
- `Listing` (`listing.dfy`): the newest-first sort and the exact-level selection.
- `NoteService` (`service.dfy`): the repository as a `Store`, which is a map
  from id to note plus the identity counter. It also holds the five use cases
  as pure functions from a store to an envelope, or to an outcome and a new
  store.
- `NoteServiceProperties` (`service_properties.dfy`): properties that relate
  several calls, or compare a call with an independent description of its
  result.
- `ErrorHandling` (`errors.dfy`): the exception advice as one translation
  function from a failure to an error reply.
- `Requests` (`requests.dfy`): one request end to end. The body is validated,
  the service runs, and failures are translated. Invariants are proved over any
  run of requests.
- `Text` (`text.dfy`): decimal rendering of counts, and joining messages with
  `", "`. Each comes with a parser that undoes it.
- `Wrappers` (`wrappers.dfy`): `Option` and `Result`.

Two behaviours of the code worth noting:

- A client-supplied id on create is not ignored. JPA's `save` would merge it.
  The model therefore asks create callers for a note without an id.
- The fallback error handler is declared inside the controller mapped at
  `/note`, so it is mapped at `/note/error`, not `/error`. The model covers
  only the reply the handler builds (`Requests.NoMapping`).

Clocks are parameters. "Now" is an integer instant passed to create. Each
envelope's formatted time stamp is dropped.

## Model

| member | source | states |
|---|---|---|
| Notes.Violations | src/main/java/noteapplicationv2/domain/Note.java:22-27 | A note has no violations exactly when it is valid. Each of the four fixed messages is reported exactly when its constraint fails: title null, title null-or-empty, description null, description null-or-empty. |
| Notes.FieldViolations | src/main/java/noteapplicationv2/domain/Note.java:22-23 | For one field, the `@NotNull` message appears iff the field is null, and the `@NotEmpty` message appears iff it is null or empty. Each appears at most once. |
| Notes.NullViolatesBoth | src/main/java/noteapplicationv2/domain/Note.java:22-27 | A null title or description is reported once by each of its two constraints. An empty one is reported only by `@NotEmpty`. |
| Notes.Valid | src/main/java/noteapplicationv2/domain/Note.java:22-27 | A note is valid exactly when its title and description are both non-empty. `@NotEmpty` already rejects null, so the `@NotNull` constraints never change validity; they only add messages. |
| Notes.BlankFieldsAreValid | src/main/java/noteapplicationv2/domain/Note.java:23-26 | Every note whose title and description are non-empty strings of spaces, tabs and line breaks passes validation with no violations, because the check is "not empty", not "not blank". |
| Notes.ValidityIgnoresOtherFields | src/main/java/noteapplicationv2/domain/Note.java:18-30 | Validity and the violation list do not depend on id, level or creation time. |
| Listing.SortNewestFirst | src/main/java/noteapplicationv2/service/NoteService.java:38 | The sorted list is newest first by creation time and is a permutation (multiset-equal) of its input. |
| Listing.NewestFirstUnique | src/main/java/noteapplicationv2/service/NoteService.java:38 | Any two newest-first permutations of the same notes have the same creation time at every position. The order is fixed up to ties, and ties are not broken. |
| Listing.OfLevel | src/main/java/noteapplicationv2/repository/NoteRepo.java:10 | A note is selected iff its level equals the queried level. Each selected note keeps its multiplicity and every other note gets 0. A note with no level never matches. |
| NoteService.FindAll | src/main/java/noteapplicationv2/service/NoteService.java:38 | `findAll` returns every persisted note exactly once: a multiset equal to the store's values, with one entry per id. |
| NoteService.GetNotes | src/main/java/noteapplicationv2/service/NoteService.java:35-44 | The listing is a newest-first permutation of all stored notes. Its status is always OK/200. Its message is the count followed by " notes retrieved", or "No notes to display" when the store is empty. |
| NoteService.FilterNotes | src/main/java/noteapplicationv2/service/NoteService.java:47-57 | Each stored note of the given level appears exactly once and no other note appears, newest first. The message is "n notes are of L importance" with n the result size. The status is OK/200 even when n is 0. |
| NoteService.SaveNote | src/main/java/noteapplicationv2/service/NoteService.java:60-70 | Exactly one note is added, under an id not in use. Its creation time is the caller's now, whatever the client sent. Title, description and level are the input's. Existing entries are unchanged. The reply is that single note with CREATED/201. The store stays well formed. |
| NoteService.UpdateNote | src/main/java/noteapplicationv2/service/NoteService.java:73-90 | An absent id fails with "The note was not found on the server" and leaves the store unchanged. Otherwise title, description and level are overwritten while id and creation time are kept. No other entry changes, and the updated note is returned with OK/200. |
| NoteService.DeleteNote | src/main/java/noteapplicationv2/service/NoteService.java:93-105 | An absent id fails with the not-found error and leaves the store unchanged. Otherwise only that entry is removed, and the record as it was before deletion is returned with OK/200. |
| NoteServiceProperties.ListMessageCountsNotes | src/main/java/noteapplicationv2/service/NoteService.java:39 | The listing message is the fixed empty text exactly when nothing is listed. Otherwise its digits parse back to the number of notes listed. |
| NoteServiceProperties.FilterAgreesWithList | src/main/java/noteapplicationv2/service/NoteService.java:48-51 | A level query returns the same multiset of notes as picking that level out of the full listing. |
| NoteServiceProperties.FilterMessageCountsNotes | src/main/java/noteapplicationv2/service/NoteService.java:52 | Removing " notes are of L importance" from the end of a level query's message leaves decimal digits, and those digits parse back to the number of notes listed. |
| NoteServiceProperties.SavedNoteListedFirst | src/main/java/noteapplicationv2/service/NoteService.java:35-70 | A note saved later than every stored note is first in the next listing, which has grown by one. |
| NoteServiceProperties.TwoNotesListedNewestFirst | src/main/java/noteapplicationv2/service/NoteService.java:35-70 | On an empty store, creating A and then a later B and listing gives exactly [B, A]. |
| NoteServiceProperties.DeletedNoteNotListed | src/main/java/noteapplicationv2/service/NoteService.java:93-105 | After a delete, the removed note is no longer in the listing, and the listing is one shorter. |
| NoteServiceProperties.SecondDeleteFails | src/main/java/noteapplicationv2/service/NoteService.java:95-97 | Deleting the same id a second time fails with the not-found error and changes nothing. |
| NoteServiceProperties.UpdateIdempotent | src/main/java/noteapplicationv2/service/NoteService.java:73-82 | Applying the same update twice leaves the store as one application does. |
| NoteServiceProperties.DeleteUndoesSave | src/main/java/noteapplicationv2/service/NoteService.java:60-105 | Deleting a note just created succeeds, returns that note, and restores the stored notes. |
| Text.NatToString | src/main/java/noteapplicationv2/service/NoteService.java:39 | The decimal text of a count is a non-empty string of digits with no leading zero. |
| Text.ParseNatToString | src/main/java/noteapplicationv2/service/NoteService.java:39 | The decimal rendering of a count parses back to the count. |
| Text.Join | src/main/java/noteapplicationv2/exception/HandleException.java:35 | Joining no messages gives the empty text. A non-empty join starts with the first message. The joined text contains a comma exactly when there are two or more messages or one of them has a comma. |
| Text.SplitJoin | src/main/java/noteapplicationv2/exception/HandleException.java:35 | Splitting the `", "`-joined text of a non-empty list of comma-free messages gives the list back. |
| ErrorHandling.ValidationReason | src/main/java/noteapplicationv2/exception/HandleException.java:38 | The validation reason starts with "Invalid fields: ". It is exactly that prefix when no messages are given. For comma-free messages it contains a comma exactly when there are two or more. |
| ErrorHandling.Translate | src/main/java/noteapplicationv2/exception/HandleException.java:31-95 | Every failure becomes an error envelope with no notes and no message, a code equal to its status's value, and a response status equal to the envelope's. Validation keeps the incoming status, and its reason is "Invalid fields: " plus the joined messages. Standard exceptions keep their status with reason = developer message = the exception message. Every other kind gives BAD_REQUEST/400 with reason = developer message. |
| ErrorHandling.HandleArgumentNotValid | src/main/java/noteapplicationv2/exception/HandleException.java:32-44 | The validation reply keeps the status it is given in both envelope and response, and carries no payload. |
| ErrorHandling.HandleInternal | src/main/java/noteapplicationv2/exception/HandleException.java:48-58 | `handleExceptionInternal` keeps the incoming status and carries no payload. |
| ErrorHandling.CreateErrorResponse | src/main/java/noteapplicationv2/exception/HandleException.java:85-95 | The envelope's status, its numeric code and the response status all agree, and there is no payload. |
| ErrorHandling.StatusAgreesEverywhere | src/main/java/noteapplicationv2/exception/HandleException.java:40-43 | In every translated reply, `statusCode` equals the value of `status`, which equals the response status. |
| ErrorHandling.DomainFailuresAreBadRequests | src/main/java/noteapplicationv2/exception/HandleException.java:60-83 | NoteNotFound, IllegalState, NoResult, Servlet and generic exceptions all give code 400, with reason equal to developer message. |
| ErrorHandling.ValidationReasonRecoversMessages | src/main/java/noteapplicationv2/exception/HandleException.java:34-38 | The validation reason starts with "Invalid fields: ", and the rest splits back into exactly the field messages. |
| Requests.ValidationReasonAnyOrder | src/main/java/noteapplicationv2/exception/HandleException.java:34-38 | Whatever order the validator reports violations in, the reason splits back into a list with the same multiset as the note's violations. |
| Requests.NoMapping | src/main/java/noteapplicationv2/resource/NoteResource.java:69-80 | A request that reaches the `/note/error` handler gets an error envelope with NOT_FOUND/404 and reason equal to developer message. The reason is "There is no mapping for a ", then the request's method, then " request for this path on the server". |
| Requests.NoMappingNamesMethod | src/main/java/noteapplicationv2/resource/NoteResource.java:73-74 | The error page's reason determines the request method it names. |
| Requests.HandleAdd | src/main/java/noteapplicationv2/resource/NoteResource.java:42-52 | An invalid body is rejected with 400 and the joined violation messages, and the store is untouched. A valid one is created with 201 and the store grows by one. The store's invariants are kept either way. |
| Requests.HandleUpdate | src/main/java/noteapplicationv2/resource/NoteResource.java:59-62 | An invalid body is rejected with 400 before the lookup. An unknown id gives 400 with the not-found reason and an unchanged store. A known id gives 200 with the same set of ids. |
| Requests.HandleDelete | src/main/java/noteapplicationv2/resource/NoteResource.java:64-67 | An unknown id gives 400 with the not-found reason and an unchanged store. A known id gives 200 and the id is gone. |
| Requests.Handle | src/main/java/noteapplicationv2/resource/NoteResource.java:30-80 | Every request keeps the store well formed and every persisted note valid. Surviving notes keep their creation time, and new ids lie beyond the counter. Reads leave the store as it was. A reply is a success envelope exactly when its status is 200 or 201. |
| Requests.RunInvariants | src/main/java/noteapplicationv2/domain/Note.java:18-30 | Over any run of requests, persisted notes stay valid. A surviving note keeps its id and creation time. A retired id never returns, and every new note's id lies beyond the starting counter. |
| Requests.InvalidNoteNeverStored | src/main/java/noteapplicationv2/resource/NoteResource.java:42-43 | Creating a note that fails validation leaves the store unchanged and gives a 400 error envelope with no payload, whose reason lists the violations. |

## Left out

- Time stamps: `LocalDateTime.now()` becomes an integer "now" for create. The formatted envelope `timeStamp` is not modelled. Neither are the `MM-dd-yyyy hh:mm:ss` JSON pattern, the America/New_York timezone and `DateUtil`.
- Logging and the `Location` header built for create: neither affects the envelope or the store.
- The one-second sleeps in the list and create endpoints. The model assumes they are never interrupted. An interrupted sleep is rethrown as a `RuntimeException`, which the generic exception handler answers with a BAD_REQUEST/400 error envelope; on create, `saveNote` then never runs.
- `@Transactional`, concurrent read-modify-write races and JSON serialisation: every request is modelled as one atomic step on the store.
- Requests.NoMapping: models the reply the fallback handler builds. It does not model which requests the servlet container forwards to it, because that depends on the `/note/error` mapping and on framework error forwarding.
- Spring's routing and its choice of exception handler: `Requests.Request` names the endpoint directly, and `ErrorHandling.Failure` names the handler that applies.
- The repository is the abstract `Store`, not Spring Data JPA. `findAll` returns notes by ascending id, an order the repository does not promise and no property relies on. `findByLevel` is exact level equality.
- NoteService.SaveNote: requires the client to send no id. JPA's merge when a client supplies an id on create is not modelled.
- NoteService.UpdateNote: requires the input id to be non-null. `findById(null)` throws a framework exception, which is not modelled. `Requests.Admissible` only asks this of bodies that pass validation.
- NoteService.GetNotes: requires a well-formed store, in which every persisted note has a creation time. The source would fail with a null-pointer error when sorting a note without one, and that case cannot arise from the modelled operations.
- The validator's message order is not promised by the source. The model reports violations in a fixed order and proves the order-independent property separately (`Requests.ValidationReasonAnyOrder`).
- The validation exception's own message text comes from the framework. It is a parameter (`Call.validationDetail`). Spring's status for that exception is taken to be BAD_REQUEST.
- `Level`'s constants are not known here. A level is identified by its name, and string concatenation is assumed to print that name.
- `HttpStatus` is limited to the statuses listed in `Http.Status`. The `(HttpStatus)` cast on a non-enum status code is not modelled.
- Ids are unbounded integers. A client may send any id, including 0 or a negative one, and those simply match no note; the `Long` range of 64 bits is not modelled.
- `count()` returns a Java `long`. Overflow past 2^63 notes is not modelled.
- The source's `updateNote` also calls `setId` with the input id. That id equals the id of the note it found, so this is a no-op and the model keeps the id unchanged.
