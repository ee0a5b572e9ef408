/** The note service: the five use cases as transitions of an abstract note
    store. The repository is the map from id to note together with the
    identity counter the database uses to hand out ids; every operation is
    a pure function of the store it starts from. */
module NoteService {
  import opened Wrappers
  import opened Notes
  import opened Http
  import opened Listing
  import Text

  /** The persisted notes by id, and the next id the identity column will
      hand out. */
  datatype Store = Store(notes: map<nat, Note>, nextId: nat)

  /** The store a fresh database starts with: no notes, identities from 1. */
  const EmptyStore: Store := Store(map[], 1)

  /** What the repository guarantees of every persisted note: it is filed
      under its own id, it was stamped when created, and its id was handed
      out by the identity counter, which has moved past it. */
  predicate WellFormed(st: Store) {
    && st.nextId >= 1
    && forall k :: k in st.notes ==>
         && st.notes[k].id == Some(k)
         && st.notes[k].createdAt.Some?
         && k < st.nextId
  }

  /** Every persisted note passes validation. */
  predicate AllValid(st: Store) {
    forall k :: k in st.notes ==> Valid(st.notes[k])
  }

  /** The error the service raises (`NoteNotFoundException`). */
  datatype ServiceError = NoteNotFound(message: string)

  const NotFoundMessage: string := "The note was not found on the server"
  const EmptyListMessage: string := "No notes to display"
  const RetrievedSuffix: string := " notes retrieved"
  const CreatedMessage: string := "Note created successfully"
  const UpdatedMessage: string := "Note updated successfully"
  const DeletedMessage: string := "Note deleted successfully"

  /** `k` is the least id in `keys`. */
  predicate IsLeast(k: nat, keys: set<nat>) {
    k in keys && forall j :: j in keys ==> k <= j
  }

  /** A non-empty finite set of ids has a least element. */
  lemma {:induction false} HasLeast(keys: set<nat>)
    requires keys != {}
    ensures exists k :: IsLeast(k, keys)
    decreases keys
  {
    var x :| x in keys;
    if keys == {x} {
      assert IsLeast(x, keys);
    } else {
      var others := keys - {x};
      HasLeast(others);
      var k :| IsLeast(k, others);
      var least := if x < k then x else k;
      forall j | j in keys
        ensures least <= j
      {
        if j != x {
          assert j in others;
        }
      }
      assert IsLeast(least, keys);
    }
  }

  /** The least id in a non-empty set. */
  function LeastKey(keys: set<nat>): (k: nat)
    requires keys != {}
    ensures k in keys && forall j :: j in keys ==> k <= j
  {
    HasLeast(keys);
    var k :| IsLeast(k, keys);
    k
  }

  /** Each note is filed under its own id, so no two ids share a note. */
  predicate FiledById(m: map<nat, Note>) {
    forall k :: k in m ==> m[k].id == Some(k)
  }

  /** `findAll`: every persisted note exactly once, in some order (here by
      ascending id; the repository promises no order). */
  function FindAll(m: map<nat, Note>): (r: seq<Note>)
    requires FiledById(m)
    ensures multiset(r) == multiset(m.Values)
    ensures |r| == |m|
    decreases |m|
  {
    if |m| == 0 then
      assert m.Values == {};
      []
    else
      var k := LeastKey(m.Keys);
      var rest := m - {k};
      assert m.Values == rest.Values + {m[k]} by {
        forall v | v in m.Values
          ensures v in rest.Values + {m[k]}
        {
          var j :| j in m && m[j] == v;
          if j != k {
            assert rest[j] == v;
          }
        }
      }
      assert m[k] !in rest.Values by {
        forall j | j in rest
          ensures rest[j] != m[k]
        {
          assert rest[j].id == Some(j);
        }
      }
      [m[k]] + FindAll(rest)
  }

  /** The message of a listing: the number of notes, or a fixed text when
      there are none. */
  function ListMessage(count: nat): string {
    if count > 0 then Text.NatToString(count) + RetrievedSuffix else EmptyListMessage
  }

  /** What follows the count in a level query's message. */
  function LevelSuffix(level: Level): string {
    " notes are of " + level.name + " importance"
  }

  /** The message of a level query. */
  function FilterMessage(count: nat, level: Level): string {
    Text.NatToString(count) + LevelSuffix(level)
  }

  /** `getNotes`: every persisted note, newest first. */
  function GetNotes(st: Store): (e: Envelope)
    requires WellFormed(st)
    ensures IsSuccess(e) && e.status == Ok
    ensures NewestFirst(e.notes.value)
    ensures multiset(e.notes.value) == multiset(st.notes.Values)
    ensures |e.notes.value| == |st.notes|
    ensures e.message == Some(ListMessage(|st.notes|))
  {
    var all := FindAll(st.notes);
    assert Stamped(all) by {
      forall i | 0 <= i < |all|
        ensures all[i].createdAt.Some?
      {
        assert all[i] in multiset(st.notes.Values);
      }
    }
    SuccessEnvelope(SortNewestFirst(all), ListMessage(|st.notes|), Ok)
  }

  /** `filterNotes`: exactly the persisted notes of the given level, each
      once, newest first. An empty result is still a success. */
  function FilterNotes(st: Store, level: Level): (e: Envelope)
    requires WellFormed(st)
    ensures IsSuccess(e) && e.status == Ok
    ensures NewestFirst(e.notes.value)
    ensures forall n ::
      multiset(e.notes.value)[n] == if n in st.notes.Values && n.level == Some(level) then 1 else 0
    ensures e.message == Some(FilterMessage(|e.notes.value|, level))
  {
    var all := FindAll(st.notes);
    assert Stamped(all) by {
      forall i | 0 <= i < |all|
        ensures all[i].createdAt.Some?
      {
        assert all[i] in multiset(st.notes.Values);
      }
    }
    var sorted := SortNewestFirst(OfLevel(all, level));
    SuccessEnvelope(sorted, FilterMessage(|sorted|, level), Ok)
  }

  /** The note `saveNote` persists: the input stamped with `now`, whatever
      creation time the client sent, under the next identity. */
  function Stamp(input: Note, id: nat, now: Time): (n: Note)
    ensures n.id == Some(id) && n.createdAt == Some(now)
    ensures n.title == input.title && n.description == input.description && n.level == input.level
  {
    input.(id := Some(id), createdAt := Some(now))
  }

  /** `saveNote`: persists the input as one new note under a fresh id,
      stamped with the caller's `now`, and returns it. The client must not
      supply an id. */
  function SaveNote(st: Store, input: Note, now: Time): (out: (Envelope, Store))
    requires WellFormed(st)
    requires input.id.None?
    ensures var (e, st') := out;
      && WellFormed(st')
      && IsSuccess(e) && e.status == Created && e.message == Some(CreatedMessage)
      && |e.notes.value| == 1
      && var saved := e.notes.value[0];
      && saved.id.Some? && saved.id.value !in st.notes
      && saved.createdAt == Some(now)
      && saved.title == input.title && saved.description == input.description && saved.level == input.level
      && st'.notes.Keys == st.notes.Keys + {saved.id.value}
      && st'.notes[saved.id.value] == saved
      && (forall k :: k in st.notes ==> st'.notes[k] == st.notes[k])
      && st'.nextId > st.nextId
  {
    var saved := Stamp(input, st.nextId, now);
    (SuccessEnvelope([saved], CreatedMessage, Created),
     Store(st.notes[st.nextId := saved], st.nextId + 1))
  }

  /** `st` and `st'` hold the same notes under every id but `id`, and the
      identity counter has not moved. */
  predicate SameExcept(st: Store, st': Store, id: int) {
    && st'.nextId == st.nextId
    && st'.notes.Keys - {id} == st.notes.Keys - {id}
    && (forall k :: k != id && k in st.notes ==> k in st'.notes && st'.notes[k] == st.notes[k])
  }

  /** `updateNote`: fails with the not-found error when no note has the
      input's id; otherwise overwrites that note's title, description and
      level with the input's, keeps its id and creation time, and returns
      it. Nothing else changes. */
  function UpdateNote(st: Store, input: Note): (out: (Result<Envelope, ServiceError>, Store))
    requires WellFormed(st)
    requires input.id.Some?
    ensures var (r, st') := out;
      var id := input.id.value;
      && WellFormed(st')
      && (id !in st.notes <==> r.Failure?)
      && (id !in st.notes ==> r.error == NoteNotFound(NotFoundMessage) && st' == st)
      && (id in st.notes ==>
            && IsSuccess(r.value) && r.value.status == Ok && r.value.message == Some(UpdatedMessage)
            && id in st'.notes && SameExcept(st, st', id)
            && var updated := st'.notes[id];
            && r.value.notes == Some([updated])
            && updated.id == st.notes[id].id
            && updated.createdAt == st.notes[id].createdAt
            && updated.title == input.title
            && updated.description == input.description
            && updated.level == input.level)
  {
    var id := input.id.value;
    if id !in st.notes then
      (Failure(NoteNotFound(NotFoundMessage)), st)
    else
      var existing := st.notes[id];
      var updated := existing.(id := input.id, title := input.title,
                               description := input.description, level := input.level);
      (Success(SuccessEnvelope([updated], UpdatedMessage, Ok)),
       st.(notes := st.notes[id := updated]))
  }

  /** `deleteNote`: fails with the not-found error when no note has the id;
      otherwise removes that note, and only it, and returns it as it was. */
  function DeleteNote(st: Store, id: int): (out: (Result<Envelope, ServiceError>, Store))
    requires WellFormed(st)
    ensures var (r, st') := out;
      && WellFormed(st')
      && (id !in st.notes <==> r.Failure?)
      && (id !in st.notes ==> r.error == NoteNotFound(NotFoundMessage) && st' == st)
      && (id in st.notes ==>
            && IsSuccess(r.value) && r.value.status == Ok && r.value.message == Some(DeletedMessage)
            && r.value.notes == Some([st.notes[id]])
            && id !in st'.notes && SameExcept(st, st', id))
  {
    if id !in st.notes then
      (Failure(NoteNotFound(NotFoundMessage)), st)
    else
      (Success(SuccessEnvelope([st.notes[id]], DeletedMessage, Ok)),
       st.(notes := st.notes - {id}))
  }
}
