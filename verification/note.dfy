/** The note entity and the bean-validation constraints declared on it.
    Every field of the Java entity is a nullable reference, so each one is an
    `Option` here; a persisted note always has its id and creation time set
    (see `NoteService.WellFormed`). */
module Notes {
  import opened Wrappers
  import Text

  /** A point in time. `LocalDateTime` is abstracted to an integer instant
      that orders the same way. */
  type Time = int

  /** An importance level. The enum's constants are not fixed by the model;
      a level is identified by its constant name, which is what string
      concatenation prints for it. */
  datatype Level = Level(name: string)

  datatype Note = Note(
    id: Option<int>,
    title: Option<string>,
    description: Option<string>,
    level: Option<Level>,
    createdAt: Option<Time>)

  const TitleNullMessage: string := "Title of this note cannot be null"
  const TitleEmptyMessage: string := "Title of this note cannot be empty"
  const DescriptionNullMessage: string := "Description of this note cannot be null"
  const DescriptionEmptyMessage: string := "Description of this note cannot be empty"

  /** `m` is the message of one of the four constraints. */
  predicate IsConstraintMessage(m: string) {
    m == TitleNullMessage || m == TitleEmptyMessage || m == DescriptionNullMessage || m == DescriptionEmptyMessage
  }

  /** The four messages are pairwise different. */
  lemma MessagesDistinct()
    ensures TitleNullMessage != TitleEmptyMessage
    ensures DescriptionNullMessage != DescriptionEmptyMessage
    ensures TitleNullMessage != DescriptionNullMessage && TitleNullMessage != DescriptionEmptyMessage
    ensures TitleEmptyMessage != DescriptionNullMessage && TitleEmptyMessage != DescriptionEmptyMessage
  {
    assert TitleNullMessage[29] == 'n' && TitleEmptyMessage[29] == 'e';
    assert DescriptionNullMessage[35] == 'n' && DescriptionEmptyMessage[35] == 'e';
    assert TitleNullMessage[0] == 'T' && TitleEmptyMessage[0] == 'T';
    assert DescriptionNullMessage[0] == 'D' && DescriptionEmptyMessage[0] == 'D';
  }

  /** `@NotNull` holds of a field. */
  predicate NotNull(v: Option<string>) {
    v.Some?
  }

  /** `@NotEmpty` holds of a field: present and of positive length. Only the
      length counts, so a field of blanks passes. */
  predicate NotEmpty(v: Option<string>) {
    v.Some? && |v.value| > 0
  }

  /** A note passes validation: both constrained fields are non-null and
      non-empty. `id`, `level` and `createdAt` carry no constraint. The
      `@NotNull` constraints add nothing to validity, since `@NotEmpty`
      already rejects null; they only add a second message. */
  predicate Valid(n: Note)
    ensures Valid(n) <==> NotEmpty(n.title) && NotEmpty(n.description)
  {
    NotNull(n.title) && NotEmpty(n.title) && NotNull(n.description) && NotEmpty(n.description)
  }

  /** The messages of the constraints one field violates: a null field fails
      both `@NotNull` and `@NotEmpty`, an empty one only `@NotEmpty`. */
  function FieldViolations(v: Option<string>, nullMessage: string, emptyMessage: string): (ms: seq<string>)
    requires nullMessage != emptyMessage
    ensures nullMessage in ms <==> !NotNull(v)
    ensures emptyMessage in ms <==> !NotEmpty(v)
    ensures forall m :: m in ms ==> m == nullMessage || m == emptyMessage
    ensures multiset(ms)[nullMessage] <= 1 && multiset(ms)[emptyMessage] <= 1
  {
    (if NotNull(v) then [] else [nullMessage]) + (if NotEmpty(v) then [] else [emptyMessage])
  }

  /** The default messages of every constraint the note violates, in the
      order title-null, title-empty, description-null, description-empty.
      The validator promises no order; `ErrorHandling.ValidationReasonAnyOrder`
      states what holds for every order. */
  function Violations(n: Note): (ms: seq<string>)
    ensures |ms| == 0 <==> Valid(n)
    ensures TitleNullMessage in ms <==> n.title.None?
    ensures TitleEmptyMessage in ms <==> !NotEmpty(n.title)
    ensures DescriptionNullMessage in ms <==> n.description.None?
    ensures DescriptionEmptyMessage in ms <==> !NotEmpty(n.description)
    ensures forall m :: m in ms ==> IsConstraintMessage(m)
    ensures |ms| <= 4
  {
    MessagesDistinct();
    FieldViolations(n.title, TitleNullMessage, TitleEmptyMessage)
      + FieldViolations(n.description, DescriptionNullMessage, DescriptionEmptyMessage)
  }

  /** A null title is reported by both of its constraints, an empty one only
      by `@NotEmpty`; likewise for the description. */
  lemma NullViolatesBoth(n: Note)
    ensures n.title.None? ==>
      multiset(Violations(n))[TitleNullMessage] == 1 && multiset(Violations(n))[TitleEmptyMessage] == 1
    ensures n.title == Some("") ==>
      multiset(Violations(n))[TitleNullMessage] == 0 && multiset(Violations(n))[TitleEmptyMessage] == 1
    ensures n.description.None? ==>
      multiset(Violations(n))[DescriptionNullMessage] == 1 && multiset(Violations(n))[DescriptionEmptyMessage] == 1
    ensures n.description == Some("") ==>
      multiset(Violations(n))[DescriptionNullMessage] == 0 && multiset(Violations(n))[DescriptionEmptyMessage] == 1
  {
    MessagesDistinct();
  }

  /** `s` is non-empty and made only of spaces, tabs and line breaks: what
      `@NotBlank` would reject. */
  predicate Blank(s: string) {
    |s| > 0 && forall i :: 0 <= i < |s| ==> s[i] in " \t\n\r"
  }

  /** A title and description of blanks pass: the constraint is "not empty",
      not "not blank". */
  lemma BlankFieldsAreValid(n: Note)
    requires n.title.Some? && n.description.Some?
    requires Blank(n.title.value) && Blank(n.description.value)
    ensures Valid(n) && Violations(n) == []
  {
  }

  /** Validity depends on title and description alone. */
  lemma ValidityIgnoresOtherFields(n: Note, id: Option<int>, level: Option<Level>, createdAt: Option<Time>)
    ensures Valid(n.(id := id, level := level, createdAt := createdAt)) <==> Valid(n)
    ensures Violations(n.(id := id, level := level, createdAt := createdAt)) == Violations(n)
  {
  }

  /** No constraint message contains a comma. */
  lemma ConstraintMessageCommaFree(m: string)
    requires IsConstraintMessage(m)
    ensures Text.CommaFree(m)
  {
  }
}
