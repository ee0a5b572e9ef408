/** Properties that relate several service calls, or a call to an
    independent description of its result. */
module NoteServiceProperties {
  import opened Wrappers
  import opened Notes
  import opened Http
  import opened Listing
  import opened NoteService
  import Text

  /** The number in a listing's message is the number of notes listed, and
      the fixed text appears exactly when nothing is listed. */
  lemma ListMessageCountsNotes(st: Store)
    requires WellFormed(st)
    ensures var e := GetNotes(st);
      var count := |e.notes.value|;
      && (count == 0 <==> e.message == Some(EmptyListMessage))
      && (count > 0 ==>
            var digits := e.message.value[..|e.message.value| - |RetrievedSuffix|];
            && e.message.value == digits + RetrievedSuffix
            && Text.IsDigits(digits)
            && Text.ParseDigits(digits) == count)
  {
    var e := GetNotes(st);
    var count := |e.notes.value|;
    if count > 0 {
      var digits := Text.NatToString(count);
      assert e.message.value == digits + RetrievedSuffix;
      assert e.message.value[..|e.message.value| - |RetrievedSuffix|] == digits;
      Text.ParseNatToString(count);
      assert e.message.value != EmptyListMessage by {
        assert '0' <= e.message.value[0] <= '9';
        assert EmptyListMessage[0] == 'N';
      }
    }
  }

  /** Picking the notes of one level out of any arrangement of a set of
      distinct notes gives each note of that level once. */
  lemma PickFromArrangement(values: set<Note>, all: seq<Note>, picked: seq<Note>, level: Level)
    requires multiset(all) == multiset(values)
    requires forall n :: multiset(picked)[n] == if n in values && n.level == Some(level) then 1 else 0
    ensures multiset(picked) == multiset(OfLevel(all, level))
  {
    var reference := OfLevel(all, level);
    forall n
      ensures multiset(picked)[n] == multiset(reference)[n]
    {
      assert multiset(values)[n] == if n in values then 1 else 0;
    }
  }

  /** A level query lists the same notes, each as often, as picking the
      notes of that level out of the full listing. */
  lemma FilterAgreesWithList(st: Store, level: Level)
    requires WellFormed(st)
    ensures multiset(FilterNotes(st, level).notes.value) == multiset(OfLevel(GetNotes(st).notes.value, level))
  {
    PickFromArrangement(st.notes.Values, GetNotes(st).notes.value, FilterNotes(st, level).notes.value, level);
  }

  /** The digits left after removing the level text from a level query's
      message parse back to the number of notes it lists. */
  lemma FilterMessageCountsNotes(count: nat, level: Level)
    ensures var m := FilterMessage(count, level);
      var suffix := LevelSuffix(level);
      && |m| > |suffix|
      && var digits := m[..|m| - |suffix|];
      && m == digits + suffix
      && Text.IsDigits(digits)
      && Text.ParseDigits(digits) == count
  {
    var digits := Text.NatToString(count);
    var m := FilterMessage(count, level);
    assert m[..|m| - |LevelSuffix(level)|] == digits;
    Text.ParseNatToString(count);
  }

  /** A note stamped later than every stored note heads the listing right
      after it is saved. */
  lemma {:induction false} SavedNoteListedFirst(st: Store, input: Note, now: Time)
    requires WellFormed(st) && input.id.None?
    requires forall k :: k in st.notes ==> st.notes[k].createdAt.value < now
    ensures var (e, st') := SaveNote(st, input, now);
      var listed := GetNotes(st').notes.value;
      |listed| == |st.notes| + 1 && listed[0] == e.notes.value[0]
  {
    var (e, st') := SaveNote(st, input, now);
    var saved := e.notes.value[0];
    var listed := GetNotes(st').notes.value;
    assert saved in st'.notes.Values;
    assert saved in multiset(listed);
    var i :| 0 <= i < |listed| && listed[i] == saved;
    var head := listed[0];
    assert head in multiset(st'.notes.Values);
    var k :| k in st'.notes && st'.notes[k] == head;
    assert head.createdAt.value >= now by {
      if i > 0 {
        assert listed[0].createdAt.value >= listed[i].createdAt.value;
      }
    }
    assert forall j :: j in st.notes ==> st'.notes[j].createdAt.value < now;
    assert k !in st.notes;
  }

  /** The only newest-first arrangement of two notes of different times. */
  lemma ArrangementOfTwo(listed: seq<Note>, x: Note, y: Note)
    requires NewestFirst(listed) && multiset(listed) == multiset{x, y}
    requires x.createdAt.Some? && y.createdAt.Some? && x.createdAt.value > y.createdAt.value
    ensures listed == [x, y]
  {
    assert |listed| == 2 by { assert |multiset(listed)| == 2; }
    assert listed == [listed[0], listed[1]];
    assert listed[0] in multiset(listed) && listed[1] in multiset(listed);
  }

  /** Creating a note and then a later one on an empty store lists the
      later one first. */
  lemma TwoNotesListedNewestFirst(a: Note, b: Note, t1: Time, t2: Time)
    requires a.id.None? && b.id.None? && t1 < t2
    ensures var (ea, st1) := SaveNote(EmptyStore, a, t1);
      var (eb, st2) := SaveNote(st1, b, t2);
      GetNotes(st2).notes.value == [eb.notes.value[0], ea.notes.value[0]]
  {
    var (ea, st1) := SaveNote(EmptyStore, a, t1);
    var (eb, st2) := SaveNote(st1, b, t2);
    var savedA := ea.notes.value[0];
    var savedB := eb.notes.value[0];
    assert st2.notes.Values == {savedA, savedB} by {
      assert st2.notes.Keys == {1, 2};
    }
    assert savedA != savedB by {
      assert savedA.id == Some(1) && savedB.id == Some(2);
    }
    assert multiset(st2.notes.Values) == multiset{savedB, savedA};
    ArrangementOfTwo(GetNotes(st2).notes.value, savedB, savedA);
  }

  /** A deleted note no longer appears in the listing, which shrinks by one. */
  lemma DeletedNoteNotListed(st: Store, id: int)
    requires WellFormed(st) && id in st.notes
    ensures var (_, st') := DeleteNote(st, id);
      var listed := GetNotes(st').notes.value;
      st.notes[id] !in listed && |listed| == |GetNotes(st).notes.value| - 1
  {
    var (_, st') := DeleteNote(st, id);
    var listed := GetNotes(st').notes.value;
    forall k | k in st'.notes
      ensures st'.notes[k] != st.notes[id]
    {
      assert st'.notes[k].id == Some(k);
    }
    assert st.notes[id] !in st'.notes.Values;
    assert st.notes[id] !in multiset(listed);
  }

  /** Deleting the same id twice: the second call finds nothing and changes
      nothing. */
  lemma SecondDeleteFails(st: Store, id: int)
    requires WellFormed(st)
    ensures var (_, st') := DeleteNote(st, id);
      var (r, st'') := DeleteNote(st', id);
      r == Failure(NoteNotFound(NotFoundMessage)) && st'' == st'
  {
  }

  /** Applying the same update twice leaves the store as one update does. */
  lemma UpdateIdempotent(st: Store, input: Note)
    requires WellFormed(st) && input.id.Some?
    ensures var (_, st') := UpdateNote(st, input);
      UpdateNote(st', input).1 == st'
  {
    var (_, st') := UpdateNote(st, input);
    var st'' := UpdateNote(st', input).1;
    if input.id.value in st.notes {
      assert st''.notes == st'.notes;
    }
  }

  /** Deleting a note just created restores the store's notes. */
  lemma DeleteUndoesSave(st: Store, input: Note, now: Time)
    requires WellFormed(st) && input.id.None?
    ensures var (e, st') := SaveNote(st, input, now);
      var (r, st'') := DeleteNote(st', e.notes.value[0].id.value);
      r.Success? && r.value.notes == e.notes && st''.notes == st.notes
  {
    var (e, st') := SaveNote(st, input, now);
    var id := e.notes.value[0].id.value;
    var st'' := DeleteNote(st', id).1;
    assert st''.notes == st.notes;
  }
}
