/** Ordering and selecting lists of notes: the newest-first sort
    (`Comparator.comparing(Note::getCreatedAt).reversed()`) and the
    exact-level selection a `findByLevel` query performs. */
module Listing {
  import opened Wrappers
  import opened Notes

  /** Every note in `s` carries a creation time, so the comparator never
      meets a null. */
  predicate Stamped(s: seq<Note>) {
    forall i :: 0 <= i < |s| ==> s[i].createdAt.Some?
  }

  /** `s` is ordered by creation time, newest first. Notes with equal times
      may appear in either order. */
  predicate NewestFirst(s: seq<Note>) {
    && Stamped(s)
    && forall i, j :: 0 <= i < j < |s| ==> s[i].createdAt.value >= s[j].createdAt.value
  }

  /** A note no older than the head of a newest-first list may go in front
      of it. */
  lemma ConsNewestFirst(x: Note, s: seq<Note>)
    requires x.createdAt.Some? && NewestFirst(s)
    requires |s| > 0 ==> x.createdAt.value >= s[0].createdAt.value
    ensures NewestFirst([x] + s)
  {
    var r := [x] + s;
    forall i, j | 0 <= i < j < |r|
      ensures r[i].createdAt.value >= r[j].createdAt.value
    {
      if i == 0 {
        assert r[j] == s[j - 1];
      }
    }
  }

  /** `s` with `n` placed before the first note that is not newer than it. */
  function Insert(n: Note, s: seq<Note>): (r: seq<Note>)
    requires n.createdAt.Some? && NewestFirst(s)
    ensures NewestFirst(r)
    ensures multiset(r) == multiset(s) + multiset{n}
    ensures r[0] == n || (|s| > 0 && r[0] == s[0])
    decreases |s|
  {
    if |s| == 0 || n.createdAt.value >= s[0].createdAt.value then
      ConsNewestFirst(n, s);
      [n] + s
    else
      var rest := Insert(n, s[1..]);
      assert s == [s[0]] + s[1..];
      ConsNewestFirst(s[0], rest);
      [s[0]] + rest
  }

  /** The notes of `s` ordered newest first (a stable insertion sort, the
      same order a stable merge sort yields). */
  function SortNewestFirst(s: seq<Note>): (r: seq<Note>)
    requires Stamped(s)
    ensures NewestFirst(r)
    ensures multiset(r) == multiset(s)
    decreases |s|
  {
    if |s| == 0 then []
    else
      assert s == [s[0]] + s[1..];
      Insert(s[0], SortNewestFirst(s[1..]))
  }

  /** The notes of `s` whose level is exactly `level`, in their order in `s`.
      A note without a level never matches. */
  function OfLevel(s: seq<Note>, level: Level): (r: seq<Note>)
    ensures forall n :: n in r <==> n in s && n.level == Some(level)
    ensures forall n :: multiset(r)[n] == if n.level == Some(level) then multiset(s)[n] else 0
    ensures Stamped(s) ==> Stamped(r)
    decreases |s|
  {
    if |s| == 0 then []
    else
      assert s == [s[0]] + s[1..];
      var rest := OfLevel(s[1..], level);
      if s[0].level == Some(level) then [s[0]] + rest else rest
  }

  /** Dropping one note keeps a list newest first. */
  lemma DropKeepsNewestFirst(s: seq<Note>, j: nat)
    requires NewestFirst(s) && j < |s|
    ensures NewestFirst(s[..j] + s[j + 1..])
  {
    var r := s[..j] + s[j + 1..];
    assert forall i :: 0 <= i < |r| ==> r[i] == if i < j then s[i] else s[i + 1];
  }

  /** Taking out one element removes one occurrence of it. */
  lemma MultisetDrop<T>(s: seq<T>, j: nat)
    requires j < |s|
    ensures multiset(s[..j] + s[j + 1..]) == multiset(s) - multiset{s[j]}
  {
    assert s == s[..j] + [s[j]] + s[j + 1..];
  }

  /** Taking out a note as new as the first leaves, at every later position,
      a note of the same creation time as before. */
  lemma DropNewestTimes(a: seq<Note>, j: nat)
    requires NewestFirst(a) && j < |a| && a[j].createdAt == a[0].createdAt
    ensures var rest := a[..j] + a[j + 1..];
      forall i :: 0 < i < |a| ==> rest[i - 1].createdAt == a[i].createdAt
  {
    var rest := a[..j] + a[j + 1..];
    forall i | 0 < i < |a|
      ensures rest[i - 1].createdAt == a[i].createdAt
    {
      if i <= j {
        assert rest[i - 1] == a[i - 1];
        assert a[0].createdAt.value >= a[i - 1].createdAt.value >= a[i].createdAt.value >= a[j].createdAt.value;
      } else {
        assert rest[i - 1] == a[i];
      }
    }
  }

  /** The first notes of two newest-first arrangements of the same notes
      are equally new, and the second arrangement's first note occurs in
      the first. */
  lemma HeadsEquallyNew(a: seq<Note>, b: seq<Note>) returns (j: nat)
    requires NewestFirst(a) && NewestFirst(b) && multiset(a) == multiset(b) && |a| > 0
    ensures |b| > 0 && j < |a| && a[j] == b[0]
    ensures b[0].createdAt == a[0].createdAt
  {
    assert |a| == |multiset(a)| == |multiset(b)| == |b|;
    assert b[0] in multiset(a) && a[0] in multiset(b);
    j :| 0 <= j < |a| && a[j] == b[0];
    var j' :| 0 <= j' < |b| && b[j'] == a[0];
    assert a[0].createdAt.value >= a[j].createdAt.value;
    assert b[0].createdAt.value >= b[j'].createdAt.value;
  }

  /** `a` without its `j`-th note, where that note is as new as the first:
      still newest first, one occurrence fewer, and at every later position
      a note of the same creation time as before. */
  lemma DropNewest(a: seq<Note>, j: nat) returns (rest: seq<Note>)
    requires NewestFirst(a) && j < |a| && a[j].createdAt == a[0].createdAt
    ensures NewestFirst(rest) && |rest| == |a| - 1
    ensures multiset(rest) == multiset(a) - multiset{a[j]}
    ensures forall i :: 0 < i < |a| ==> rest[i - 1].createdAt == a[i].createdAt
  {
    rest := a[..j] + a[j + 1..];
    MultisetDrop(a, j);
    DropKeepsNewestFirst(a, j);
    DropNewestTimes(a, j);
  }

  /** `b` without its first note: still newest first, one occurrence fewer. */
  lemma DropFirst(b: seq<Note>) returns (tail: seq<Note>)
    requires NewestFirst(b) && |b| > 0
    ensures NewestFirst(tail) && |tail| == |b| - 1
    ensures multiset(tail) == multiset(b) - multiset{b[0]}
    ensures forall i :: 0 < i < |b| ==> tail[i - 1] == b[i]
  {
    tail := b[1..];
    assert b == [b[0]] + tail;
    assert Stamped(tail);
    forall i, j | 0 <= i < j < |tail|
      ensures tail[i].createdAt.value >= tail[j].createdAt.value
    {
      assert tail[i] == b[i + 1] && tail[j] == b[j + 1];
    }
  }

  /** The newest-first order is determined up to notes with equal creation
      times: two newest-first arrangements of the same notes carry the same
      creation time at every position. The comparator has no tie-break, so
      this is all the listing promises about order. */
  lemma {:induction false} NewestFirstUnique(a: seq<Note>, b: seq<Note>)
    requires NewestFirst(a) && NewestFirst(b) && multiset(a) == multiset(b)
    ensures |a| == |b|
    ensures forall i :: 0 <= i < |a| ==> a[i].createdAt == b[i].createdAt
    decreases |a|
  {
    assert |a| == |multiset(a)| == |multiset(b)| == |b|;
    if |a| > 0 {
      var j := HeadsEquallyNew(a, b);
      var rest := DropNewest(a, j);
      var tail := DropFirst(b);
      NewestFirstUnique(rest, tail);
      forall i | 0 < i < |a|
        ensures a[i].createdAt == b[i].createdAt
      {
        assert rest[i - 1].createdAt == tail[i - 1].createdAt;
      }
    }
  }
}
