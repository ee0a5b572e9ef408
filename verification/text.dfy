/** The string building the service relies on: rendering a count in decimal
    (Java's `long` to `String` conversion inside `count + " notes retrieved"`)
    and joining messages with a separator (`Collectors.joining(", ")`).
    Each rendering comes with the parser that undoes it. */
module Text {

  /** The digit character for `d`. */
  function DigitChar(d: nat): (c: char)
    requires d < 10
    ensures '0' <= c <= '9'
    ensures c as int - '0' as int == d
  {
    ['0', '1', '2', '3', '4', '5', '6', '7', '8', '9'][d]
  }

  /** The value of a digit character. */
  function DigitValue(c: char): (d: nat)
    requires '0' <= c <= '9'
    ensures d < 10
    ensures DigitChar(d) == c
  {
    c as int - '0' as int
  }

  predicate IsDigits(s: string) {
    forall i :: 0 <= i < |s| ==> '0' <= s[i] <= '9'
  }

  /** The decimal rendering of `n`, most significant digit first, without
      leading zeros. */
  function NatToString(n: nat): (s: string)
    ensures |s| > 0 && IsDigits(s)
    ensures |s| > 1 ==> s[0] != '0'
    decreases n
  {
    if n < 10 then [DigitChar(n)] else NatToString(n / 10) + [DigitChar(n % 10)]
  }

  /** The number a string of decimal digits denotes. */
  function ParseDigits(s: string): (n: nat)
    requires IsDigits(s)
    decreases |s|
  {
    if |s| == 0 then 0 else ParseDigits(s[..|s| - 1]) * 10 + DigitValue(s[|s| - 1])
  }

  /** Rendering a count and reading it back gives the count: the decimal text
      in a message determines the number it was built from. */
  lemma {:induction false} ParseNatToString(n: nat)
    ensures ParseDigits(NatToString(n)) == n
    decreases n
  {
    var s := NatToString(n);
    if n < 10 {
      assert s[..|s| - 1] == [];
    } else {
      ParseNatToString(n / 10);
      assert s[..|s| - 1] == NatToString(n / 10);
    }
  }

  /** The separator `Collectors.joining(", ")` puts between messages. */
  const Separator: string := ", "

  /** The elements of `ms` in order, separated by `", "`; the empty sequence
      joins to the empty string. */
  function Join(ms: seq<string>): (s: string)
    ensures |ms| == 0 ==> s == ""
    ensures |ms| > 0 ==> |s| >= |ms[0]| && s[..|ms[0]|] == ms[0]
    ensures ',' in s <==> |ms| > 1 || exists i :: 0 <= i < |ms| && ',' in ms[i]
    decreases |ms|
  {
    if |ms| == 0 then ""
    else if |ms| == 1 then ms[0]
    else ms[0] + Separator + Join(ms[1..])
  }

  /** Cuts `s` at every `", "`, `cur` holding the piece read so far. */
  function SplitFrom(s: string, cur: string): (parts: seq<string>)
    ensures |parts| > 0
    decreases |s|
  {
    if |s| == 0 then [cur]
    else if |s| >= 2 && s[0] == ',' && s[1] == ' ' then [cur] + SplitFrom(s[2..], "")
    else SplitFrom(s[1..], cur + [s[0]])
  }

  /** The pieces of `s` between the occurrences of `", "`. */
  function Split(s: string): seq<string> {
    SplitFrom(s, "")
  }

  predicate CommaFree(m: string) {
    ',' !in m
  }

  /** Reading a comma-free piece only extends the current piece. */
  lemma {:induction false} SplitFromCommaFree(m: string, rest: string, cur: string)
    requires CommaFree(m)
    ensures SplitFrom(m + rest, cur) == SplitFrom(rest, cur + m)
    decreases |m|
  {
    if |m| == 0 {
      assert m + rest == rest;
      assert cur + m == cur;
    } else {
      var s := m + rest;
      assert s[0] == m[0] && m[0] in m;
      assert s[1..] == m[1..] + rest;
      SplitFromCommaFree(m[1..], rest, cur + [m[0]]);
      assert cur + [m[0]] + m[1..] == cur + m;
    }
  }

  /** Splitting a join of comma-free messages gives the messages back, so the
      joined text determines exactly which messages went into it. The empty
      list is excluded: it joins to the same text as the single empty
      message. */
  lemma {:induction false} SplitJoin(ms: seq<string>)
    requires |ms| > 0
    requires forall i :: 0 <= i < |ms| ==> CommaFree(ms[i])
    ensures Split(Join(ms)) == ms
    decreases |ms|
  {
    if |ms| == 1 {
      SplitFromCommaFree(ms[0], "", "");
      assert ms[0] + "" == ms[0];
      assert "" + ms[0] == ms[0];
    } else {
      var tail := Join(ms[1..]);
      assert Join(ms) == ms[0] + (Separator + tail);
      SplitFromCommaFree(ms[0], Separator + tail, "");
      assert "" + ms[0] == ms[0];
      assert (Separator + tail)[2..] == tail;
      SplitJoin(ms[1..]);
      assert ms == [ms[0]] + ms[1..];
    }
  }
}
