/** The JavaScript string operations the server relies on, over `string`
    (a sequence of characters): `indexOf`, `includes`, `endsWith`, `split`
    and `replace` with a string pattern, `trim` and the `\s` character
    class, and the decimal rendering of a number inside a template literal. */
module JsStrings {

  datatype Option<T> = None | Some(value: T)

  /** `pat` occurs in `s` starting at index `i`. */
  predicate OccursAt(s: string, pat: string, i: nat) {
    i + |pat| <= |s| && s[i..i + |pat|] == pat
  }

  /** `i` is the leftmost occurrence of `pat` in `s`. */
  ghost predicate IsFirstOccurrence(s: string, pat: string, i: nat) {
    OccursAt(s, pat, i) && forall j: nat :: j < i ==> !OccursAt(s, pat, j)
  }

  /** `pat` occurs nowhere in `s`. */
  ghost predicate Absent(s: string, pat: string) {
    forall j: nat :: !OccursAt(s, pat, j)
  }

  lemma OccursAtShift(s: string, pat: string)
    requires s != []
    ensures forall j: nat :: 1 <= j ==> (OccursAt(s, pat, j) <==> OccursAt(s[1..], pat, j - 1))
  {
    forall j: nat | 1 <= j
      ensures OccursAt(s, pat, j) <==> OccursAt(s[1..], pat, j - 1)
    {
      if j + |pat| <= |s| {
        assert s[j..j + |pat|] == s[1..][j - 1..j - 1 + |pat|];
      }
    }
  }

  lemma FirstOccurrenceUnique(s: string, pat: string, i: nat, k: nat)
    requires IsFirstOccurrence(s, pat, i) && IsFirstOccurrence(s, pat, k)
    ensures i == k
  {
  }

  /** `s.indexOf(pat)`, with `None` standing for -1. */
  function IndexOf(s: string, pat: string): (r: Option<nat>)
    ensures r.Some? ==> r.value + |pat| <= |s|
    decreases |s|
  {
    if |s| < |pat| then None
    else if s[..|pat|] == pat then Some(0)
    else
      match IndexOf(s[1..], pat)
      case None => None
      case Some(j) => Some(j + 1)
  }

  /** `IndexOf` finds the leftmost occurrence, and finds none only when
      there is none. */
  lemma {:induction false} IndexOfSpec(s: string, pat: string)
    ensures IndexOf(s, pat).Some? ==> IsFirstOccurrence(s, pat, IndexOf(s, pat).value)
    ensures IndexOf(s, pat).None? <==> Absent(s, pat)
    decreases |s|
  {
    if |s| >= |pat| && s[..|pat|] != pat {
      IndexOfSpec(s[1..], pat);
      OccursAtShift(s, pat);
      assert !OccursAt(s, pat, 0);
    }
  }

  /** `pat` occurs nowhere in `s` when one of its characters is missing
      from `s`. */
  lemma AbsentByMissingChar(s: string, pat: string, m: nat)
    requires m < |pat| && pat[m] !in s
    ensures Absent(s, pat)
  {
    forall j: nat | j + |pat| <= |s| ensures !OccursAt(s, pat, j) {
      assert s[j..j + |pat|][m] == s[j + m];
    }
  }

  /** An occurrence at `i` is the leftmost one when the text before it,
      extended by `m` characters, lacks the character `pat[m]`. */
  lemma FirstOccurrenceByMissingChar(s: string, pat: string, i: nat, m: nat)
    requires OccursAt(s, pat, i) && m < |pat| && pat[m] !in s[..i + m]
    ensures IsFirstOccurrence(s, pat, i)
  {
    forall j: nat | j < i ensures !OccursAt(s, pat, j) {
      assert s[..i + m][j + m] == s[j + m];
      assert s[j..j + |pat|][m] == s[j + m];
    }
  }

  /** `s.includes(pat)`. */
  predicate Includes(s: string, pat: string) {
    IndexOf(s, pat).Some?
  }

  /** `s.endsWith(suffix)`. */
  predicate EndsWith(s: string, suffix: string) {
    |suffix| <= |s| && s[|s| - |suffix|..] == suffix
  }

  /** Concatenation is associative; the solver finds this costly on its own. */
  lemma AppendAssociative<T>(x: seq<T>, y: seq<T>, z: seq<T>)
    ensures x + (y + z) == x + y + z
  {
  }

  /** `s.split(sep)` for a non-empty separator: the pieces of `s` between
      the occurrences of `sep` found scanning from the left. */
  function Split(s: string, sep: string): (parts: seq<string>)
    requires sep != []
    ensures |parts| >= 1
    decreases |s|
  {
    match IndexOf(s, sep)
    case None => [s]
    case Some(i) => [s[..i]] + Split(s[i + |sep|..], sep)
  }

  /** `Split` gives a single piece exactly when the separator does not
      occur. */
  lemma SplitSingle(s: string, sep: string)
    requires sep != []
    ensures |Split(s, sep)| == 1 <==> Absent(s, sep)
  {
    IndexOfSpec(s, sep);
  }

  /** `parts.join(sep)`, the inverse of `Split`. */
  function Join(parts: seq<string>, sep: string): string {
    if |parts| == 0 then []
    else if |parts| == 1 then parts[0]
    else parts[0] + sep + Join(parts[1..], sep)
  }

  lemma JoinCons(first: string, rest: seq<string>, sep: string)
    requires rest != []
    ensures Join([first] + rest, sep) == first + sep + Join(rest, sep)
  {
    assert ([first] + rest)[1..] == rest;
  }

  lemma Recompose(s: string, pat: string, i: nat)
    requires OccursAt(s, pat, i)
    ensures s == s[..i] + pat + s[i + |pat|..]
  {
    assert s == s[..i] + s[i..i + |pat|] + s[i + |pat|..];
  }

  /** Without the separator, `Split` gives the whole string back. */
  lemma SplitAbsent(s: string, sep: string)
    requires sep != [] && Absent(s, sep)
    ensures Split(s, sep) == [s]
  {
    IndexOfSpec(s, sep);
  }

  /** Splitting keeps every character: joining the pieces back with the
      separator gives the original string. */
  lemma {:induction false} SplitJoin(s: string, sep: string)
    requires sep != []
    ensures Join(Split(s, sep), sep) == s
    decreases |s|
  {
    match IndexOf(s, sep)
    case None =>
    case Some(i) =>
      IndexOfSpec(s, sep);
      var rest := s[i + |sep|..];
      SplitJoin(rest, sep);
      JoinCons(s[..i], Split(rest, sep), sep);
      Recompose(s, sep, i);
  }

  /** When the leftmost occurrence of `sep` is at `i`, the first piece is
      the text before it and the other pieces come from the text after it. */
  lemma SplitAtFirst(s: string, sep: string, i: nat)
    requires sep != [] && IsFirstOccurrence(s, sep, i)
    ensures Split(s, sep)[0] == s[..i]
    ensures Split(s, sep)[1..] == Split(s[i + |sep|..], sep)
  {
    var r := IndexOf(s, sep);
    IndexOfSpec(s, sep);
    assert r.Some?;
    FirstOccurrenceUnique(s, sep, i, r.value);
  }

  /** The text before the leftmost occurrence does not contain it. */
  lemma BeforeFirstOccurrence(s: string, pat: string, i: nat)
    requires pat != [] && IsFirstOccurrence(s, pat, i)
    ensures Absent(s[..i], pat)
  {
    forall j: nat ensures !OccursAt(s[..i], pat, j) {
      if j + |pat| <= i {
        assert !OccursAt(s, pat, j);
        assert s[..i][j..j + |pat|] == s[j..j + |pat|];
      }
    }
  }

  /** No piece produced by `Split` contains the separator. */
  lemma {:induction false} SplitPiecesExcludeSeparator(s: string, sep: string)
    requires sep != []
    ensures forall k :: 0 <= k < |Split(s, sep)| ==> Absent(Split(s, sep)[k], sep)
    decreases |s|
  {
    IndexOfSpec(s, sep);
    match IndexOf(s, sep)
    case None =>
    case Some(i) =>
      var rest := s[i + |sep|..];
      SplitPiecesExcludeSeparator(rest, sep);
      BeforeFirstOccurrence(s, sep, i);
      var parts := Split(s, sep);
      assert parts == [s[..i]] + Split(rest, sep);
      forall k | 0 <= k < |parts| ensures Absent(parts[k], sep) {
        if k > 0 {
          assert parts[k] == Split(rest, sep)[k - 1];
        }
      }
  }

  /** `s.replace(pat, rep)` with a string pattern: only the leftmost
      occurrence is replaced. */
  function ReplaceFirst(s: string, pat: string, rep: string): string {
    match IndexOf(s, pat)
    case None => s
    case Some(i) => s[..i] + rep + s[i + |pat|..]
  }

  /** Without an occurrence nothing changes; otherwise the leftmost
      occurrence, and only it, is replaced. */
  lemma ReplaceFirstSpec(s: string, pat: string, rep: string)
    ensures Absent(s, pat) ==> ReplaceFirst(s, pat, rep) == s
    ensures forall i: nat :: IsFirstOccurrence(s, pat, i) ==> ReplaceFirst(s, pat, rep) == s[..i] + rep + s[i + |pat|..]
  {
    IndexOfSpec(s, pat);
    forall i: nat | IsFirstOccurrence(s, pat, i)
      ensures ReplaceFirst(s, pat, rep) == s[..i] + rep + s[i + |pat|..]
    {
      FirstOccurrenceUnique(s, pat, i, IndexOf(s, pat).value);
    }
  }

  /** The characters JavaScript's `\s` class matches and `trim` removes:
      the WhiteSpace and LineTerminator code points of ECMAScript. */
  predicate IsWhitespace(c: char) {
    c == '\t' || c == '\n' || c == '\U{B}' || c == '\U{C}' || c == '\r' || c == ' '
    || c == '\U{A0}' || c == '\U{1680}' || ('\U{2000}' <= c <= '\U{200A}')
    || c == '\U{2028}' || c == '\U{2029}' || c == '\U{202F}' || c == '\U{205F}'
    || c == '\U{3000}' || c == '\U{FEFF}'
  }

  /** `s.trimStart()`: drops the leading whitespace. */
  function TrimStart(s: string): (r: string)
    ensures |r| <= |s|
  {
    if s != [] && IsWhitespace(s[0]) then TrimStart(s[1..]) else s
  }

  /** `TrimStart` cuts a suffix off `s`; what it drops is whitespace, and
      what it keeps does not start with whitespace. */
  lemma {:induction false} TrimStartSpec(s: string)
    ensures var r := TrimStart(s);
      && r == s[|s| - |r|..]
      && (forall k :: 0 <= k < |s| - |r| ==> IsWhitespace(s[k]))
      && (r != [] ==> !IsWhitespace(r[0]))
  {
    if s != [] && IsWhitespace(s[0]) {
      TrimStartSpec(s[1..]);
    }
  }

  /** `s.trimEnd()`: drops the trailing whitespace. */
  function TrimEnd(s: string): (r: string)
    ensures |r| <= |s|
  {
    if s != [] && IsWhitespace(s[|s| - 1]) then TrimEnd(s[..|s| - 1]) else s
  }

  /** `TrimEnd` cuts a prefix off `s`; what it drops is whitespace, and
      what it keeps does not end with whitespace. */
  lemma {:induction false} TrimEndSpec(s: string)
    ensures var r := TrimEnd(s);
      && r == s[..|r|]
      && (forall k :: |r| <= k < |s| ==> IsWhitespace(s[k]))
      && (r != [] ==> !IsWhitespace(r[|r| - 1]))
  {
    if s != [] && IsWhitespace(s[|s| - 1]) {
      TrimEndSpec(s[..|s| - 1]);
    }
  }

  /** `s.trim()`. */
  function Trim(s: string): string {
    TrimEnd(TrimStart(s))
  }

  /** The text of a number inside a template literal: its decimal digits. */
  function NatToString(n: nat): (r: string)
    ensures r != [] && forall k :: 0 <= k < |r| ==> '0' <= r[k] <= '9'
    ensures |r| > 1 ==> r[0] != '0'
  {
    if n < 10 then [Digit(n)] else NatToString(n / 10) + [Digit(n % 10)]
  }

  function Digit(d: nat): char
    requires d < 10
  {
    ('0' as int + d) as char
  }

  /** The number a string of decimal digits denotes. */
  function DecimalValue(s: string): nat
    requires forall k :: 0 <= k < |s| ==> '0' <= s[k] <= '9'
  {
    if s == [] then 0
    else 10 * DecimalValue(s[..|s| - 1]) + (s[|s| - 1] as int - '0' as int)
  }

  /** Rendering a count and reading it back gives the count. */
  lemma {:induction false} NatToStringRoundTrip(n: nat)
    ensures DecimalValue(NatToString(n)) == n
  {
    if n >= 10 {
      NatToStringRoundTrip(n / 10);
      var r := NatToString(n);
      assert r[..|r| - 1] == NatToString(n / 10);
    }
  }
}
