/** `parseBookInfo`: the catalog metadata the server derives from the path
    of an e-book file. A base name of the form "Author - Title.epub" gives
    author and title directly; any other base name becomes a cleaned-up
    title, with the enclosing directory (unless it is "Books") as author. */
module BookInfo {
  import opened JsStrings
  import opened NodePath

  datatype Format = Epub | Mobi

  /** The record `parseBookInfo` returns. */
  datatype Info = Info(filepath: string, filename: string, author: string, title: string, format: Format)

  /** The separator of the "Author - Title" naming convention. */
  const Separator: string := " - "

  /** The author used when neither the file name nor its directory names one. */
  const UnknownAuthor: string := "Unknown"

  /** The library's root folder name, never taken as an author. */
  const LibraryFolder: string := "Books"

  function AsciiLower(c: char): char {
    if 'A' <= c <= 'Z' then (c as int + 32) as char else c
  }

  /** `a` and `b` are equal up to the case of ASCII letters, which is how a
      regular expression with the `i` flag (and no `u` flag) compares them. */
  predicate EqualsIgnoringCase(a: string, b: string) {
    |a| == |b| && forall k :: 0 <= k < |a| ==> AsciiLower(a[k]) == AsciiLower(b[k])
  }

  /** `s` ends with ".epub" or ".mobi" in any letter case. */
  predicate HasBookExtension(s: string) {
    |s| >= 5 && (EqualsIgnoringCase(s[|s| - 5..], ".epub") || EqualsIgnoringCase(s[|s| - 5..], ".mobi"))
  }

  /** `s.replace(/\.(epub|mobi)$/i, '')`: the pattern is anchored at the
      end, so at most one extension goes. */
  function StripBookExtension(s: string): string {
    if HasBookExtension(s) then s[..|s| - 5] else s
  }

  /** `s.replace(/\./g, ' ')`. */
  function DotsToSpaces(s: string): string {
    seq(|s|, k requires 0 <= k < |s| => if s[k] == '.' then ' ' else s[k])
  }

  /** Every dot becomes a space and every other character stays. */
  lemma DotsToSpacesSpec(s: string)
    ensures |DotsToSpaces(s)| == |s| && '.' !in DotsToSpaces(s)
    ensures forall k :: 0 <= k < |s| ==> DotsToSpaces(s)[k] == if s[k] == '.' then ' ' else s[k]
  {
  }

  /** No two whitespace characters stand next to each other in `s`. */
  ghost predicate NoAdjacentWhitespace(s: string) {
    forall k :: 0 <= k < |s| - 1 ==> !(IsWhitespace(s[k]) && IsWhitespace(s[k + 1]))
  }

  /** The characters of `s` that are neither whitespace nor '.', in order:
      what title clean-up must keep. */
  ghost function Visible(s: string): string {
    if s == [] then []
    else (if s[0] == '.' || IsWhitespace(s[0]) then [] else [s[0]]) + Visible(s[1..])
  }

  lemma {:induction false} VisibleAppend(a: string, b: string)
    ensures Visible(a + b) == Visible(a) + Visible(b)
  {
    if a == [] {
      assert a + b == b;
    } else {
      assert (a + b)[0] == a[0];
      assert (a + b)[1..] == a[1..] + b;
      VisibleAppend(a[1..], b);
    }
  }

  lemma {:induction false} VisibleOfWhitespace(s: string)
    requires forall k :: 0 <= k < |s| ==> IsWhitespace(s[k])
    ensures Visible(s) == []
  {
    if s != [] {
      VisibleOfWhitespace(s[1..]);
    }
  }

  /** Trimming removes only whitespace, so it keeps every visible character. */
  lemma TrimStartKeepsVisible(s: string)
    ensures Visible(TrimStart(s)) == Visible(s)
  {
    var a := TrimStart(s);
    TrimStartSpec(s);
    var cut := s[..|s| - |a|];
    assert s == cut + a;
    VisibleAppend(cut, a);
    VisibleOfWhitespace(cut);
  }

  lemma TrimEndKeepsVisible(s: string)
    ensures Visible(TrimEnd(s)) == Visible(s)
  {
    var b := TrimEnd(s);
    TrimEndSpec(s);
    var cut := s[|b|..];
    assert s == b + cut;
    VisibleAppend(b, cut);
    VisibleOfWhitespace(cut);
  }

  /** `s.replace(/\s+/g, ' ')`: every maximal run of whitespace becomes one
      space. */
  function CollapseWhitespace(s: string): (r: string)
    ensures |r| <= |s|
    decreases |s|
  {
    if s == [] then []
    else if IsWhitespace(s[0]) then [' '] + CollapseWhitespace(TrimStart(s[1..]))
    else [s[0]] + CollapseWhitespace(s[1..])
  }

  /** After collapsing, no two whitespace characters are adjacent, the only
      whitespace left is ' ', and the result starts with whitespace exactly
      when the input does. */
  lemma {:induction false} CollapseSpec(s: string)
    ensures var r := CollapseWhitespace(s);
      && NoAdjacentWhitespace(r)
      && (forall k :: 0 <= k < |r| && IsWhitespace(r[k]) ==> r[k] == ' ')
      && (r == [] <==> s == [])
      && (r != [] ==> (IsWhitespace(r[0]) <==> IsWhitespace(s[0])))
    decreases |s|
  {
    if s != [] {
      var r := CollapseWhitespace(s);
      if IsWhitespace(s[0]) {
        var t := TrimStart(s[1..]);
        TrimStartSpec(s[1..]);
        CollapseSpec(t);
        assert r == [' '] + CollapseWhitespace(t);
      } else {
        CollapseSpec(s[1..]);
        assert r == [s[0]] + CollapseWhitespace(s[1..]);
      }
    }
  }

  /** Collapsing whitespace keeps every visible character, in order, and
      brings in no dot. */
  lemma {:induction false} CollapseKeepsVisible(s: string)
    ensures Visible(CollapseWhitespace(s)) == Visible(s)
    ensures '.' !in s ==> '.' !in CollapseWhitespace(s)
    decreases |s|
  {
    if s != [] {
      var r := CollapseWhitespace(s);
      var tail := s[1..];
      assert s == [s[0]] + tail;
      VisibleAppend([s[0]], tail);
      if IsWhitespace(s[0]) {
        var rest := TrimStart(tail);
        CollapseKeepsVisible(rest);
        TrimStartKeepsVisible(tail);
        assert r == [' '] + CollapseWhitespace(rest);
        VisibleAppend([' '], CollapseWhitespace(rest));
        assert '.' !in s ==> '.' !in rest by {
          TrimStartSpec(tail);
          assert rest == tail[|tail| - |rest|..];
        }
      } else {
        CollapseKeepsVisible(tail);
        assert r == [s[0]] + CollapseWhitespace(tail);
        VisibleAppend([s[0]], CollapseWhitespace(tail));
      }
    }
  }

  /** The title `parseBookInfo` builds from a base name without separator:
      extension stripped, dots turned into spaces, whitespace runs collapsed
      and the ends trimmed. */
  function CleanTitle(filename: string): string {
    Trim(CollapseWhitespace(DotsToSpaces(StripBookExtension(filename))))
  }

  /** The clean title is the words of the name, extension removed, joined
      by single spaces; so it has no dot, no two whitespace characters in a
      row and no whitespace at either end, and keeps every other character
      of the name in its order. */
  lemma CleanTitleSpec(filename: string)
    ensures var r := CleanTitle(filename);
      && r == Join(Words(StripBookExtension(filename)), " ")
      && '.' !in r
      && NoAdjacentWhitespace(r)
      && (r != [] ==> !IsWhitespace(r[0]) && !IsWhitespace(r[|r| - 1]))
      && Visible(r) == Visible(StripBookExtension(filename))
  {
    CleanTitleWords(filename);
    CleanTitleShape(filename);
  }

  lemma CleanTitleShape(filename: string)
    ensures var r := CleanTitle(filename);
      && '.' !in r
      && NoAdjacentWhitespace(r)
      && (r != [] ==> !IsWhitespace(r[0]) && !IsWhitespace(r[|r| - 1]))
      && Visible(r) == Visible(StripBookExtension(filename))
  {
    var stem := StripBookExtension(filename);
    var spaced := DotsToSpaces(stem);
    var collapsed := CollapseWhitespace(spaced);
    DotsToSpacesSpec(stem);
    DotsKeepVisible(stem);
    CollapseSpec(spaced);
    CollapseKeepsVisible(spaced);
    TrimKeepsShape(collapsed);
  }

  /** `trim` cuts a slice out of `s`, and neither end of it is whitespace. */
  lemma TrimIsSlice(s: string)
    ensures var a := |s| - |TrimStart(s)|;
      && a + |Trim(s)| <= |s|
      && Trim(s) == s[a..a + |Trim(s)|]
      && (Trim(s) != [] ==> !IsWhitespace(Trim(s)[0]) && !IsWhitespace(Trim(s)[|Trim(s)| - 1]))
  {
    TrimStartSpec(s);
    TrimEndSpec(TrimStart(s));
  }

  /** Whatever holds of adjacent characters or of every character still holds
      after `trim`, and the visible characters stay. */
  lemma TrimKeepsShape(s: string)
    ensures NoAdjacentWhitespace(s) ==> NoAdjacentWhitespace(Trim(s))
    ensures '.' !in s ==> '.' !in Trim(s)
    ensures Visible(Trim(s)) == Visible(s)
    ensures Trim(s) != [] ==> !IsWhitespace(Trim(s)[0]) && !IsWhitespace(Trim(s)[|Trim(s)| - 1])
  {
    TrimIsSlice(s);
    TrimStartKeepsVisible(s);
    TrimEndKeepsVisible(TrimStart(s));
  }

  /** Turning dots into spaces keeps every visible character. */
  lemma {:induction false} DotsKeepVisible(s: string)
    ensures Visible(DotsToSpaces(s)) == Visible(s)
  {
    if s != [] {
      DotsKeepVisible(s[1..]);
      assert DotsToSpaces(s)[1..] == DotsToSpaces(s[1..]);
    }
  }

  /** A character that separates the words of a title: '.' or whitespace. */
  predicate IsGap(c: char) {
    c == '.' || IsWhitespace(c)
  }

  /** The length of the word `s` starts with. */
  function WordLength(s: string): (n: nat)
    ensures n <= |s|
  {
    if s == [] || IsGap(s[0]) then 0 else 1 + WordLength(s[1..])
  }

  /** The words of `s`: its maximal runs of characters other than '.' and
      whitespace, in order. */
  function Words(s: string): seq<string>
    decreases |s|
  {
    if s == [] then []
    else if IsGap(s[0]) then Words(s[1..])
    else
      var n := WordLength(s);
      [s[..n]] + Words(s[n..])
  }

  /** The word at the start of `s` holds no gap and is followed by a gap
      or by the end of `s`. */
  lemma {:induction false} WordLengthSpec(s: string)
    ensures forall k :: 0 <= k < WordLength(s) ==> !IsGap(s[k])
    ensures WordLength(s) < |s| ==> IsGap(s[WordLength(s)])
  {
    if s != [] && !IsGap(s[0]) {
      WordLengthSpec(s[1..]);
    }
  }

  /** Every word is non-empty and holds no gap. */
  lemma {:induction false} WordsSpec(s: string)
    ensures forall i :: 0 <= i < |Words(s)| ==>
      Words(s)[i] != [] && forall k :: 0 <= k < |Words(s)[i]| ==> !IsGap(Words(s)[i][k])
    decreases |s|
  {
    if s != [] {
      if IsGap(s[0]) {
        WordsSpec(s[1..]);
      } else {
        var n := WordLength(s);
        WordLengthSpec(s);
        WordsSpec(s[n..]);
      }
    }
  }

  /** Gaps in front of a string add no word. */
  lemma {:induction false} WordsSkipGaps(g: string, s: string)
    requires forall k :: 0 <= k < |g| ==> IsGap(g[k])
    ensures Words(g + s) == Words(s)
  {
    if g != [] {
      assert (g + s)[1..] == g[1..] + s;
      WordsSkipGaps(g[1..], s);
    } else {
      assert g + s == s;
    }
  }

  /** Dots and spaces separate the same words. */
  lemma {:induction false} WordsOfDots(s: string)
    ensures Words(DotsToSpaces(s)) == Words(s)
    decreases |s|
  {
    var d := DotsToSpaces(s);
    DotsToSpacesSpec(s);
    if s != [] {
      assert forall k :: 0 <= k < |s| ==> (IsGap(d[k]) <==> IsGap(s[k]));
      if IsGap(s[0]) {
        DotsToSpacesSpec(s[1..]);
        assert d[1..] == DotsToSpaces(s[1..]);
        WordsOfDots(s[1..]);
      } else {
        var n := WordLength(s);
        WordLengthSpec(s);
        WordLengthSpec(d);
        assert WordLength(d) == n;
        assert d[..n] == s[..n];
        DotsToSpacesSpec(s[n..]);
        assert d[n..] == DotsToSpaces(s[n..]);
        WordsOfDots(s[n..]);
      }
    }
  }

  /** Characters other than whitespace pass through collapsing unchanged. */
  lemma {:induction false} CollapseKeepsWord(w: string, r: string)
    requires forall k :: 0 <= k < |w| ==> !IsWhitespace(w[k])
    ensures CollapseWhitespace(w + r) == w + CollapseWhitespace(r)
  {
    if w == [] {
      assert w + r == r;
    } else {
      assert (w + r)[1..] == w[1..] + r;
      CollapseKeepsWord(w[1..], r);
    }
  }

  /** `trimStart` passes over leading whitespace whatever follows it. */
  lemma {:induction false} TrimStartSkipsWhitespace(g: string, s: string)
    requires forall k :: 0 <= k < |g| ==> IsWhitespace(g[k])
    ensures TrimStart(g + s) == TrimStart(s)
  {
    if g != [] {
      assert (g + s)[1..] == g[1..] + s;
      TrimStartSkipsWhitespace(g[1..], s);
    } else {
      assert g + s == s;
    }
  }

  /** `trimStart` stops inside `x` when `x` ends with a non-whitespace
      character. */
  lemma {:induction false} TrimStartWithin(x: string, y: string)
    requires x != [] && !IsWhitespace(x[|x| - 1])
    ensures TrimStart(x + y) == TrimStart(x) + y
  {
    if IsWhitespace(x[0]) {
      assert (x + y)[1..] == x[1..] + y;
      TrimStartWithin(x[1..], y);
    }
  }

  /** `trimEnd` stops inside `y` when `y` starts with a non-whitespace
      character. */
  lemma {:induction false} TrimEndWithin(x: string, y: string)
    requires y != [] && !IsWhitespace(y[0])
    ensures TrimEnd(x + y) == x + TrimEnd(y)
    decreases |y|
  {
    if IsWhitespace(y[|y| - 1]) {
      assert (x + y)[..|x + y| - 1] == x + y[..|y| - 1];
      TrimEndWithin(x, y[..|y| - 1]);
    }
  }

  /** Every maximal run of whitespace becomes exactly one space: between
      `a` and `b`, which do not let the run reach further, a run `w`
      leaves a single ' '. */
  lemma CollapseRun(a: string, w: string, b: string)
    requires a == [] || !IsWhitespace(a[|a| - 1])
    requires w != [] && forall k :: 0 <= k < |w| ==> IsWhitespace(w[k])
    requires b == [] || !IsWhitespace(b[0])
    ensures CollapseWhitespace(a + w + b) == CollapseWhitespace(a) + [' '] + CollapseWhitespace(b)
  {
    CollapseRunBefore(a, w + b, w, b);
    AppendAssociative(a, w, b);
    AppendAssociative(CollapseWhitespace(a), [' '], CollapseWhitespace(b));
  }

  /** `CollapseRun` with the run and what follows it as one string `y`. */
  lemma {:induction false} CollapseRunBefore(a: string, y: string, w: string, b: string)
    requires a == [] || !IsWhitespace(a[|a| - 1])
    requires w != [] && forall k :: 0 <= k < |w| ==> IsWhitespace(w[k])
    requires b == [] || !IsWhitespace(b[0])
    requires y == w + b
    ensures CollapseWhitespace(a + y) == CollapseWhitespace(a) + ([' '] + CollapseWhitespace(b))
    decreases |a|
  {
    if a == [] {
      assert a + y == y;
      CollapseOfRun(w, b);
    } else if IsWhitespace(a[0]) {
      var a' := TrimStart(a[1..]);
      TrimStartSpec(a[1..]);
      CollapseRunBefore(a', y, w, b);
      CollapseLeadingSpace(a, y);
      AppendAssociative([' '], CollapseWhitespace(a'), [' '] + CollapseWhitespace(b));
    } else {
      CollapseRunBefore(a[1..], y, w, b);
      CollapseLeadingChar(a, y);
      AppendAssociative([a[0]], CollapseWhitespace(a[1..]), [' '] + CollapseWhitespace(b));
    }
  }

  /** A run of whitespace in front of `b` collapses to one space. */
  lemma CollapseOfRun(w: string, b: string)
    requires w != [] && forall k :: 0 <= k < |w| ==> IsWhitespace(w[k])
    requires b == [] || !IsWhitespace(b[0])
    ensures CollapseWhitespace(w + b) == [' '] + CollapseWhitespace(b)
  {
    assert (w + b)[0] == w[0];
    assert (w + b)[1..] == w[1..] + b;
    TrimStartSkipsWhitespace(w[1..], b);
  }

  /** One collapsing step on a string that starts with whitespace and holds
      a non-whitespace character later on. */
  lemma CollapseLeadingSpace(a: string, y: string)
    requires a != [] && IsWhitespace(a[0]) && !IsWhitespace(a[|a| - 1])
    ensures CollapseWhitespace(a) == [' '] + CollapseWhitespace(TrimStart(a[1..]))
    ensures CollapseWhitespace(a + y) == [' '] + CollapseWhitespace(TrimStart(a[1..]) + y)
  {
    assert (a + y)[0] == a[0];
    assert (a + y)[1..] == a[1..] + y;
    TrimStartWithin(a[1..], y);
  }

  /** One collapsing step on a string that starts with a non-whitespace
      character. */
  lemma CollapseLeadingChar(a: string, y: string)
    requires a != [] && !IsWhitespace(a[0])
    ensures CollapseWhitespace(a) == [a[0]] + CollapseWhitespace(a[1..])
    ensures CollapseWhitespace(a + y) == [a[0]] + CollapseWhitespace(a[1..] + y)
  {
    assert (a + y)[0] == a[0];
    assert (a + y)[1..] == a[1..] + y;
  }

  lemma NoDotSuffix(t: string, u: string)
    requires forall k :: 0 <= k < |t| ==> t[k] != '.'
    requires |u| <= |t| && u == t[|t| - |u|..]
    ensures forall k :: 0 <= k < |u| ==> u[k] != '.'
  {
    assert forall k :: 0 <= k < |u| ==> u[k] == t[|t| - |u| + k];
  }

  /** A gap at the front of `r` collapses to one space and starts no word. */
  lemma CollapseGapStep(r: string)
    requires r != [] && IsWhitespace(r[0])
    ensures var r' := TrimStart(r[1..]);
      && CollapseWhitespace(r) == [' '] + CollapseWhitespace(r')
      && Words(r) == Words(r')
      && r' == r[|r| - |r'|..]
      && (r' != [] ==> !IsWhitespace(r'[0]))
  {
    var t := r[1..];
    var r' := TrimStart(t);
    TrimStartSpec(t);
    var cut := t[..|t| - |r'|];
    assert t == cut + r';
    WordsSkipGaps(cut, r');
  }

  /** Without dots, and starting with no whitespace: collapsing and
      trimming the end joins the words with single spaces. */
  lemma {:induction false} CollapsedWords(u: string)
    requires forall k :: 0 <= k < |u| ==> u[k] != '.'
    requires u == [] || !IsWhitespace(u[0])
    ensures TrimEnd(CollapseWhitespace(u)) == Join(Words(u), [' '])
    decreases |u|, 1
  {
    if u != [] {
      var n := WordLength(u);
      WordLengthSpec(u);
      var w, r := u[..n], u[n..];
      assert u == w + r;
      assert Words(u) == [w] + Words(r);
      CollapseKeepsWord(w, r);
      CollapsedWordsAfter(u, w, r);
    }
  }

  /** The step of `CollapsedWords` after the first word `w`. */
  lemma {:induction false} CollapsedWordsAfter(u: string, w: string, r: string)
    requires forall k :: 0 <= k < |u| ==> u[k] != '.'
    requires u == w + r && w != [] && !IsWhitespace(w[|w| - 1])
    requires r == [] || IsWhitespace(r[0])
    requires Words(u) == [w] + Words(r)
    requires CollapseWhitespace(u) == w + CollapseWhitespace(r)
    ensures TrimEnd(CollapseWhitespace(u)) == Join(Words(u), [' '])
    decreases |u|, 0
  {
    if r == [] {
      WordAlone(w, []);
    } else {
      var r' := TrimStart(r[1..]);
      CollapseGapStep(r);
      if r' == [] {
        WordAlone(w, [' ']);
      } else {
        assert r == u[|u| - |r|..];
        NoDotSuffix(u, r);
        NoDotSuffix(r, r');
        CollapsedWords(r');
        CollapseSpec(r');
        assert Words(r') != [];
        WordThenWords(w, CollapseWhitespace(r'), Words(r'));
      }
    }
  }

  /** A last word, followed by at most whitespace. */
  lemma WordAlone(w: string, g: string)
    requires w != [] && !IsWhitespace(w[|w| - 1])
    requires forall k :: 0 <= k < |g| ==> IsWhitespace(g[k])
    ensures TrimEnd(w + g) == Join([w], [' '])
  {
    TrimEndSpec(w + g);
    TrimEndSpec(w);
    assert TrimEnd(w) == w;
    assert w + g == w + g[..0] + g;
    TrimEndDropsWhitespace(w, g);
  }

  lemma {:induction false} TrimEndDropsWhitespace(x: string, g: string)
    requires forall k :: 0 <= k < |g| ==> IsWhitespace(g[k])
    ensures TrimEnd(x + g) == TrimEnd(x)
    decreases |g|
  {
    if g == [] {
      assert x + g == x;
    } else {
      assert (x + g)[..|x + g| - 1] == x + g[..|g| - 1];
      TrimEndDropsWhitespace(x, g[..|g| - 1]);
    }
  }

  /** A word, one space, and collapsed text that starts with a word. */
  lemma WordThenWords(w: string, c: string, ws: seq<string>)
    requires c != [] && !IsWhitespace(c[0])
    requires ws != [] && TrimEnd(c) == Join(ws, [' '])
    ensures TrimEnd(w + ([' '] + c)) == Join([w] + ws, [' '])
  {
    AppendAssociative(w, [' '], c);
    TrimEndWithin(w + [' '], c);
    JoinCons(w, ws, [' ']);
  }

  /** Collapsed text that does not start with whitespace has nothing for
      `trimStart` to remove. */
  lemma TrimStartOfCollapsed(u: string)
    requires u == [] || !IsWhitespace(u[0])
    ensures TrimStart(CollapseWhitespace(u)) == CollapseWhitespace(u)
  {
    CollapseSpec(u);
  }

  /** Without dots, collapsing and trimming joins the words with single
      spaces. */
  lemma TrimmedWords(t: string)
    requires forall k :: 0 <= k < |t| ==> t[k] != '.'
    ensures Trim(CollapseWhitespace(t)) == Join(Words(t), [' '])
  {
    if t != [] && IsWhitespace(t[0]) {
      var u := TrimStart(t[1..]);
      CollapseGapStep(t);
      NoDotSuffix(t, u);
      CollapsedWords(u);
      TrimStartOfCollapsed(u);
      assert ([' '] + CollapseWhitespace(u))[1..] == CollapseWhitespace(u);
    } else {
      CollapsedWords(t);
      TrimStartOfCollapsed(t);
    }
  }

  /** The clean title is the words of the name, extension removed, joined
      by single spaces. */
  lemma CleanTitleWords(filename: string)
    ensures CleanTitle(filename) == Join(Words(StripBookExtension(filename)), " ")
  {
    var stem := StripBookExtension(filename);
    DotsToSpacesSpec(stem);
    TrimmedWords(DotsToSpaces(stem));
    WordsOfDots(stem);
    assert [' '] == " ";
  }

  /** `parseBookInfo(filepath)`. */
  function ParseBookInfo(filepath: string): (r: Info)
    ensures r.filepath == filepath && r.filename == Basename(filepath)
    ensures r.format == Mobi <==> EndsWith(filepath, ".mobi")
  {
    var filename := Basename(filepath);
    var dirName := Basename(Dirname(filepath));
    var format := if EndsWith(filepath, ".mobi") then Mobi else Epub;
    var parts := Split(filename, Separator);
    if |parts| > 1 then
      Info(filepath, filename, parts[0], StripBookExtension(parts[1]), format)
    else
      var cleanTitle := CleanTitle(filename);
      if dirName != "" && dirName != LibraryFolder && !Includes(dirName, "/") then
        Info(filepath, filename, dirName, cleanTitle, format)
      else
        Info(filepath, filename, UnknownAuthor, cleanTitle, format)
  }

  /** Appending one ".epub" or ".mobi", in any letter case, and stripping
      it again gives the stem back; a second extension under it stays. */
  lemma StripBookExtensionAppended(stem: string, ext: string)
    requires EqualsIgnoringCase(ext, ".epub") || EqualsIgnoringCase(ext, ".mobi")
    ensures StripBookExtension(stem + ext) == stem
  {
    assert (stem + ext)[|stem + ext| - 5..] == ext;
    assert (stem + ext)[..|stem + ext| - 5] == stem;
  }

  /** A file name with the separator: the author is the text before its
      leftmost occurrence. */
  lemma SeparatorAuthor(filepath: string, i: nat)
    requires IsFirstOccurrence(Basename(filepath), Separator, i)
    ensures ParseBookInfo(filepath).author == Basename(filepath)[..i]
  {
    SplitAtFirst(Basename(filepath), Separator, i);
  }

  /** A file name with the separator twice or more: the title is only the
      second piece, with one book extension stripped. */
  lemma SeparatorTitleBetween(filepath: string, i: nat, j: nat)
    requires IsFirstOccurrence(Basename(filepath), Separator, i)
    requires IsFirstOccurrence(Basename(filepath)[i + |Separator|..], Separator, j)
    ensures ParseBookInfo(filepath).title
         == StripBookExtension(Basename(filepath)[i + |Separator|..][..j])
  {
    var f := Basename(filepath);
    SplitAtFirst(f, Separator, i);
    SplitAtFirst(f[i + |Separator|..], Separator, j);
  }

  /** A file name with the separator exactly once: the title is everything
      after it, with one book extension stripped. */
  lemma SeparatorTitleToEnd(filepath: string, i: nat)
    requires IsFirstOccurrence(Basename(filepath), Separator, i)
    requires Absent(Basename(filepath)[i + |Separator|..], Separator)
    ensures ParseBookInfo(filepath).title
         == StripBookExtension(Basename(filepath)[i + |Separator|..])
  {
    var f := Basename(filepath);
    SplitAtFirst(f, Separator, i);
    SplitAbsent(f[i + |Separator|..], Separator);
  }

  /** A base name never contains '/', so the `includes('/')` test on the
      directory's base name never rejects it. */
  lemma SlashGuardNeverFires(p: string)
    ensures !Includes(Basename(p), "/")
  {
    var d := Basename(p);
    BasenameSpec(p);
    IndexOfSpec(d, "/");
    forall j: nat ensures !OccursAt(d, "/", j) {
      if j < |d| {
        assert d[j] != '/';
        assert d[j..j + 1] == [d[j]];
      }
    }
  }

  /** A file name without the separator: the title is the words of the
      name (extension removed) joined by single spaces, with no dot, no two
      whitespace characters in a row, no whitespace at either end, and every
      other character of the name in its order. */
  lemma NoSeparatorTitle(filepath: string)
    requires Absent(Basename(filepath), Separator)
    ensures var t := ParseBookInfo(filepath).title;
      && t == Join(Words(StripBookExtension(Basename(filepath))), " ")
      && '.' !in t
      && NoAdjacentWhitespace(t)
      && (t != [] ==> !IsWhitespace(t[0]) && !IsWhitespace(t[|t| - 1]))
      && Visible(t) == Visible(StripBookExtension(Basename(filepath)))
  {
    NoSeparatorAuthor(filepath);
    CleanTitleSpec(Basename(filepath));
  }

  /** A file name without the separator: the author is the enclosing
      directory's name unless that is empty or "Books", and "Unknown"
      otherwise; the title is the cleaned-up name. */
  lemma NoSeparatorAuthor(filepath: string)
    requires Absent(Basename(filepath), Separator)
    ensures var d := Basename(Dirname(filepath));
      ParseBookInfo(filepath).author
        == if d != "" && d != LibraryFolder then d else UnknownAuthor
    ensures ParseBookInfo(filepath).title == CleanTitle(Basename(filepath))
  {
    SplitSingle(Basename(filepath), Separator);
    SlashGuardNeverFires(Dirname(filepath));
  }

  /** The match on ".mobi" is case-sensitive: an upper-case extension is
      reported as epub. */
  lemma UpperCaseMobiIsEpub()
    ensures ParseBookInfo("/mnt/nas/media/Books/x.MOBI").format == Epub
  {
  }

  /** A string whose only whitespace is single spaces, never two in a
      row, is left as it is by collapsing. */
  lemma {:induction false} CollapseLeavesNormalText(s: string)
    requires NoAdjacentWhitespace(s)
    requires forall k :: 0 <= k < |s| && IsWhitespace(s[k]) ==> s[k] == ' '
    ensures CollapseWhitespace(s) == s
    decreases |s|
  {
    if s != [] {
      CollapseLeavesNormalText(s[1..]);
      if IsWhitespace(s[0]) {
        assert TrimStart(s[1..]) == s[1..] by {
          if |s| > 1 {
            assert !IsWhitespace(s[1]);
          }
        }
      }
      assert s == [s[0]] + s[1..];
    }
  }

  /** Collapsing whitespace is idempotent. */
  lemma CollapseIdempotent(s: string)
    ensures CollapseWhitespace(CollapseWhitespace(s)) == CollapseWhitespace(s)
  {
    CollapseSpec(s);
    CollapseLeavesNormalText(CollapseWhitespace(s));
  }

  /** The name "<author> - <title><ext>" puts its leftmost separator
      right after the author exactly when no separator starts inside the
      author, that is, when "<author> -" holds none; the title and an
      extension without spaces then hold none either. */
  lemma ConventionalName(author: string, title: string, ext: string)
    requires Absent(author + " -", Separator) && Absent(title, Separator)
    requires ' ' !in ext
    ensures IsFirstOccurrence(author + Separator + title + ext, Separator, |author|)
    ensures Absent(title + ext, Separator)
    ensures (author + Separator + title + ext)[|author| + |Separator|..] == title + ext
    ensures (author + Separator + title + ext)[..|author|] == author
  {
    var name := author + Separator + title + ext;
    var n := |author|;
    assert name[n..n + 3] == Separator;
    var head := author + " -";
    assert name[..n + 2] == head;
    forall j: nat | j < n ensures !OccursAt(name, Separator, j) {
      assert name[j..j + 3] == head[j..j + 3];
      assert !OccursAt(head, Separator, j);
    }
    var rest := title + ext;
    forall j: nat ensures !OccursAt(rest, Separator, j) {
      if j + 3 <= |title| {
        assert rest[j..j + 3] == title[j..j + 3];
        assert !OccursAt(title, Separator, j);
      } else if j + 3 <= |rest| {
        assert rest[j + 2] == ext[j + 2 - |title|];
        assert rest[j..j + 3][2] == rest[j + 2];
      }
    }
    assert name[n + |Separator|..] == rest;
    assert name[..n] == author;
  }

  lemma BookExtensionChars(ext: string)
    requires ext == ".epub" || ext == ".mobi"
    ensures ' ' !in ext && '/' !in ext
    ensures EqualsIgnoringCase(ext, ".epub") || EqualsIgnoringCase(ext, ".mobi")
  {
  }

  /** A file named by the convention, in any directory, reads back as the
      author and title it was named from, in the format of its extension. */
  lemma ConventionRoundTrip(dir: string, author: string, title: string, ext: string, p: string)
    requires '/' !in author && '/' !in title
    requires Absent(author + " -", Separator) && Absent(title, Separator)
    requires ext == ".epub" || ext == ".mobi"
    requires p == dir + "/" + author + Separator + title + ext
    ensures ParseBookInfo(p)
         == Info(p, author + Separator + title + ext, author, title, if ext == ".mobi" then Mobi else Epub)
  {
    var name := author + Separator + title + ext;
    BookExtensionChars(ext);
    assert p == dir + "/" + name;
    assert '/' !in name;
    JoinedPath(dir, name);
    ConventionAuthor(dir, author, title, ext, p);
    ConventionTitle(dir, author, title, ext, p);
    ConventionFormat(dir, author, title, ext, p);
  }

  lemma ConventionAuthor(dir: string, author: string, title: string, ext: string, p: string)
    requires '/' !in author && '/' !in title
    requires Absent(author + " -", Separator) && Absent(title, Separator)
    requires ext == ".epub" || ext == ".mobi"
    requires p == dir + "/" + author + Separator + title + ext
    ensures ParseBookInfo(p).author == author
  {
    var name := author + Separator + title + ext;
    BookExtensionChars(ext);
    ConventionalName(author, title, ext);
    assert p == dir + "/" + name;
    JoinedPath(dir, name);
    SeparatorAuthor(p, |author|);
  }

  lemma ConventionTitle(dir: string, author: string, title: string, ext: string, p: string)
    requires '/' !in author && '/' !in title
    requires Absent(author + " -", Separator) && Absent(title, Separator)
    requires ext == ".epub" || ext == ".mobi"
    requires p == dir + "/" + author + Separator + title + ext
    ensures ParseBookInfo(p).title == title
  {
    var name := author + Separator + title + ext;
    BookExtensionChars(ext);
    ConventionalName(author, title, ext);
    assert p == dir + "/" + name;
    JoinedPath(dir, name);
    SeparatorTitleToEnd(p, |author|);
    StripBookExtensionAppended(title, ext);
  }

  lemma ConventionFormat(dir: string, author: string, title: string, ext: string, p: string)
    requires ext == ".epub" || ext == ".mobi"
    requires p == dir + "/" + author + Separator + title + ext
    ensures ParseBookInfo(p).format == if ext == ".mobi" then Mobi else Epub
  {
    assert p[|p| - 5..] == ext;
  }

  /** A name without the separator inside a folder other than "Books": the
      folder is the author and the title is the cleaned-up name. */
  lemma FolderAuthor(dir: string, folder: string, name: string, p: string)
    requires folder != [] && '/' !in folder && folder != LibraryFolder
    requires name != [] && '/' !in name && Absent(name, Separator)
    requires p == dir + "/" + folder + "/" + name
    ensures ParseBookInfo(p).author == folder && ParseBookInfo(p).title == CleanTitle(name)
  {
    var d := dir + "/" + folder;
    assert p == d + "/" + name;
    JoinedPath(d, name);
    JoinedPath(dir, folder);
    NoSeparatorAuthor(p);
  }

  /** A name without the separator directly in the "Books" folder: the
      author is "Unknown". */
  lemma LibraryRootAuthor(dir: string, name: string, p: string)
    requires name != [] && '/' !in name && Absent(name, Separator)
    requires p == dir + "/" + LibraryFolder + "/" + name
    ensures ParseBookInfo(p).author == UnknownAuthor && ParseBookInfo(p).title == CleanTitle(name)
  {
    var d := dir + "/" + LibraryFolder;
    assert p == d + "/" + name;
    JoinedPath(d, name);
    JoinedPath(dir, LibraryFolder);
    NoSeparatorAuthor(p);
  }

  /** A name without the separator at the file-system root: the directory
      has an empty base name, and the author is "Unknown". */
  lemma TopLevelAuthor(name: string, p: string)
    requires name != [] && '/' !in name && Absent(name, Separator)
    requires p == "/" + name
    ensures ParseBookInfo(p).author == UnknownAuthor && ParseBookInfo(p).title == CleanTitle(name)
  {
    TopLevelDirectory(name, p);
    NoSeparatorAuthor(p);
  }

  lemma ThreePieceName(name: string)
    requires name == "A - B - C.epub"
    ensures name != [] && '/' !in name
    ensures IsFirstOccurrence(name, Separator, 1) && name[..1] == "A"
    ensures IsFirstOccurrence(name[4..], Separator, 1) && name[4..][..1] == "B"
  {
    assert name[1] == ' ' && name[2] == '-' && name[3] == ' ';
    assert name[..2] == "A ";
    FirstOccurrenceByMissingChar(name, Separator, 1, 1);
    var rest := name[4..];
    assert rest == "B - C.epub";
    assert rest[1] == ' ' && rest[2] == '-' && rest[3] == ' ';
    assert rest[..2] == "B ";
    FirstOccurrenceByMissingChar(rest, Separator, 1, 1);
  }

  /** Three pieces: only the second becomes the title. */
  lemma ExampleWithTwoSeparators(dir: string, name: string, p: string)
    requires dir == "/books" && name == "A - B - C.epub" && p == dir + "/" + name
    ensures var r := ParseBookInfo(p);
      r.author == "A" && r.title == "B"
  {
    ThreePieceName(name);
    JoinedPath(dir, name);
    SeparatorAuthor(p, 1);
    SeparatorTitleBetween(p, 1, 1);
  }

  lemma DottedStem(name: string)
    requires name == "a.tale.epub"
    ensures StripBookExtension(name) == "a.tale"
  {
    assert name == "a.tale" + ".epub";
    StripBookExtensionAppended("a.tale", ".epub");
  }

  lemma DottedSpaced(stem: string)
    requires stem == "a.tale"
    ensures DotsToSpaces(stem) == "a tale"
  {
  }

  lemma SpacedIsNormal(t: string)
    requires t == "a tale"
    ensures CollapseWhitespace(t) == t && Trim(t) == t
  {
    assert !IsWhitespace(t[0]) && IsWhitespace(t[1]) && !IsWhitespace(t[2]);
    CollapseLeavesNormalText(t);
    assert TrimStart(t) == t;
    assert TrimEnd(t) == t;
  }

  lemma DottedNameChars(name: string)
    requires name == "a.tale.epub"
    ensures name != [] && '/' !in name && Absent(name, Separator)
  {
    assert forall k :: 0 <= k < |name| ==> name[k] != '-' && name[k] != '/';
    AbsentByMissingChar(name, Separator, 1);
  }

  lemma DottedName(name: string)
    requires name == "a.tale.epub"
    ensures CleanTitle(name) == "a tale"
  {
    DottedStem(name);
    DottedSpaced("a.tale");
    SpacedIsNormal("a tale");
  }

  /** "a.tale.epub" in a folder "misc": the folder is the author and the
      dot becomes a space. */
  lemma ExampleWithoutSeparator(p: string)
    requires p == "/Books" + "/" + "misc" + "/" + "a.tale.epub"
    ensures ParseBookInfo(p).author == "misc" && ParseBookInfo(p).title == "a tale"
  {
    DottedName("a.tale.epub");
    DottedNameChars("a.tale.epub");
    FolderAuthor("/Books", "misc", "a.tale.epub", p);
  }
}
