/** `/api/sync-library`: the catalog built from the listing `find` prints,
    one entry per non-empty line, numbered in listing order. */
module Catalog {
  import opened JsStrings
  import opened NodePath
  import opened BookInfo

  /** One book of the catalog, as the endpoint returns it. */
  datatype Entry = Entry(id: nat, filepath: string, filename: string, author: string,
                         title: string, format: Format, status: string, added: string)

  /** The status every scanned book gets. */
  const ReadyStatus: string := "ready"

  /** What running `find` gave: its standard output, or the error. */
  datatype Listing = Listed(stdout: string) | ListingFailed(message: string)

  /** The endpoint's answer: the catalog, or status 500 with the error. */
  datatype SyncReply = Books(books: seq<Entry>) | SyncError(error: string)

  /** `parts.filter(f => f)`: the non-empty strings, in order. */
  function NonEmpty(parts: seq<string>): (r: seq<string>)
    ensures |r| <= |parts|
    ensures forall k :: 0 <= k < |r| ==> r[k] != [] && r[k] in parts
  {
    if parts == [] then []
    else (if parts[0] != [] then [parts[0]] else []) + NonEmpty(parts[1..])
  }

  /** The filter works piece by piece: on a concatenation it filters each
      part, and of one string it keeps it exactly when it is non-empty.
      Together these determine `NonEmpty` on every sequence. */
  lemma {:induction false} NonEmptyAppend(a: seq<string>, b: seq<string>)
    ensures NonEmpty(a + b) == NonEmpty(a) + NonEmpty(b)
    decreases |a|
  {
    if a == [] {
      assert a + b == b;
    } else {
      assert (a + b)[0] == a[0];
      assert (a + b)[1..] == a[1..] + b;
      NonEmptyAppend(a[1..], b);
      AppendAssociative(if a[0] != [] then [a[0]] else [], NonEmpty(a[1..]), NonEmpty(b));
    }
  }

  lemma NonEmptySingle(x: string)
    ensures NonEmpty([x]) == if x == [] then [] else [x]
  {
    assert [x][1..] == [];
  }

  /** Every non-empty string of the input is kept. */
  lemma {:induction false} NonEmptyKeeps(parts: seq<string>)
    ensures forall k :: 0 <= k < |parts| && parts[k] != [] ==> parts[k] in NonEmpty(parts)
    decreases |parts|
  {
    if parts != [] {
      NonEmptyKeeps(parts[1..]);
      assert forall k :: 1 <= k < |parts| ==> parts[k] == parts[1..][k - 1];
    }
  }

  /** `stdout.split('\n').filter(f => f)`. */
  function Lines(stdout: string): (lines: seq<string>)
    ensures forall k :: 0 <= k < |lines| ==> lines[k] != [] && '\n' !in lines[k]
  {
    var pieces := Split(stdout, "\n");
    SplitPiecesExcludeSeparator(stdout, "\n");
    forall k | 0 <= k < |pieces| ensures '\n' !in pieces[k] {
      NewlineAbsent(pieces[k]);
    }
    NonEmpty(pieces)
  }

  lemma NewlineAbsent(s: string)
    requires Absent(s, "\n")
    ensures '\n' !in s
  {
    forall j | 0 <= j < |s| ensures s[j] != '\n' {
      assert s[j..j + 1] == [s[j]];
      assert !OccursAt(s, "\n", j);
    }
  }

  /** The catalog entry for line `id` of the listing. */
  function MakeEntry(id: nat, filepath: string, added: string): (e: Entry)
    ensures var info := ParseBookInfo(filepath);
      && e.id == id && e.status == ReadyStatus && e.added == added
      && e.filepath == filepath && e.filename == Basename(filepath)
      && e.author == info.author && e.title == info.title && e.format == info.format
  {
    var info := ParseBookInfo(filepath);
    Entry(id, info.filepath, info.filename, info.author, info.title, info.format, ReadyStatus, added)
  }

  /** The catalog for a listing; `addedAt(i)` is the time read while entry
      `i` is built. */
  function BuildCatalog(stdout: string, addedAt: nat -> string): (books: seq<Entry>)
    ensures |books| == |Lines(stdout)|
    ensures forall i :: 0 <= i < |books| ==>
      var line, info := Lines(stdout)[i], ParseBookInfo(Lines(stdout)[i]);
      && books[i].id == i && books[i].status == ReadyStatus && books[i].added == addedAt(i)
      && books[i].filepath == line && books[i].filename == Basename(line)
      && books[i].author == info.author && books[i].title == info.title
      && books[i].format == info.format
  {
    var lines := Lines(stdout);
    var books := seq(|lines|, i requires 0 <= i < |lines| => MakeEntry(i, lines[i], addedAt(i)));
    assert forall i :: 0 <= i < |books| ==> books[i] == MakeEntry(i, lines[i], addedAt(i));
    books
  }

  /** The handler: a failed `find` fails the whole scan, with no partial
      catalog. */
  function SyncLibrary(listing: Listing, addedAt: nat -> string): (reply: SyncReply)
    ensures listing.ListingFailed? ==> reply == SyncError(listing.message)
    ensures listing.Listed? ==> reply == Books(BuildCatalog(listing.stdout, addedAt))
  {
    match listing
    case Listed(stdout) => Books(BuildCatalog(stdout, addedAt))
    case ListingFailed(message) => SyncError(message)
  }

  /** How `find` prints paths: each one followed by a newline. */
  function Terminated(paths: seq<string>): string {
    if paths == [] then [] else paths[0] + "\n" + Terminated(paths[1..])
  }

  /** Splitting on a character `c` at the first `c` of the string. */
  lemma SplitCons(p: string, tail: string, c: char)
    requires c !in p
    ensures Split(p + [c] + tail, [c]) == [p] + Split(tail, [c])
  {
    var s := p + [c] + tail;
    assert s[|p|..|p| + 1] == [c];
    assert s[..|p|] == p;
    FirstOccurrenceByMissingChar(s, [c], |p|, 0);
    SplitAtFirst(s, [c], |p|);
    assert s[|p| + 1..] == tail;
    var parts := Split(s, [c]);
    assert parts == [parts[0]] + parts[1..];
  }

  lemma {:induction false} SplitTerminated(paths: seq<string>)
    requires forall k :: 0 <= k < |paths| ==> '\n' !in paths[k]
    ensures Split(Terminated(paths), "\n") == paths + [""]
    decreases |paths|
  {
    if paths != [] {
      var p, rest := paths[0], paths[1..];
      SplitCons(p, Terminated(rest), '\n');
      SplitTerminated(rest);
      assert paths + [""] == [p] + (rest + [""]);
    }
  }

  lemma {:induction false} NonEmptyDropsLastBlank(paths: seq<string>)
    requires forall k :: 0 <= k < |paths| ==> paths[k] != []
    ensures NonEmpty(paths + [""]) == paths
    decreases |paths|
  {
    if paths == [] {
      assert NonEmpty([""]) == [] + NonEmpty([]);
    } else {
      assert (paths + [""])[1..] == paths[1..] + [""];
      NonEmptyDropsLastBlank(paths[1..]);
    }
  }

  /** Reading back what `find` prints gives the paths back, in order. */
  lemma ListingRoundTrip(paths: seq<string>)
    requires forall k :: 0 <= k < |paths| ==> paths[k] != [] && '\n' !in paths[k]
    ensures Lines(Terminated(paths)) == paths
  {
    SplitTerminated(paths);
    NonEmptyDropsLastBlank(paths);
  }

  /** The catalog of a listing of `paths` has one entry per path, in the
      order `find` printed them, numbered from 0. */
  lemma CatalogFollowsListing(paths: seq<string>, addedAt: nat -> string)
    requires forall k :: 0 <= k < |paths| ==> paths[k] != [] && '\n' !in paths[k]
    ensures var books := BuildCatalog(Terminated(paths), addedAt);
      |books| == |paths|
      && forall i :: 0 <= i < |books| ==>
           books[i].id == i && books[i].filepath == paths[i] && books[i].status == ReadyStatus
  {
    ListingRoundTrip(paths);
  }

  lemma {:induction false} BlankListingPieces(stdout: string)
    requires forall k :: 0 <= k < |stdout| ==> stdout[k] == '\n'
    ensures forall k :: 0 <= k < |Split(stdout, "\n")| ==> Split(stdout, "\n")[k] == []
    decreases |stdout|
  {
    if stdout != [] {
      assert stdout[0..1] == "\n";
      SplitAtFirst(stdout, "\n", 0);
      BlankListingPieces(stdout[1..]);
    }
  }

  lemma {:induction false} NonEmptyOfBlanks(parts: seq<string>)
    requires forall k :: 0 <= k < |parts| ==> parts[k] == []
    ensures NonEmpty(parts) == []
    decreases |parts|
  {
    if parts != [] {
      NonEmptyOfBlanks(parts[1..]);
    }
  }

  /** An empty listing, or one of blank lines only, gives an empty catalog
      (and not an error). */
  lemma BlankListingEmptyCatalog(stdout: string, addedAt: nat -> string)
    requires forall k :: 0 <= k < |stdout| ==> stdout[k] == '\n'
    ensures SyncLibrary(Listed(stdout), addedAt) == Books([])
  {
    BlankListingPieces(stdout);
    NonEmptyOfBlanks(Split(stdout, "\n"));
  }
}
