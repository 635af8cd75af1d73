/** The two delete handlers. `/api/delete-book` removes one file, tries
    again with `sudo` when the plain removal fails, and fails only when the
    retry fails too. `/api/delete-books` removes each file of a list in
    turn, never stops early, and reports how many removals succeeded. Both
    also remove the ".mobi" sibling of an ".epub" file. The shell's answer
    to each command is an input. */
module Remover {
  import opened JsStrings
  import opened Outcomes

  /** A shell command the handlers run: `rm -f "<path>"` or
      `sudo rm -f "<path>"`. */
  datatype Command = Rm(path: string) | SudoRm(path: string)

  /** The shell's answers for the plain removal of one path: to the `rm` of
      the path, and to the `rm` of its sibling (read only for an ".epub"
      path whose own `rm` succeeded). */
  datatype PathOutcomes = PathOutcomes(primary: Outcome, sibling: Outcome)

  /** The answer to `/api/delete-books`. */
  datatype BulkReply = BulkReply(status: string, message: string, deleted: nat, failed: nat)

  const DeletedMessage: string := "Book deleted successfully"
  const CannotDeletePrefix: string := "Cannot delete file: "

  /** `filepath.replace('.epub', '.mobi')`: the first ".epub" anywhere in
      the path turns into ".mobi". */
  function MobiSibling(filepath: string): string {
    ReplaceFirst(filepath, ".epub", ".mobi")
  }

  /** An ".epub" that occurs only as the extension: the sibling is the same
      path with a ".mobi" extension. */
  lemma SiblingOfPlainPath(filepath: string)
    requires EndsWith(filepath, ".epub")
    requires Absent(filepath[..|filepath| - 1], ".epub")
    ensures MobiSibling(filepath) == filepath[..|filepath| - 5] + ".mobi"
  {
    var i := |filepath| - 5;
    ReplaceFirstSpec(filepath, ".epub", ".mobi");
    forall j: nat | j < i ensures !OccursAt(filepath, ".epub", j) {
      assert !OccursAt(filepath[..|filepath| - 1], ".epub", j);
      assert filepath[..|filepath| - 1][j..j + 5] == filepath[j..j + 5];
    }
    assert filepath[i + 5..] == [];
  }

  /** An ".epub" earlier in the path, in a directory name say, is the one
      replaced: the computed sibling still ends in ".epub". */
  lemma SiblingOfDottedDirectory(filepath: string, i: nat)
    requires EndsWith(filepath, ".epub")
    requires IsFirstOccurrence(filepath, ".epub", i) && i + 5 < |filepath| - 5
    ensures MobiSibling(filepath) == filepath[..i] + ".mobi" + filepath[i + 5..]
    ensures EndsWith(MobiSibling(filepath), ".epub")
  {
    ReplaceFirstSpec(filepath, ".epub", ".mobi");
    var r := MobiSibling(filepath);
    assert r[|r| - 5..] == filepath[|filepath| - 5..];
  }

  /** The plain removal of one path succeeds: its `rm` succeeds and, for an
      ".epub" path, so does the `rm` of its sibling. */
  predicate PlainDeleteSucceeds(filepath: string, o: PathOutcomes) {
    o.primary.Done? && (EndsWith(filepath, ".epub") ==> o.sibling.Done?)
  }

  /** The commands the plain removal of one path runs: the path itself, then
      its sibling when the path is an ".epub" and its own `rm` succeeded. */
  function PlainDeleteCommands(filepath: string, o: PathOutcomes): seq<Command> {
    [Rm(filepath)] + if o.primary.Done? && EndsWith(filepath, ".epub") then [Rm(MobiSibling(filepath))] else []
  }

  /** The `try` block both handlers share: the first failing `rm` ends it. */
  method PlainDelete(filepath: string, o: PathOutcomes) returns (ok: bool, issued: seq<Command>)
    ensures ok == PlainDeleteSucceeds(filepath, o)
    ensures issued == PlainDeleteCommands(filepath, o)
    ensures issued[0] == Rm(filepath) && |issued| <= 2
  {
    issued := [Rm(filepath)];
    if o.primary.Failed? {
      return false, issued;
    }
    if EndsWith(filepath, ".epub") {
      issued := issued + [Rm(MobiSibling(filepath))];
      if o.sibling.Failed? {
        return false, issued;
      }
    }
    ok := true;
  }

  /** `/api/delete-book`: the plain removal, and after it fails a `sudo`
      removal of the path only (never of its sibling). */
  method DeleteBook(filepath: string, o: PathOutcomes, sudo: Outcome) returns (reply: Reply, issued: seq<Command>)
    ensures reply.Ok? <==> PlainDeleteSucceeds(filepath, o) || sudo.Done?
    ensures reply.Ok? ==> reply == Ok(SuccessStatus, DeletedMessage)
    ensures reply.ServerError? ==> reply.error == CannotDeletePrefix + sudo.message
    ensures SudoRm(filepath) in issued <==> !PlainDeleteSucceeds(filepath, o)
    ensures issued == PlainDeleteCommands(filepath, o)
                      + if PlainDeleteSucceeds(filepath, o) then [] else [SudoRm(filepath)]
  {
    var ok;
    ok, issued := PlainDelete(filepath, o);
    if !ok {
      issued := issued + [SudoRm(filepath)];
      if sudo.Failed? {
        reply := ServerError(CannotDeletePrefix + sudo.message);
        return;
      }
    }
    reply := Ok(SuccessStatus, DeletedMessage);
  }

  /** How many of the paths the plain removal deletes. */
  function CountDeleted(filepaths: seq<string>, outcomes: seq<PathOutcomes>): nat
    requires |outcomes| == |filepaths|
  {
    if filepaths == [] then 0
    else
      var n := |filepaths| - 1;
      CountDeleted(filepaths[..n], outcomes[..n]) + if PlainDeleteSucceeds(filepaths[n], outcomes[n]) then 1 else 0
  }

  /** The commands the bulk handler runs: each path's plain removal, in
      order. */
  function BulkCommands(filepaths: seq<string>, outcomes: seq<PathOutcomes>): seq<Command>
    requires |outcomes| == |filepaths|
  {
    if filepaths == [] then []
    else
      var n := |filepaths| - 1;
      BulkCommands(filepaths[..n], outcomes[..n]) + PlainDeleteCommands(filepaths[n], outcomes[n])
  }

  /** `/api/delete-books`: every path is attempted, a failure only counts,
      and the answer is always a success. */
  method DeleteBooks(filepaths: seq<string>, outcomes: seq<PathOutcomes>) returns (reply: BulkReply, issued: seq<Command>)
    requires |outcomes| == |filepaths|
    ensures reply.status == SuccessStatus
    ensures reply.deleted == CountDeleted(filepaths, outcomes)
    ensures reply.deleted + reply.failed == |filepaths|
    ensures reply.message == "Deleted " + NatToString(reply.deleted) + " books"
    ensures issued == BulkCommands(filepaths, outcomes)
  {
    var deleted, failed := 0, 0;
    issued := [];
    var i := 0;
    while i < |filepaths|
      invariant 0 <= i <= |filepaths|
      invariant deleted == CountDeleted(filepaths[..i], outcomes[..i])
      invariant deleted + failed == i
      invariant issued == BulkCommands(filepaths[..i], outcomes[..i])
    {
      var ok, cmds := PlainDelete(filepaths[i], outcomes[i]);
      issued := issued + cmds;
      if ok {
        deleted := deleted + 1;
      } else {
        failed := failed + 1;
      }
      assert filepaths[..i + 1][..i] == filepaths[..i];
      assert outcomes[..i + 1][..i] == outcomes[..i];
      i := i + 1;
    }
    assert filepaths[..i] == filepaths && outcomes[..i] == outcomes;
    reply := BulkReply(SuccessStatus, "Deleted " + NatToString(deleted) + " books", deleted, failed);
  }

  /** The deleted count is the number of paths whose plain removal
      succeeds. */
  lemma {:induction false} CountDeletedCountsSuccesses(filepaths: seq<string>, outcomes: seq<PathOutcomes>)
    requires |outcomes| == |filepaths|
    ensures CountDeleted(filepaths, outcomes)
         == |set k | 0 <= k < |filepaths| && PlainDeleteSucceeds(filepaths[k], outcomes[k])|
    decreases |filepaths|
  {
    if filepaths != [] {
      var n := |filepaths| - 1;
      var p, o := filepaths[..n], outcomes[..n];
      CountDeletedCountsSuccesses(p, o);
      var before := set k | 0 <= k < n && PlainDeleteSucceeds(p[k], o[k]);
      var all := set k | 0 <= k < |filepaths| && PlainDeleteSucceeds(filepaths[k], outcomes[k]);
      if PlainDeleteSucceeds(filepaths[n], outcomes[n]) {
        assert all == before + {n};
      } else {
        assert all == before;
      }
    }
  }

  /** Every path is deleted exactly when the deleted count is the number of
      paths, and none is exactly when it is zero. */
  lemma {:induction false} CountDeletedExtremes(filepaths: seq<string>, outcomes: seq<PathOutcomes>)
    requires |outcomes| == |filepaths|
    ensures CountDeleted(filepaths, outcomes) <= |filepaths|
    ensures CountDeleted(filepaths, outcomes) == |filepaths|
        <==> forall k :: 0 <= k < |filepaths| ==> PlainDeleteSucceeds(filepaths[k], outcomes[k])
    ensures CountDeleted(filepaths, outcomes) == 0
        <==> forall k :: 0 <= k < |filepaths| ==> !PlainDeleteSucceeds(filepaths[k], outcomes[k])
    decreases |filepaths|
  {
    if filepaths != [] {
      var n := |filepaths| - 1;
      CountDeletedExtremes(filepaths[..n], outcomes[..n]);
      assert forall k :: 0 <= k < n ==> filepaths[..n][k] == filepaths[k] && outcomes[..n][k] == outcomes[k];
    }
  }

  /** The bulk handler runs `rm` on every path of the list. */
  lemma {:induction false} EveryPathAttempted(filepaths: seq<string>, outcomes: seq<PathOutcomes>)
    requires |outcomes| == |filepaths|
    ensures forall k :: 0 <= k < |filepaths| ==> Rm(filepaths[k]) in BulkCommands(filepaths, outcomes)
    decreases |filepaths|
  {
    if filepaths != [] {
      var n := |filepaths| - 1;
      var p, o := filepaths[..n], outcomes[..n];
      EveryPathAttempted(p, o);
      var before := BulkCommands(p, o);
      var last := PlainDeleteCommands(filepaths[n], outcomes[n]);
      assert BulkCommands(filepaths, outcomes) == before + last;
      forall k | 0 <= k < |filepaths| ensures Rm(filepaths[k]) in before + last {
        if k < n {
          assert p[k] == filepaths[k];
          assert Rm(p[k]) in before;
        } else {
          assert last[0] == Rm(filepaths[n]);
        }
      }
    }
  }

  /** The bulk handler never runs `sudo`. */
  lemma {:induction false} BulkNeverEscalates(filepaths: seq<string>, outcomes: seq<PathOutcomes>)
    requires |outcomes| == |filepaths|
    ensures forall c :: c in BulkCommands(filepaths, outcomes) ==> c.Rm?
    decreases |filepaths|
  {
    if filepaths != [] {
      var n := |filepaths| - 1;
      BulkNeverEscalates(filepaths[..n], outcomes[..n]);
    }
  }
}
