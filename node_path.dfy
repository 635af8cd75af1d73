/** Node's `path.basename(p)` and `path.dirname(p)` for POSIX paths, the
    flavour the server gets on Linux. Both ignore trailing '/' characters. */
module NodePath {
  import opened JsStrings

  /** `p` without its trailing '/' characters. */
  function DropTrailingSlashes(p: string): (q: string)
    ensures |q| <= |p|
  {
    if p != [] && p[|p| - 1] == '/' then DropTrailingSlashes(p[..|p| - 1]) else p
  }

  /** What `DropTrailingSlashes` removes is a run of '/' at the end, and
      what it keeps does not end in '/'. */
  lemma {:induction false} DropTrailingSlashesSpec(p: string)
    ensures var q := DropTrailingSlashes(p);
      && q == p[..|q|]
      && (q != [] ==> q[|q| - 1] != '/')
      && forall k :: |q| <= k < |p| ==> p[k] == '/'
  {
    if p != [] && p[|p| - 1] == '/' {
      DropTrailingSlashesSpec(p[..|p| - 1]);
    }
  }

  /** The index of the last '/' in `p`. */
  function LastSlash(p: string): (r: Option<nat>)
    ensures r.Some? ==> r.value < |p|
  {
    if p == [] then None
    else if p[|p| - 1] == '/' then Some(|p| - 1)
    else LastSlash(p[..|p| - 1])
  }

  /** `LastSlash` finds a '/' and there is none after it, or finds none
      because there is none at all. */
  lemma {:induction false} LastSlashSpec(p: string)
    ensures LastSlash(p).Some? ==> p[LastSlash(p).value] == '/'
    ensures LastSlash(p).Some? ==> forall k :: LastSlash(p).value < k < |p| ==> p[k] != '/'
    ensures LastSlash(p).None? ==> forall k :: 0 <= k < |p| ==> p[k] != '/'
  {
    if p != [] && p[|p| - 1] != '/' {
      LastSlashSpec(p[..|p| - 1]);
    }
  }

  /** `path.basename(p)`: the last non-empty component of `p`, or "" when
      `p` is empty or made only of '/'. */
  function Basename(p: string): string {
    var q := DropTrailingSlashes(p);
    match LastSlash(q)
    case None => q
    case Some(k) => q[k + 1..]
  }

  /** The base name holds no '/' and is a suffix of the path, trailing '/'
      aside. */
  lemma BasenameSpec(p: string)
    ensures '/' !in Basename(p)
    ensures EndsWith(DropTrailingSlashes(p), Basename(p))
  {
    LastSlashSpec(DropTrailingSlashes(p));
  }

  /** `path.dirname(p)`: everything before the last component. An empty
      path gives ".", a path with no '/' before its last component gives
      "." (relative) or "/" (absolute), and a path whose only separator
      before its last component is the second of two leading '/' gives
      "//". */
  function Dirname(p: string): string {
    if p == [] then "."
    else
      var last := LastSlash(DropTrailingSlashes(p));
      if last.Some? && last.value >= 1 then
        if p[0] == '/' && last.value == 1 then "//" else p[..last.value]
      else if p[0] == '/' then "/"
      else "."
  }

  /** Joining a directory and a name that holds no '/': the base name is
      the name, and the directory name is the directory ("/" for an empty
      one, and "//" for "/", as Node keeps a double leading slash). */
  lemma JoinedPath(dir: string, name: string)
    requires name != [] && '/' !in name
    ensures Basename(dir + "/" + name) == name
    ensures Dirname(dir + "/" + name)
         == if dir == [] then "/" else if dir == "/" then "//" else dir
  {
    var p := dir + "/" + name;
    var k := |dir|;
    assert p[|p| - 1] == name[|name| - 1];
    assert DropTrailingSlashes(p) == p;
    assert forall j :: k < j < |p| ==> p[j] == name[j - k - 1];
    assert LastSlash(p) == Some(k) by {
      LastSlashSpec(p);
      assert p[k] == '/';
    }
    assert p[k + 1..] == name;
    assert p[..k] == dir;
  }

  /** A file directly under the root: its base name is the name, and its
      directory is "/", whose base name is empty. */
  lemma TopLevelDirectory(name: string, p: string)
    requires name != [] && '/' !in name && p == "/" + name
    ensures Basename(p) == name
    ensures Dirname(p) == "/" && Basename(Dirname(p)) == ""
  {
    assert p == [] + "/" + name;
    JoinedPath([], name);
    RootBasename();
  }

  lemma RootBasename()
    ensures Basename("/") == ""
  {
    assert DropTrailingSlashes("/") == DropTrailingSlashes([]);
  }

  /** A path with no '/' at all is its own base name and lives in ".". */
  lemma NoSlash(p: string)
    requires p != [] && '/' !in p
    ensures Basename(p) == p && Dirname(p) == "."
  {
    assert DropTrailingSlashes(p) == p;
    LastSlashSpec(p);
  }

  /** Appending '/' to a non-empty path changes neither its base name nor
      its directory name. */
  lemma {:induction false} TrailingSlashIgnored(p: string)
    ensures DropTrailingSlashes(p + "/") == DropTrailingSlashes(p)
    ensures Basename(p + "/") == Basename(p)
    ensures p != [] ==> Dirname(p + "/") == Dirname(p)
  {
    assert (p + "/")[..|p + "/"| - 1] == p;
  }
}
