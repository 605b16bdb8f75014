/**
 * Loading a fabfile: the module search path is widened with the fabfile's
 * directory for the duration of the import and then put back exactly as it
 * was; the imported module is then walked into a registry.
 */
module Loading {
  import opened Wrappers
  import opened Discovery

  const Slash: char := '/'
  const ExtSep: char := '.'

  // ---------------------------------------------------------------------------
  // Path names, POSIX style

  /** The index of the last `c` in `s`, or -1 when there is none. */
  function LastIndexOf(s: string, c: char): (r: int)
    ensures -1 <= r < |s|
    ensures r >= 0 ==> s[r] == c
    ensures forall k :: r < k < |s| ==> s[k] != c
  {
    if s == [] then -1
    else if s[|s| - 1] == c then |s| - 1
    else LastIndexOf(s[..|s| - 1], c)
  }

  predicate AllOf(s: string, c: char)
  {
    forall k :: 0 <= k < |s| ==> s[k] == c
  }

  /** `s` without its trailing run of `c`. */
  function StripTrailing(s: string, c: char): (r: string)
    ensures |r| <= |s| && r == s[..|r|]
    ensures r == [] || r[|r| - 1] != c
    ensures AllOf(s[|r|..], c)
  {
    if s == [] || s[|s| - 1] != c then s
    else StripTrailing(s[..|s| - 1], c)
  }

  /**
   * The directory part of a path: everything before the last slash, with the
   * slashes that end it dropped unless it consists of slashes only; the empty
   * string for a bare file name.
   */
  function Directory(path: string): (r: string)
    ensures |r| <= |path| && r == path[..|r|]
  {
    var head := path[..LastIndexOf(path, Slash) + 1];
    if head != [] && !AllOf(head, Slash) then StripTrailing(head, Slash) else head
  }

  /** The file-name part of a path: everything after the last slash. */
  function Basename(path: string): (r: string)
    ensures Slash !in r
  {
    var i := LastIndexOf(path, Slash) + 1;
    assert forall k :: 0 <= k < |path[i..]| ==> path[i..][k] == path[i + k];
    path[i..]
  }

  /**
   * A file name without its extension: the text before the last dot, provided
   * something other than a dot comes before that dot (a leading dot does not
   * start an extension).
   */
  function StripExtension(name: string): (r: string)
    ensures |r| <= |name| && r == name[..|r|]
  {
    var i := LastIndexOf(name, ExtSep);
    if i > 0 && exists k :: 0 <= k < i && name[k] != ExtSep then name[..i] else name
  }

  /** The module name the fabfile at `path` is imported under. */
  function ModuleName(path: string): (r: string)
    ensures Slash !in r
  {
    StripExtension(Basename(path))
  }

  /** A file `f` inside a directory `d` that does not end in a slash lies in `d`. */
  lemma DirectoryOfJoin(d: string, f: string)
    requires Slash !in f && d != [] && d[|d| - 1] != Slash
    ensures Directory(d + [Slash] + f) == d
    ensures Basename(d + [Slash] + f) == f
  {
    var path := d + [Slash] + f;
    assert LastIndexOf(path, Slash) == |d| by {
      assert path[|d|] == Slash;
      assert forall k :: |d| < k < |path| ==> path[k] == f[k - |d| - 1];
    }
    var head := d + [Slash];
    assert path[..|d| + 1] == head;
    assert head[|d| - 1] != Slash;
    assert StripTrailing(head, Slash) == StripTrailing(d, Slash) == d;
    assert path[|d| + 1..] == f;
  }

  /** A bare file name lies in the current directory, spelled as the empty string. */
  lemma DirectoryOfBareName(f: string)
    requires Slash !in f
    ensures Directory(f) == []
    ensures Basename(f) == f
  {
    assert LastIndexOf(f, Slash) == -1;
  }

  /** `name.py` is imported as `name`, whatever dots `name` itself holds. */
  lemma ModuleNameOfSource(d: string, name: string)
    requires Slash !in name && exists k :: 0 <= k < |name| && name[k] != ExtSep
    ensures ModuleName(d + [Slash] + name + ".py") == name
  {
    var f := name + ".py";
    assert Slash !in f by {
      assert forall k :: 0 <= k < |f| ==> f[k] == (if k < |name| then name[k] else ".py"[k - |name|]);
      assert forall k :: 0 <= k < |name| ==> f[k] != Slash;
      assert f[|name|] != Slash && f[|name| + 1] != Slash && f[|name| + 2] != Slash;
    }
    if d != [] && d[|d| - 1] != Slash {
      assert d + [Slash] + name + ".py" == d + [Slash] + f;
      DirectoryOfJoin(d, f);
    } else {
      BasenameAfterSlash(d, f);
    }
    assert LastIndexOf(f, ExtSep) == |name| by {
      assert f[|name|] == ExtSep;
      assert f[|name| + 1] != ExtSep && f[|name| + 2] != ExtSep;
    }
    var k :| 0 <= k < |name| && name[k] != ExtSep;
    assert f[k] != ExtSep;
    assert f[..|name|] == name;
  }

  /** Whatever precedes the last slash, the base name is what follows it. */
  lemma BasenameAfterSlash(d: string, f: string)
    requires Slash !in f
    ensures Basename(d + [Slash] + f) == f
  {
    var path := d + [Slash] + f;
    assert LastIndexOf(path, Slash) == |d| by {
      assert path[|d|] == Slash;
      assert forall k :: |d| < k < |path| ==> path[k] == f[k - |d| - 1];
    }
    assert path[|d| + 1..] == f;
  }

  // ---------------------------------------------------------------------------
  // The search path

  /** The search path while the import of a fabfile in `dir` runs: `dir` at the front unless already present. */
  function Acquired(entries: seq<string>, dir: string): (r: seq<string>)
    ensures dir in r
  {
    if dir in entries then entries else [dir] + entries
  }

  /** The search path after the import: the front entry dropped again if it was the one added. */
  function Released(entries: seq<string>, inserted: bool): (r: seq<string>)
  {
    if inserted && entries != [] then entries[1..] else entries
  }

  /** Releasing what was acquired gives back the original search path, element for element. */
  lemma ReleaseUndoesAcquire(entries: seq<string>, dir: string)
    ensures Released(Acquired(entries, dir), dir !in entries) == entries
  {
  }

  /** A directory already on the search path is neither moved nor duplicated, wherever it sits. */
  lemma AcquirePresentKeepsPath(entries: seq<string>, dir: string, i: nat)
    requires i < |entries| && entries[i] == dir
    ensures Acquired(entries, dir) == entries
  {
  }

  /** A directory missing from the search path is put in front of all the other entries, which keep their order. */
  lemma AcquireAbsentPrepends(entries: seq<string>, dir: string)
    requires dir !in entries
    ensures Acquired(entries, dir)[0] == dir && Acquired(entries, dir)[1..] == entries
  {
  }

  /** The process-wide module search path. */
  class SearchPath {
    var entries: seq<string>

    constructor (entries: seq<string>)
      ensures this.entries == entries
    {
      this.entries := entries;
    }

    /** Put `dir` in front unless it is already present; reports whether it was put there. */
    method Acquire(dir: string) returns (inserted: bool)
      modifies this
      ensures inserted <==> dir !in old(entries)
      ensures entries == Acquired(old(entries), dir)
    {
      inserted := dir !in entries;
      if inserted {
        entries := [dir] + entries;
      }
    }

    /** Remove the front entry if `Acquire` put it there. */
    method Release(inserted: bool)
      modifies this
      ensures entries == Released(old(entries), inserted)
    {
      if inserted && entries != [] {
        entries := entries[1..];
      }
    }

    /**
     * Import the fabfile at `path` with its directory on the search path and
     * walk the module. The import is `importer`, applied to the search path it
     * runs under and the module name; `None` is an import that fails, which
     * the caller sees as a failure. On success and on failure alike the search
     * path ends as it began.
     */
    method LoadFabfile(path: string, importer: (seq<string>, string) -> Option<Node>) returns (r: Option<Registry>)
      modifies this
      ensures entries == old(entries)
      ensures r == match importer(Acquired(old(entries), Directory(path)), ModuleName(path))
        case None => None
        case Some(m) => Some(Load(m))
    {
      var dir := Directory(path);
      var inserted := Acquire(dir);
      var imported := importer(entries, ModuleName(path));
      Release(inserted);
      ReleaseUndoesAcquire(old(entries), dir);
      match imported
      case None => r := None;
      case Some(m) => r := Some(Load(m));
    }
  }

  /** Set a fresh search path to `sysPath`, load the fabfile at `path`, and report the search path afterwards. */
  method RunLoadFabfile(path: string, sysPath: seq<string>, importer: (seq<string>, string) -> Option<Node>)
    returns (after: seq<string>)
    ensures after == sysPath
  {
    var searchPath := new SearchPath(sysPath);
    var _ := searchPath.LoadFabfile(path, importer);
    after := searchPath.entries;
  }
}
