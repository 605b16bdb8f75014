/**
 * The eight search-path configurations of the loading cases, over an
 * arbitrary sub-directory name `sub`, a file name `f` and other entries: what
 * the import sees for the fabfile `sub/f` and for the bare `f`. That the
 * search path afterwards equals the one before holds for every configuration
 * (`Loading.SearchPath.LoadFabfile`).
 */
module LoadingCases {
  import opened Loading

  /** `sub` names a directory and `f` a file in it. */
  predicate DirAndFile(sub: string, f: string)
  {
    sub != [] && sub[|sub| - 1] != Slash && Slash !in f
  }

  /** `sub/f` with only `not_subdir` on the path: `sub` goes in front for the import. */
  lemma SubdirNotInPath(sub: string, f: string, notSub: string)
    requires DirAndFile(sub, f) && notSub != sub
    ensures Acquired([notSub], Directory(sub + [Slash] + f)) == [sub, notSub]
  {
    DirectoryOfJoin(sub, f);
  }

  /** `f` with only `nope` on the path: the current directory, `""`, goes in front. */
  lemma BareNotInPath(f: string, nope: string)
    requires Slash !in f && nope != ""
    ensures Acquired([nope], Directory(f)) == ["", nope]
  {
    DirectoryOfBareName(f);
  }

  /** `sub/f` with `sub` second on the path: nothing moves. */
  lemma SubdirInPathNotFront(sub: string, f: string, notSub: string)
    requires DirAndFile(sub, f)
    ensures Acquired([notSub, sub], Directory(sub + [Slash] + f)) == [notSub, sub]
  {
    DirectoryOfJoin(sub, f);
    assert [notSub, sub][1] == sub;
  }

  /** `f` with `""` second on the path: nothing moves. */
  lemma BareInPathNotFront(f: string, notSub: string)
    requires Slash !in f
    ensures Acquired([notSub, ""], Directory(f)) == [notSub, ""]
  {
    DirectoryOfBareName(f);
    assert [notSub, ""][1] == "";
  }

  /** `f` with `""` in the middle of the path: nothing moves. */
  lemma BareInPathMiddle(f: string, notSub: string, alsoNotSub: string)
    requires Slash !in f
    ensures Acquired([notSub, "", alsoNotSub], Directory(f)) == [notSub, "", alsoNotSub]
  {
    DirectoryOfBareName(f);
    assert [notSub, "", alsoNotSub][1] == "";
  }

  /** `sub/f` with the path holding just `sub`: nothing changes. */
  lemma SubdirIsPath(sub: string, f: string)
    requires DirAndFile(sub, f)
    ensures Acquired([sub], Directory(sub + [Slash] + f)) == [sub]
  {
    DirectoryOfJoin(sub, f);
    assert [sub][0] == sub;
  }

  /** `sub/f` with `sub` in front of the path: nothing changes. */
  lemma SubdirInPathFront(sub: string, f: string, notSub: string)
    requires DirAndFile(sub, f)
    ensures Acquired([sub, notSub], Directory(sub + [Slash] + f)) == [sub, notSub]
  {
    DirectoryOfJoin(sub, f);
    assert [sub, notSub][0] == sub;
  }

  /** `f` with `""` in front of the path: nothing changes. */
  lemma BareInPathFront(f: string, someDir: string, someOtherDir: string)
    requires Slash !in f
    ensures Acquired(["", someDir, someOtherDir], Directory(f)) == ["", someDir, someOtherDir]
  {
    DirectoryOfBareName(f);
    assert ["", someDir, someOtherDir][0] == "";
  }
}
