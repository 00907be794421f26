/** Writing trees piece by piece, and the rollback point as one such tree. */
module RollbackPoints {
  import opened Wrappers
  import opened FileSystem
  import opened External
  import opened Installations
  import opened Transactions
  import opened Order

  lemma GraftIsTheOnlyChange(before: Tree, fs: Tree, root: Path, t: Tree)
    requires ChangedOnlyUnder(before, fs, root) && Sub(fs, root) == t
    ensures fs == Graft(before, root, t)
  {
    hide Sub, Graft;
    forall p
      ensures SameAt(fs, Graft(before, root, t), p)
    {
      if Under(root, p) {
        assert root + p[|root|..] == p;
        assert p[|root|..] in t <==> p in fs;
      } else {
        assert SameAt(before, fs, p);
      }
    }
    SameEverywhere(fs, Graft(before, root, t));
  }

  lemma ChangedBelow(before: Tree, fs: Tree, root: Path, q: Path)
    requires ChangedOnlyUnder(before, fs, root + q)
    ensures ChangedOnlyUnder(before, fs, root)
  {
    forall p | !Under(root, p)
      ensures SameAt(before, fs, p)
    {
      assert Under(root + q, p) ==> Under(root, p) by {
        assert root == (root + q)[..|root|];
      }
    }
  }

  lemma ChangesCompose(a: Tree, b: Tree, c: Tree, root: Path)
    requires ChangedOnlyUnder(a, b, root) && ChangedOnlyUnder(b, c, root)
    ensures ChangedOnlyUnder(a, c, root)
  {
    forall p | !Under(root, p)
      ensures SameAt(a, c, p)
    {
      assert SameAt(a, b, p) && SameAt(b, c, p);
    }
  }

  /** A directory with one more part in it. */
  lemma PartAdded(before: Tree, fs: Tree, root: Path, parts: map<string, Tree>, n: string, t: Tree)
    requires Sub(before, root) == Directory(parts)
    requires ChangedOnlyUnder(before, fs, root + [n]) && Sub(fs, root + [n]) == t
    ensures Sub(fs, root) == Directory(parts[n := t])
  {
    hide Sub, Graft, Directory, ChangedOnlyUnder;
    GraftIsTheOnlyChange(before, fs, root + [n], t);
    GraftInside(before, root, [n], t);
    GraftPart(parts, n, t);
  }

  /** Copies one part into a directory; files are copied and given their mode in the same way. */
  method PutPart(disk: Disk, root: Path, ghost parts: map<string, Tree>, n: string, t: Tree) returns (ok: bool)
    requires Sub(disk.fs, root) == Directory(parts)
    modifies disk
    ensures ChangedOnlyUnder(old(disk.fs), disk.fs, root + [n])
    ensures ok ==> Sub(disk.fs, root) == Directory(parts[n := t])
    ensures disk.reliable ==> ok
  {
    hide Sub, Graft, Directory;
    ghost var before := disk.fs;
    ok := disk.CopyTree(t, root + [n]);
    if ok {
      SubOfGraft(before, root + [n], t);
      PartAdded(before, disk.fs, root, parts, n, t);
    }
  }

  function CleanTrees(fs: Tree, source: Path, names: set<string>): map<string, Tree> {
    map n | n in names :: Clean(Sub(fs, source + [n]))
  }

  /** `_copy_tree` once for every record of a lock. */
  method CopyRecords(disk: Disk, source: Path, names: set<string>, root: Path) returns (ok: bool)
    requires Sub(disk.fs, root) == Directory(map[])
    requires |root| > 0 && |source| > 0 && root[0] != source[0]
    modifies disk
    ensures ChangedOnlyUnder(old(disk.fs), disk.fs, root)
    ensures ok ==> Sub(disk.fs, root) == Directory(CleanTrees(old(disk.fs), source, names))
    ensures disk.reliable ==> ok
  {
    hide Sub, Directory, Clean, CleanTrees, ChangedOnlyUnder;
    ghost var before := disk.fs;
    var rest := names;
    ghost var done: set<string> := {};
    NoTrees(before, source);
    NothingChangedUnder(before, root);
    while rest != {}
      invariant done == names - rest && rest <= names
      invariant ChangedOnlyUnder(before, disk.fs, root)
      invariant Sub(disk.fs, root) == Directory(CleanTrees(before, source, done))
      decreases |rest|
    {
      var n :| n in rest;
      rest := rest - {n};
      ghost var mid := disk.fs;
      HeadsApart(root, source + [n]);
      SubtreeUntouched(before, mid, root, source + [n]);
      ok := PutPart(disk, root, CleanTrees(before, source, done), n, Clean(Sub(disk.fs, source + [n])));
      ChangedBelow(mid, disk.fs, root, [n]);
      ChangesCompose(before, mid, disk.fs, root);
      if !ok { return; }
      OneMoreTree(before, source, done, n);
      done := done + {n};
    }
    assert done == names;
    ok := true;
  }

  lemma NoTrees(fs: Tree, source: Path)
    ensures CleanTrees(fs, source, {}) == map[]
  {
  }

  lemma NothingChangedUnder(fs: Tree, root: Path)
    ensures ChangedOnlyUnder(fs, fs, root)
  {
  }

  lemma OneMoreTree(fs: Tree, source: Path, done: set<string>, n: string)
    ensures CleanTrees(fs, source, done + {n}) == CleanTrees(fs, source, done)[n := Clean(Sub(fs, source + [n]))]
  {
    hide Sub, Clean;
  }

  lemma HeadsApart(a: Path, b: Path)
    requires |a| > 0 && |b| > 0 && a[0] != b[0]
    ensures Apart(a, b) && Apart(b, a)
  {
  }

  /** The scope an installation may declare: outside the managed roots and the working directories. */
  ghost predicate ExternalScope(files: seq<Path>, stage: string, backup: string) {
    PrefixFree(files) && forall f | f in files :: |f| > 0 && Elsewhere(f, stage, backup)
  }

  lemma ScopeElsewhere(files: seq<Path>, stage: string, backup: string, p: Path)
    requires ExternalScope(files, stage, backup) && InScope(files, p)
    ensures |p| > 0 && Elsewhere(p, stage, backup)
  {
    if p !in files {
      var f :| f in files && Ancestor(p, f);
      assert p[0] == f[0];
    }
  }

  lemma DescribesEarlier(state: ExternalState, pre: Tree, fs: Tree, files: seq<Path>)
    requires Describes(state, fs, files) && forall p | InScope(files, p) :: SameAt(pre, fs, p)
    ensures Describes(state, pre, files)
  {
    forall e | e in state.directories
      ensures DirectoryMatches(pre, e)
    {
      var i :| 0 <= i < |state.directories| && state.directories[i] == e;
      DirectoryInScope(state, files, i);
      assert SameAt(pre, fs, e.path);
    }
    forall e | e in state.entries
      ensures FileMatches(pre, e)
    {
      var i :| 0 <= i < |state.entries| && state.entries[i] == e;
      assert files[i] in files && SameAt(pre, fs, files[i]);
    }
  }

  lemma KindsFollow(before: Tree, fs: Tree, files: seq<Path>)
    requires forall p | InScope(files, p) :: SameAt(before, fs, p)
    ensures KindsAreSafe(before, files) ==> KindsAreSafe(fs, files)
  {
    forall d | ScopeDirectory(files, d)
      ensures SameAt(before, fs, d)
    {
      assert InScope(files, d);
    }
    forall f | f in files
      ensures SameAt(before, fs, f)
    {
      assert InScope(files, f);
    }
  }

  // ---------------------------------------------------------------- the point

  lemma ReadFields(fs: Tree)
    requires Readable(fs, InTarget([]))
    ensures Read(fs, InTarget([])).installLock.InstallLock?
    ensures var i := Read(fs, InTarget([]));
            i.skills == CleanTrees(fs, [SKILLS], i.installLock.skills) &&
            i.packages == CleanTrees(fs, [STATE, PACKAGES], i.installLock.packages)
  {
    hide Sub, Clean;
    assert [] + [SKILLS] == [SKILLS] && [] + [STATE] + [PACKAGES] == [STATE, PACKAGES];
  }

  function InstallationParts(i: Installation): map<string, Tree> {
    MetaParts(i)[AGENTS := FileTree(i.agents)][SKILLS := Directory(i.skills)]
  }

  function TreeParts(i: Installation): map<string, Tree> {
    map[AGENTS := FileTree(i.agents)][PACKAGES := Directory(i.packages)][SKILLS := Directory(i.skills)]
  }

  function LockParts(i: Installation): map<string, Tree> {
    TreeParts(i)[INSTALL_LOCK := FileTree(i.installLock)][PACKAGE_LOCK := FileTree(i.packageLock)]
  }

  /** Parts may be listed in any order. */
  lemma AnyOrder<T>(a: string, s: string, p: string, l: string, k: string, c: string,
                    ta: T, ts: T, tp: T, tl: T, tk: T, tc: T)
    requires Unique([a, s, p, l, k, c])
    ensures map[p := tp, l := tl, k := tk][a := ta][s := ts] == map[a := ta][p := tp][s := ts][l := tl][k := tk]
    ensures map[p := tp, l := tl, k := tk][c := tc][a := ta][s := ts] ==
            map[a := ta][p := tp][s := ts][l := tl][k := tk][c := tc]
  {
    var u := [a, s, p, l, k, c];
    assert u[0] != u[1] && u[0] != u[2] && u[0] != u[3] && u[0] != u[4] && u[0] != u[5];
    assert u[1] != u[2] && u[1] != u[3] && u[1] != u[4] && u[1] != u[5];
    assert u[2] != u[3] && u[2] != u[4] && u[2] != u[5] && u[3] != u[4] && u[3] != u[5] && u[4] != u[5];
  }

  lemma AllParts(i: Installation)
    ensures InstallationParts(i) ==
      if i.activation.Some? then LockParts(i)[ACTIVATION_LOCK := FileTree(i.activation.value)] else LockParts(i)
  {
    hide Directory, FileTree;
    NamesDiffer();
    var tc := FileTree(if i.activation.Some? then i.activation.value else i.agents);
    AnyOrder(AGENTS, SKILLS, PACKAGES, INSTALL_LOCK, PACKAGE_LOCK, ACTIVATION_LOCK, FileTree(i.agents),
             Directory(i.skills), Directory(i.packages), FileTree(i.installLock), FileTree(i.packageLock), tc);
  }

  lemma NamesDiffer()
    ensures Unique([AGENTS, SKILLS, PACKAGES, INSTALL_LOCK, PACKAGE_LOCK, ACTIVATION_LOCK])
  {
    assert |AGENTS| == 9 && |SKILLS| == 6 && |PACKAGES| == 8 && |INSTALL_LOCK| == 17 && |PACKAGE_LOCK| == 17;
    assert |ACTIVATION_LOCK| == 20 && INSTALL_LOCK[0] == 'i' && PACKAGE_LOCK[0] == 'a';
  }

  method CopyTrees(disk: Disk, dst: Path, i: Installation) returns (ok: bool)
    requires |dst| > 0 && !IsRoot(dst[0])
    requires Readable(disk.fs, InTarget([])) && i == Read(disk.fs, InTarget([]))
    modifies disk
    ensures ChangedOnlyUnder(old(disk.fs), disk.fs, dst)
    ensures ok ==> Sub(disk.fs, dst) == Directory(TreeParts(i))
    ensures disk.reliable ==> ok
  {
    assert dst[0] != STATE && dst[0] != SKILLS;
    hide Sub, Graft, Directory, Clean, Readable, Read, CleanTrees, ChangedOnlyUnder, IsRoot, FileTree;
    ghost var pre := disk.fs;
    ReadFields(pre);
    ok := disk.CopyTree(Directory(map[]), dst);
    if !ok { return; }
    SubOfGraft(pre, dst, Directory(map[]));
    ghost var parts: map<string, Tree> := map[];
    ok := PutNext(disk, dst, parts, AGENTS, FileTree(i.agents), pre);
    if !ok { return; }
    parts := parts[AGENTS := FileTree(i.agents)];
    ok := CopyInto(disk, dst, parts, PACKAGES, [STATE, PACKAGES], i.installLock, false, pre);
    if !ok { return; }
    parts := parts[PACKAGES := Directory(i.packages)];
    ok := CopyInto(disk, dst, parts, SKILLS, [SKILLS], i.installLock, true, pre);
  }

  method CopyLocks(disk: Disk, dst: Path, i: Installation, ghost pre: Tree) returns (ok: bool)
    requires Sub(disk.fs, dst) == Directory(TreeParts(i)) && ChangedOnlyUnder(pre, disk.fs, dst)
    modifies disk
    ensures ChangedOnlyUnder(pre, disk.fs, dst)
    ensures ok ==> Sub(disk.fs, dst) == Directory(InstallationParts(i))
    ensures disk.reliable ==> ok
  {
    hide Sub, Directory, ChangedOnlyUnder, FileTree, TreeParts, InstallationParts;
    AllParts(i);
    ghost var parts := TreeParts(i);
    ok := PutNext(disk, dst, parts, INSTALL_LOCK, FileTree(i.installLock), pre);
    if !ok { return; }
    parts := parts[INSTALL_LOCK := FileTree(i.installLock)];
    ok := PutNext(disk, dst, parts, PACKAGE_LOCK, FileTree(i.packageLock), pre);
    if !ok { return; }
    parts := parts[PACKAGE_LOCK := FileTree(i.packageLock)];
    if i.activation.Some? {
      ok := PutNext(disk, dst, parts, ACTIVATION_LOCK, FileTree(i.activation.value), pre);
    }
  }

  /** `_write_rollback_point`: records the managed installation and its external files under `dst`. */
  method WriteRollbackPoint(disk: Disk, dst: Path, files: seq<Path>) returns (r: Option<ExternalState>)
    requires |dst| > 0 && !IsRoot(dst[0])
    requires forall p | InScope(files, p) :: |p| > 0 && p[0] != dst[0]
    modifies disk
    ensures ChangedOnlyUnder(old(disk.fs), disk.fs, dst)
    ensures r.Some? ==> Readable(old(disk.fs), InTarget([]))
    ensures r.Some? ==> Sub(disk.fs, dst) == PointTree(Read(old(disk.fs), InTarget([])), r.value)
    ensures r.Some? ==> Describes(r.value, old(disk.fs), files)
    ensures disk.reliable && Readable(old(disk.fs), InTarget([])) && KindsAreSafe(old(disk.fs), files) ==> r.Some?
  {
    hide Sub, Directory, Readable, Read, Describes, MetaParts, KindsAreSafe;
    ghost var pre := disk.fs;
    if !Readable(disk.fs, InTarget([])) { return None; }
    var i := Read(disk.fs, InTarget([]));
    var ok := CopyTrees(disk, dst, i);
    if !ok { return None; }
    ok := CopyLocks(disk, dst, i, pre);
    if !ok { return None; }
    ghost var mid := disk.fs;
    forall p | InScope(files, p)
      ensures SameAt(pre, mid, p)
    {
      HeadsApart(dst, p);
    }
    KindsFollow(pre, mid, files);
    r := SnapshotExternalState(disk, files);
    if r.None? { return; }
    ok := PutNext(disk, dst, InstallationParts(i), EXTERNAL_STATE, FileTree(ExternalRecord(r.value)), pre);
    if !ok { return None; }
    DescribesEarlier(r.value, pre, mid, files);
  }

  method PutNext(disk: Disk, dst: Path, ghost parts: map<string, Tree>, n: string, t: Tree, ghost pre: Tree)
    returns (ok: bool)
    requires Sub(disk.fs, dst) == Directory(parts) && ChangedOnlyUnder(pre, disk.fs, dst)
    modifies disk
    ensures ChangedOnlyUnder(pre, disk.fs, dst)
    ensures ok ==> Sub(disk.fs, dst) == Directory(parts[n := t])
    ensures disk.reliable ==> ok
  {
    hide Sub, Directory;
    ghost var before := disk.fs;
    ok := PutPart(disk, dst, parts, n, t);
    ChangedBelow(before, disk.fs, dst, [n]);
    ChangesCompose(pre, before, disk.fs, dst);
  }

  /** Copies the recorded Skills or packages of the target into one directory of the point. */
  method CopyInto(disk: Disk, dst: Path, ghost parts: map<string, Tree>, n: string, source: Path,
                  lock: Content, skills: bool, ghost pre: Tree) returns (ok: bool)
    requires Sub(disk.fs, dst) == Directory(parts) && ChangedOnlyUnder(pre, disk.fs, dst)
    requires |dst| > 0 && |source| > 0 && dst[0] != source[0] && lock.InstallLock?
    modifies disk
    ensures ChangedOnlyUnder(pre, disk.fs, dst)
    ensures ok ==> var names := if skills then lock.skills else lock.packages;
                   Sub(disk.fs, dst) == Directory(parts[n := Directory(CleanTrees(pre, source, names))])
    ensures disk.reliable ==> ok
  {
    hide Sub, Directory, Clean;
    ghost var before := disk.fs;
    ok := PutNext(disk, dst, parts, n, Directory(map[]), pre);
    if !ok { return; }
    ghost var mid := disk.fs;
    var names := if skills then lock.skills else lock.packages;
    DirectoryPart(parts[n := Directory(map[])], n);
    SubOfSub(mid, dst, [n]);
    ok := CopyRecords(disk, source, names, dst + [n]);
    ChangedBelow(mid, disk.fs, dst, [n]);
    ChangesCompose(pre, mid, disk.fs, dst);
    if ok {
      SameSources(pre, mid, dst, source, names);
      PartAdded(mid, disk.fs, dst, parts[n := Directory(map[])], n, Directory(CleanTrees(mid, source, names)));
      assert parts[n := Directory(map[])][n := Directory(CleanTrees(mid, source, names))] ==
             parts[n := Directory(CleanTrees(mid, source, names))];
    }
  }

  lemma SameSources(pre: Tree, fs: Tree, dst: Path, source: Path, names: set<string>)
    requires ChangedOnlyUnder(pre, fs, dst) && |dst| > 0 && |source| > 0 && dst[0] != source[0]
    ensures CleanTrees(fs, source, names) == CleanTrees(pre, source, names)
  {
    OtherSubtrees(pre, fs, dst);
    forall n | n in names
      ensures Sub(fs, source + [n]) == Sub(pre, source + [n])
    {
      HeadsApart(dst, source + [n]);
    }
  }
}
