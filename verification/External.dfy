/** The snapshot of the external lifecycle files a transaction may touch, and its restoration.

    The scope of a snapshot is its declared files and every directory on the way to them. */
module External {
  import opened Wrappers
  import opened FileSystem
  import opened Order

  // ---------------------------------------------------------------- scope

  predicate Ancestor(d: Path, f: Path) { 0 < |d| < |f| && d <= f }

  ghost predicate ScopeDirectory(files: seq<Path>, d: Path) {
    exists f :: f in files && Ancestor(d, f)
  }

  ghost predicate InScope(files: seq<Path>, p: Path) {
    p in files || ScopeDirectory(files, p)
  }

  /** No declared file lies below another one. */
  ghost predicate PrefixFree(files: seq<Path>) {
    && (forall f | f in files :: |f| > 0)
    && (forall f | f in files :: !ScopeDirectory(files, f))
    && Unique(files)
  }

  /** The POSIX text of a relative path; the source sorts directories by it. */
  function Posix(p: Path): string {
    if p == [] then "" else if |p| == 1 then p[0] else p[0] + "/" + Posix(p[1..])
  }

  predicate PosixLess(a: Path, b: Path) { StringLess(Posix(a), Posix(b)) }

  /** The names of the path with a slash between each two. */
  lemma {:induction false} PosixJoins(p: Path, n: string)
    ensures Posix([n]) == n
    ensures p != [] ==> Posix(p + [n]) == Posix(p) + "/" + n
  {
    if |p| == 1 {
      assert (p + [n])[1..] == [n];
    } else if |p| > 1 {
      assert (p + [n])[1..] == p[1..] + [n];
      PosixJoins(p[1..], n);
      assert p[0] + "/" + (Posix(p[1..]) + "/" + n) == (p[0] + "/" + Posix(p[1..])) + "/" + n;
    }
  }

  lemma {:induction false} PosixPrefix(d: Path, f: Path)
    requires Ancestor(d, f)
    ensures Posix(d) < Posix(f)
  {
    assert f[0] == d[0];
    if |d| > 1 {
      PosixPrefix(d[1..], f[1..]);
      var left, right := d[0] + "/" + Posix(d[1..]), f[0] + "/" + Posix(f[1..]);
      assert left == Posix(d) && right == Posix(f);
      assert left == right[..|left|];
    }
  }

  lemma PosixConsistent()
    ensures Consistent(PosixLess)
  {
    StringsAreOrdered();
    TotalIsConsistent(StringLess);
  }

  /** Every directory of the scope comes after the directories that contain it. */
  ghost predicate ParentsFirst(ds: seq<Path>) {
    forall i, j | 0 <= i < j < |ds| :: !Ancestor(ds[j], ds[i])
  }

  lemma PosixSortedIsParentsFirst(ds: seq<Path>)
    requires Sorted(PosixLess, ds)
    ensures ParentsFirst(ds)
  {
    forall i, j | 0 <= i < j < |ds|
      ensures !Ancestor(ds[j], ds[i])
    {
      if Ancestor(ds[j], ds[i]) {
        PosixPrefix(ds[j], ds[i]);
        PrefixLess(Posix(ds[j]), Posix(ds[i]));
      }
    }
  }

  // ---------------------------------------------------------------- what a record says

  predicate DirectoryMatches(fs: Tree, e: DirectoryEntry) {
    match e
    case AbsentDirectory(p) => p !in fs
    case PresentDirectory(p, mode) => p in fs && fs[p] == Dir(mode)
  }

  predicate FileMatches(fs: Tree, e: FileEntry) {
    match e
    case AbsentFile(p) => p !in fs
    case PresentFile(p, content, mode) => p in fs && fs[p] == File(content, mode)
  }

  function DirectoryPaths(state: ExternalState): seq<Path> {
    seq(|state.directories|, i requires 0 <= i < |state.directories| => state.directories[i].path)
  }

  /** The record lists exactly the scope of `files`, containing directories first. */
  ghost predicate Covers(state: ExternalState, files: seq<Path>) {
    var ds := DirectoryPaths(state);
    && |state.entries| == |files|
    && (forall i | 0 <= i < |files| :: state.entries[i].path == files[i])
    && Unique(ds) && ParentsFirst(ds)
    && (forall d :: d in ds <==> ScopeDirectory(files, d))
  }

  ghost predicate Matches(fs: Tree, state: ExternalState) {
    && (forall e | e in state.directories :: DirectoryMatches(fs, e))
    && (forall e | e in state.entries :: FileMatches(fs, e))
  }

  ghost predicate Describes(state: ExternalState, fs: Tree, files: seq<Path>) {
    Covers(state, files) && Matches(fs, state)
  }

  /** Nothing in the scope is of the wrong kind. */
  ghost predicate KindsAreSafe(fs: Tree, files: seq<Path>) {
    && (forall d | ScopeDirectory(files, d) :: d in fs ==> fs[d].Dir?)
    && (forall f | f in files :: f in fs ==> fs[f].File?)
  }

  ghost predicate SameOutside(a: Tree, b: Tree, files: seq<Path>) {
    forall p | !InScope(files, p) :: SameAt(a, b, p)
  }

  /** The root and everything in a top-level entry that holds a declared file. */
  ghost predicate Near(files: seq<Path>, p: Path) {
    p == [] || exists f :: f in files && |f| > 0 && f[0] == p[0]
  }

  /** Around the scope, `fs` came from `pre` by changes to the scope's files and directories alone. */
  ghost predicate Confined(pre: Tree, fs: Tree, files: seq<Path>) {
    && (forall p | Near(files, p) && !InScope(files, p) :: SameAt(pre, fs, p))
    && KindsAreSafe(fs, files)
  }

  /** Every entry around the scope hangs in a directory. */
  ghost predicate WellFormedNear(fs: Tree, files: seq<Path>) {
    && IsDirAt(fs, [])
    && forall p | p in fs && p != [] && Near(files, p) :: IsDirAt(fs, p[..|p| - 1])
  }

  lemma {:induction false} NothingBelowMissing(fs: Tree, files: seq<Path>, d: Path, p: Path)
    requires WellFormedNear(fs, files) && ScopeDirectory(files, d) && !IsDirAt(fs, d)
    requires Under(d, p) && p != d
    ensures p !in fs
    decreases |p|
  {
    var f :| f in files && Ancestor(d, f);
    assert p[0] == d[0] == f[0] && Near(files, p);
    var parent := p[..|p| - 1];
    if parent != d {
      assert Under(d, parent);
      NothingBelowMissing(fs, files, d, parent);
    }
  }

  /** Two trees that match the same record agree on the whole scope. */
  lemma MatchingTreesAgree(state: ExternalState, a: Tree, b: Tree, files: seq<Path>)
    requires Describes(state, a, files) && Matches(b, state)
    ensures forall p | InScope(files, p) :: SameAt(a, b, p)
  {
    forall p | InScope(files, p)
      ensures SameAt(a, b, p)
    {
      if p in files {
        var i :| 0 <= i < |files| && files[i] == p;
        assert state.entries[i] in state.entries;
      } else {
        var i := DirectoryIndex(state, files, p);
        assert state.directories[i] in state.directories;
      }
    }
  }

  lemma DirectoryIndex(state: ExternalState, files: seq<Path>, d: Path) returns (i: nat)
    requires Covers(state, files) && ScopeDirectory(files, d)
    ensures i < |state.directories| && state.directories[i].path == d
  {
    var ds := DirectoryPaths(state);
    i :| 0 <= i < |ds| && ds[i] == d;
  }

  lemma DirectoryInScope(state: ExternalState, files: seq<Path>, i: nat)
    requires Covers(state, files) && i < |state.directories|
    ensures ScopeDirectory(files, state.directories[i].path)
  {
    var ds := DirectoryPaths(state);
    assert ds[i] in ds;
  }

  // ---------------------------------------------------------------- snapshot

  lemma ScopeOfOneMore(files: seq<Path>, f: Path, d: Path)
    ensures ScopeDirectory(files + [f], d) <==> ScopeDirectory(files, d) || Ancestor(d, f)
  {
    if Ancestor(d, f) { assert f in files + [f]; }
    if ScopeDirectory(files, d) {
      var g :| g in files && Ancestor(d, g);
      assert g in files + [f];
    }
  }

  /** `_snapshot_external_state`: fails exactly when something in the scope is of the wrong kind. */
  method SnapshotExternalState(disk: Disk, files: seq<Path>) returns (r: Option<ExternalState>)
    ensures r.Some? <==> KindsAreSafe(disk.fs, files)
    ensures r.Some? ==> Describes(r.value, disk.fs, files)
    ensures r.Some? ==> Sorted(PosixLess, DirectoryPaths(r.value))
  {
    var found: set<Path> := {};
    for n := 0 to |files|
      invariant forall d :: d in found <==> ScopeDirectory(files[..n], d)
    {
      var k := |files[n]|;
      while k > 1
        invariant k <= |files[n]|
        invariant forall d :: d in found <==>
          ScopeDirectory(files[..n], d) || (Ancestor(d, files[n]) && |d| >= k)
      {
        k := k - 1;
        found := found + {files[n][..k]};
        assert Ancestor(files[n][..k], files[n]);
        assert forall d | Ancestor(d, files[n]) && |d| == k :: d == files[n][..k];
      }
      assert files[..n + 1] == files[..n] + [files[n]];
      forall d { ScopeOfOneMore(files[..n], files[n], d); }
    }
    assert files[..|files|] == files;
    PosixConsistent();
    var paths := SortedSet(PosixLess, found);
    PosixSortedIsParentsFirst(paths);
    var directories: seq<DirectoryEntry> := [];
    for n := 0 to |paths|
      invariant |directories| == n
      invariant forall i | 0 <= i < n :: directories[i].path == paths[i] && DirectoryMatches(disk.fs, directories[i])
      invariant forall i | 0 <= i < n :: paths[i] in disk.fs ==> disk.fs[paths[i]].Dir?
    {
      var p := paths[n];
      if p !in disk.fs {
        directories := directories + [AbsentDirectory(p)];
      } else if disk.fs[p].File? {
        assert p in paths;
        return None;
      } else {
        directories := directories + [PresentDirectory(p, disk.fs[p].mode)];
      }
    }
    var entries: seq<FileEntry> := [];
    for n := 0 to |files|
      invariant |entries| == n
      invariant forall i | 0 <= i < n :: entries[i].path == files[i] && FileMatches(disk.fs, entries[i])
      invariant forall i | 0 <= i < n :: files[i] in disk.fs ==> disk.fs[files[i]].File?
    {
      var p := files[n];
      if p !in disk.fs {
        entries := entries + [AbsentFile(p)];
      } else if disk.fs[p].Dir? {
        assert p in files;
        return None;
      } else {
        entries := entries + [PresentFile(p, disk.fs[p].content, disk.fs[p].mode)];
      }
    }
    var state := ExternalState(directories, entries);
    assert DirectoryPaths(state) == paths;
    assert forall d | ScopeDirectory(files, d) :: d in paths;
    r := Some(state);
  }

  /** `_validate_external_target_state`. */
  method ValidateExternalTargetState(disk: Disk, state: ExternalState) returns (accepted: bool)
    ensures accepted <==> Matches(disk.fs, state)
  {
    for n := 0 to |state.directories|
      invariant forall i | 0 <= i < n :: DirectoryMatches(disk.fs, state.directories[i])
    {
      if !DirectoryMatches(disk.fs, state.directories[n]) {
        assert state.directories[n] in state.directories;
        return false;
      }
    }
    for n := 0 to |state.entries|
      invariant forall i | 0 <= i < n :: FileMatches(disk.fs, state.entries[i])
    {
      if !FileMatches(disk.fs, state.entries[n]) {
        assert state.entries[n] in state.entries;
        return false;
      }
    }
    return true;
  }

  // ---------------------------------------------------------------- restore

  predicate OnlyDirectoriesOnTheWay(fs: Tree, p: Path) {
    forall k | 0 < k <= |p| :: p[..k] in fs ==> fs[p[..k]].Dir?
  }

  /** `Path.mkdir(parents=True, exist_ok=True)`: the modes of new directories are up to the umask. */
  method MkdirParents(disk: Disk, p: Path) returns (ok: bool)
    modifies disk
    ensures ok ==> forall k | 0 < k <= |p| :: IsDirAt(disk.fs, p[..k])
    ensures forall q :: SameAt(old(disk.fs), disk.fs, q) ||
                        (0 < |q| <= |p| && q <= p && q !in old(disk.fs) && IsDirAt(disk.fs, q))
    ensures disk.reliable && IsDirAt(old(disk.fs), []) && OnlyDirectoriesOnTheWay(old(disk.fs), p) ==> ok
  {
    for n := 0 to |p|
      invariant forall k | 0 < k <= n :: IsDirAt(disk.fs, p[..k])
      invariant forall q :: SameAt(old(disk.fs), disk.fs, q) ||
                            (0 < |q| <= n && q <= p && q !in old(disk.fs) && IsDirAt(disk.fs, q))
    {
      var d := p[..n + 1];
      assert d[..n] == p[..n];
      if !IsDirAt(disk.fs, d) {
        var mode: nat := *;
        var made := disk.Mkdir(d, mode);
        if !made {
          assert SameAt(old(disk.fs), disk.fs, []);
          assert SameAt(old(disk.fs), disk.fs, d);
          return false;
        }
      }
    }
    return true;
  }

  /** `fs` differs from `before` only in the scope, and a scope path never changes its kind. */
  ghost predicate RestoreStep(before: Tree, fs: Tree, files: seq<Path>) {
    && SameOutside(before, fs, files)
    && (forall f | f in files :: SameAt(before, fs, f) || f !in fs || fs[f].File?)
    && (forall d | ScopeDirectory(files, d) :: SameAt(before, fs, d) || d !in fs || fs[d].Dir?)
  }

  /** The circumstances in which a restoration has no excuse: a reliable disk, a record of a well-formed
      tree, and changes that stayed in the scope since. */
  ghost predicate Restorable(disk: Disk, fs: Tree, state: ExternalState, files: seq<Path>, pre: Tree)
  {
    && disk.reliable
    && WellFormedNear(pre, files) && Describes(state, pre, files)
    && Confined(pre, fs, files)
  }

  lemma WayToScopeDirectory(files: seq<Path>, d: Path)
    requires ScopeDirectory(files, d)
    ensures forall k | 0 < k <= |d| :: ScopeDirectory(files, d[..k])
  {
    var f :| f in files && Ancestor(d, f);
    forall k | 0 < k <= |d|
      ensures Ancestor(d[..k], f)
    {
    }
  }

  /** Changes at directories of the scope extend a restoration step. */
  lemma StepAtDirectories(before: Tree, mid: Tree, fs: Tree, files: seq<Path>)
    requires PrefixFree(files) && RestoreStep(before, mid, files)
    requires forall q :: SameAt(mid, fs, q) || (ScopeDirectory(files, q) && (q in fs ==> fs[q].Dir?))
    ensures RestoreStep(before, fs, files)
    ensures forall f | f in files :: SameAt(mid, fs, f)
  {
  }

  lemma StillConfined(pre: Tree, before: Tree, fs: Tree, files: seq<Path>)
    requires Confined(pre, before, files) && RestoreStep(before, fs, files)
    ensures Confined(pre, fs, files)
  {
    forall p | Near(files, p) && !InScope(files, p)
      ensures SameAt(pre, fs, p)
    {
      assert SameAt(pre, before, p) && SameAt(before, fs, p);
    }
  }

  lemma RootOutsideScope(pre: Tree, fs: Tree, files: seq<Path>)
    requires PrefixFree(files) && Confined(pre, fs, files) && IsDirAt(pre, [])
    ensures IsDirAt(fs, [])
  {
    assert Near(files, []) && !InScope(files, []);
    assert SameAt(pre, fs, []);
  }

  method RestoreDirectory(disk: Disk, e: DirectoryEntry, ghost files: seq<Path>) returns (ok: bool)
    requires ScopeDirectory(files, e.path)
    modifies disk
    ensures forall q :: SameAt(old(disk.fs), disk.fs, q) || (ScopeDirectory(files, q) && IsDirAt(disk.fs, q))
    ensures forall d | IsDirAt(old(disk.fs), d) :: IsDirAt(disk.fs, d)
    ensures ok && e.PresentDirectory? ==> IsDirAt(disk.fs, e.path)
    ensures disk.reliable && IsDirAt(old(disk.fs), []) && KindsAreSafe(old(disk.fs), files) ==> ok
  {
    ok := true;
    if e.PresentDirectory? {
      if e.path !in disk.fs {
        WayToScopeDirectory(files, e.path);
        ok := MkdirParents(disk, e.path);
        assert e.path[..|e.path|] == e.path;
        assert forall q | 0 < |q| <= |e.path| && q <= e.path :: q == e.path[..|q|];
      }
      if ok && !IsDirAt(disk.fs, e.path) { return false; }
      if ok { ok := disk.Chmod(e.path, e.mode); }
    }
  }

  ghost predicate DirectoriesReady(fs: Tree, state: ExternalState) {
    forall e | e in state.directories :: e.PresentDirectory? ==> IsDirAt(fs, e.path)
  }

  ghost predicate FilesReady(fs: Tree, state: ExternalState) {
    forall e | e in state.entries :: FileMatches(fs, e)
  }

  /** First loop of `_restore_external_state`: the directories that must exist. */
  method RestoreDirectories(disk: Disk, state: ExternalState, ghost files: seq<Path>, ghost pre: Tree)
    returns (ok: bool)
    requires PrefixFree(files) && Covers(state, files)
    modifies disk
    ensures RestoreStep(old(disk.fs), disk.fs, files)
    ensures forall f | f in files :: SameAt(old(disk.fs), disk.fs, f)
    ensures ok ==> DirectoriesReady(disk.fs, state)
    ensures Restorable(disk, old(disk.fs), state, files, pre) ==> ok
  {
    ghost var before := disk.fs;
    for n := 0 to |state.directories|
      invariant RestoreStep(before, disk.fs, files)
      invariant forall f | f in files :: SameAt(before, disk.fs, f)
      invariant forall i | 0 <= i < n ::
        state.directories[i].PresentDirectory? ==> IsDirAt(disk.fs, state.directories[i].path)
    {
      DirectoryInScope(state, files, n);
      ghost var mid := disk.fs;
      var done := RestoreDirectory(disk, state.directories[n], files);
      StepAtDirectories(before, mid, disk.fs, files);
      if !done {
        if Restorable(disk, before, state, files, pre) {
          StillConfined(pre, before, mid, files);
          RootOutsideScope(pre, mid, files);
          assert false;
        }
        return false;
      }
    }
    return true;
  }

  /** Where a step of the second loop may change the tree. */
  ghost predicate FileStep(mid: Tree, fs: Tree, files: seq<Path>, f: Path) {
    && (forall q :: SameAt(mid, fs, q) || (q == f && (q in fs ==> fs[q].File?)) ||
                    (ScopeDirectory(files, q) && IsDirAt(fs, q)))
    && (forall d | IsDirAt(mid, d) :: IsDirAt(fs, d))
  }

  lemma ParentOnTheWay(files: seq<Path>, f: Path)
    requires f in files && |f| > 0
    ensures forall k | 0 < k < |f| :: ScopeDirectory(files, f[..k])
    ensures forall q | 0 < |q| <= |f| - 1 && q <= f[..|f| - 1] :: ScopeDirectory(files, q)
  {
    forall k | 0 < k < |f|
      ensures Ancestor(f[..k], f)
    {
    }
    forall q | 0 < |q| <= |f| - 1 && q <= f[..|f| - 1]
      ensures Ancestor(q, f)
    {
    }
  }

  /** `missing_parents`: the ancestors of `f` that do not exist yet, nearest first. */
  method MissingParents(disk: Disk, f: Path) returns (missing: seq<Path>)
    requires |f| > 0
    ensures forall d | d in missing :: d !in disk.fs && Ancestor(d, f)
    ensures IsDirAt(disk.fs, f[..|f| - 1]) ==> missing == []
  {
    missing := [];
    var parent := f[..|f| - 1];
    while parent != [] && parent !in disk.fs
      invariant |parent| < |f| && parent <= f
      invariant forall d | d in missing :: d !in disk.fs && Ancestor(d, f)
      invariant IsDirAt(disk.fs, f[..|f| - 1]) ==> missing == []
      invariant missing == [] ==> parent == f[..|f| - 1]
      decreases |parent|
    {
      missing := missing + [parent];
      parent := parent[..|parent| - 1];
    }
  }

  /** Nothing stands in the way of writing `f`. */
  ghost predicate ReadyFor(fs: Tree, f: Path, files: seq<Path>)
    requires |f| > 0
  {
    IsDirAt(fs, []) && KindsAreSafe(fs, files) && IsDirAt(fs, f[..|f| - 1])
  }

  method ChmodAll(disk: Disk, ds: seq<Path>, mode: nat, ghost files: seq<Path>) returns (ok: bool)
    requires forall d | d in ds :: ScopeDirectory(files, d) && IsDirAt(disk.fs, d)
    modifies disk
    ensures forall q :: SameAt(old(disk.fs), disk.fs, q) || (ScopeDirectory(files, q) && IsDirAt(disk.fs, q))
    ensures forall d | IsDirAt(old(disk.fs), d) :: IsDirAt(disk.fs, d)
    ensures ds == [] || disk.reliable ==> ok
  {
    ok := true;
    for n := 0 to |ds|
      invariant forall q :: SameAt(old(disk.fs), disk.fs, q) || (ScopeDirectory(files, q) && IsDirAt(disk.fs, q))
      invariant forall d | IsDirAt(old(disk.fs), d) :: IsDirAt(disk.fs, d)
      invariant ds == [] || disk.reliable ==> ok
    {
      assert ds[n] in ds && IsDirAt(old(disk.fs), ds[n]);
      ghost var mid := disk.fs;
      ok := disk.Chmod(ds[n], mode);
      assert forall q :: SameAt(mid, disk.fs, q) || (q == ds[n] && IsDirAt(disk.fs, q));
      if !ok { return; }
    }
  }

  /** The part of the second loop that makes sure the directory of `f` exists. */
  method PrepareParent(disk: Disk, f: Path, ghost files: seq<Path>) returns (ok: bool)
    requires PrefixFree(files) && f in files
    modifies disk
    ensures forall q :: SameAt(old(disk.fs), disk.fs, q) || (ScopeDirectory(files, q) && IsDirAt(disk.fs, q))
    ensures forall d | IsDirAt(old(disk.fs), d) :: IsDirAt(disk.fs, d)
    ensures disk.reliable && ReadyFor(old(disk.fs), f, files) ==> ok && CanCreateIn(disk.fs, f)
  {
    var parent := f[..|f| - 1];
    ParentOnTheWay(files, f);
    var missing := MissingParents(disk, f);
    ok := MkdirParents(disk, parent);
    if !ok { return; }
    assert parent != [] ==> parent[..|parent|] == parent;
    ghost var made := disk.fs;
    forall d | d in missing
      ensures ScopeDirectory(files, d) && IsDirAt(made, d)
    {
      assert d == parent[..|d|];
    }
    ok := ChmodAll(disk, missing, MANAGED_DIRECTORY_MODE, files);
  }

  method RestoreFile(disk: Disk, e: FileEntry, ghost files: seq<Path>) returns (ok: bool)
    requires PrefixFree(files) && e.path in files
    modifies disk
    ensures FileStep(old(disk.fs), disk.fs, files, e.path)
    ensures ok ==> FileMatches(disk.fs, e)
    ensures disk.reliable && e.AbsentFile? && KindsAreSafe(old(disk.fs), files) ==> ok
    ensures disk.reliable && ReadyFor(old(disk.fs), e.path, files) ==> ok
  {
    var f := e.path;
    if f in disk.fs && !disk.fs[f].File? { return false; }
    if e.AbsentFile? {
      ok := true;
      if f in disk.fs { ok := disk.Unlink(f); }
      return;
    }
    ok := PrepareParent(disk, f, files);
    if !ok { return; }
    ghost var ready := disk.fs;
    ok := disk.WriteFile(f, e.content, e.mode);
    WriteIsFileStep(old(disk.fs), ready, disk.fs, files, f);
  }

  lemma WriteIsFileStep(before: Tree, ready: Tree, fs: Tree, files: seq<Path>, f: Path)
    requires forall q :: SameAt(before, ready, q) || (ScopeDirectory(files, q) && IsDirAt(ready, q))
    requires forall d | IsDirAt(before, d) :: IsDirAt(ready, d)
    requires !IsDirAt(ready, f)
    requires fs == ready || exists c, m :: fs == ready[f := File(c, m)]
    ensures FileStep(before, fs, files, f)
  {
    forall q
      ensures SameAt(before, fs, q) || (q == f && (q in fs ==> fs[q].File?)) ||
              (ScopeDirectory(files, q) && IsDirAt(fs, q))
    {
      assert SameAt(before, ready, q) || (ScopeDirectory(files, q) && IsDirAt(ready, q));
      assert q != f ==> SameAt(ready, fs, q);
    }
    forall d | IsDirAt(before, d)
      ensures IsDirAt(fs, d)
    {
      assert d != f;
    }
  }

  /** Second loop: every declared file is brought back or removed. */
  method RestoreFiles(disk: Disk, state: ExternalState, ghost files: seq<Path>, ghost pre: Tree)
    returns (ok: bool)
    requires PrefixFree(files) && Covers(state, files)
    modifies disk
    ensures RestoreStep(old(disk.fs), disk.fs, files)
    ensures forall d | IsDirAt(old(disk.fs), d) :: IsDirAt(disk.fs, d)
    ensures ok ==> FilesReady(disk.fs, state)
    ensures Restorable(disk, old(disk.fs), state, files, pre) && DirectoriesReady(old(disk.fs), state) ==> ok
  {
    ghost var before := disk.fs;
    for n := 0 to |state.entries|
      invariant RestoreStep(before, disk.fs, files)
      invariant forall d | IsDirAt(before, d) :: IsDirAt(disk.fs, d)
      invariant forall i | 0 <= i < n :: FileMatches(disk.fs, state.entries[i])
    {
      var e := state.entries[n];
      assert e.path == files[n];
      ghost var mid := disk.fs;
      var done := RestoreFile(disk, e, files);
      StepAtFile(before, mid, disk.fs, files, n);
      if !done {
        if Restorable(disk, before, state, files, pre) && DirectoriesReady(before, state) {
          NoExcuseForFile(state, files, pre, before, mid, n);
        }
        return false;
      }
      forall i | 0 <= i < n
        ensures FileMatches(disk.fs, state.entries[i])
      {
        assert files[i] != files[n] && files[i] in files;
        assert SameAt(mid, disk.fs, files[i]);
      }
    }
    return true;
  }

  lemma StepAtFile(before: Tree, mid: Tree, fs: Tree, files: seq<Path>, n: nat)
    requires PrefixFree(files) && RestoreStep(before, mid, files)
    requires n < |files| && FileStep(mid, fs, files, files[n])
    ensures RestoreStep(before, fs, files)
  {
    assert files[n] in files;
    forall p | !InScope(files, p)
      ensures SameAt(before, fs, p)
    {
      assert SameAt(mid, fs, p);
    }
    forall f | f in files
      ensures SameAt(before, fs, f) || f !in fs || fs[f].File?
    {
      assert SameAt(before, mid, f) || f !in mid || mid[f].File?;
      assert SameAt(mid, fs, f) || f == files[n];
    }
  }

  lemma NoExcuseForFile(state: ExternalState, files: seq<Path>, pre: Tree, before: Tree, mid: Tree, n: nat)
    requires WellFormedNear(pre, files) && Describes(state, pre, files) && PrefixFree(files)
    requires Confined(pre, before, files) && DirectoriesReady(before, state)
    requires RestoreStep(before, mid, files) && forall d | IsDirAt(before, d) :: IsDirAt(mid, d)
    requires n < |files|
    ensures KindsAreSafe(mid, files)
    ensures state.entries[n].PresentFile? ==> |files[n]| > 0 && ReadyFor(mid, files[n], files)
  {
    StillConfined(pre, before, mid, files);
    RootOutsideScope(pre, mid, files);
    assert files[n] in files;
    if state.entries[n].PresentFile? {
      assert DirectoriesReady(mid, state);
      ParentIsThere(state, files, pre, mid, n);
    }
  }

  /** A file that was recorded had its directory recorded too. */
  lemma ParentIsThere(state: ExternalState, files: seq<Path>, pre: Tree, fs: Tree, n: nat)
    requires WellFormedNear(pre, files) && Describes(state, pre, files) && PrefixFree(files)
    requires n < |files| && state.entries[n].PresentFile? && IsDirAt(fs, [])
    requires DirectoriesReady(fs, state)
    ensures IsDirAt(fs, files[n][..|files[n]| - 1])
  {
    var f := files[n];
    assert f in files && state.entries[n] in state.entries && FileMatches(pre, state.entries[n]);
    var parent := f[..|f| - 1];
    assert Near(files, f) && IsDirAt(pre, parent);
    if parent != [] {
      assert Ancestor(parent, f);
      var i := DirectoryIndex(state, files, parent);
      assert state.directories[i] in state.directories;
      assert DirectoryMatches(pre, state.directories[i]);
    }
  }

  /** One directory of the record: it gets its mode, or goes. */
  method SettleDirectory(disk: Disk, e: DirectoryEntry) returns (ok: bool)
    modifies disk
    ensures forall q | q != e.path :: SameAt(old(disk.fs), disk.fs, q)
    ensures SameAt(old(disk.fs), disk.fs, e.path) || (e.path in disk.fs ==> disk.fs[e.path].Dir?)
    ensures if ok then DirectoryMatches(disk.fs, e) else disk.fs == old(disk.fs)
    ensures (disk.reliable && (e.path in old(disk.fs) ==> IsDirAt(old(disk.fs), e.path)) &&
             (if e.PresentDirectory? then e.path in old(disk.fs) else NothingBelow(old(disk.fs), e.path))) ==> ok
  {
    if e.PresentDirectory? {
      ok := IsDirAt(disk.fs, e.path);
      if ok { ok := disk.Chmod(e.path, e.mode); }
    } else if e.path in disk.fs {
      ok := IsDirAt(disk.fs, e.path);
      if ok { ok := disk.Rmdir(e.path); }
    } else {
      ok := true;
    }
  }

  /** Last loop, innermost directories first: recorded modes come back and new directories go. */
  method SettleDirectories(disk: Disk, state: ExternalState, ghost files: seq<Path>, ghost pre: Tree)
    returns (ok: bool)
    requires PrefixFree(files) && Covers(state, files)
    modifies disk
    ensures RestoreStep(old(disk.fs), disk.fs, files)
    ensures forall f | f in files :: SameAt(old(disk.fs), disk.fs, f)
    ensures ok ==> forall e | e in state.directories :: DirectoryMatches(disk.fs, e)
    ensures (Restorable(disk, old(disk.fs), state, files, pre) && DirectoriesReady(old(disk.fs), state) &&
             FilesReady(old(disk.fs), state)) ==> ok
  {
    hide Restorable, DirectoriesReady, FilesReady, Covers, PrefixFree, RestoreStep, ScopeDirectory, NothingBelow;
    ghost var before := disk.fs;
    ghost var ready := Restorable(disk, before, state, files, pre) && DirectoriesReady(before, state) && FilesReady(before, state);
    StepNowhere(before, files);
    var n := |state.directories|;
    while n > 0
      invariant 0 <= n <= |state.directories|
      invariant RestoreStep(before, disk.fs, files)
      invariant forall f | f in files :: SameAt(before, disk.fs, f)
      invariant forall i | 0 <= i < n :: SameAt(before, disk.fs, state.directories[i].path)
      invariant forall i | n <= i < |state.directories| :: DirectoryMatches(disk.fs, state.directories[i])
    {
      n := n - 1;
      var e := state.directories[n];
      ghost var mid := disk.fs;
      DirectoryIsApart(state, files, n);
      if ready { CanSettle(disk, state, files, pre, before, mid, n); }
      ok := SettleDirectory(disk, e);
      StepAtDirectories(before, mid, disk.fs, files);
      if !ok { return; }
      OthersStay(state, before, mid, disk.fs, n);
    }
    ok := true;
  }

  /** What was settled stays settled, and what is left is as before. */
  lemma OthersStay(state: ExternalState, before: Tree, mid: Tree, fs: Tree, n: nat)
    requires n < |state.directories|
    requires forall i | 0 <= i < |state.directories| && i != n :: state.directories[i].path != state.directories[n].path
    requires forall q | q != state.directories[n].path :: SameAt(mid, fs, q)
    ensures (forall i | 0 <= i < n :: SameAt(before, mid, state.directories[i].path)) ==>
              forall i | 0 <= i < n :: SameAt(before, fs, state.directories[i].path)
    ensures (forall i | n < i < |state.directories| :: DirectoryMatches(mid, state.directories[i])) ==>
              forall i | n < i < |state.directories| :: DirectoryMatches(fs, state.directories[i])
  {
    forall i | 0 <= i < |state.directories| && i != n
      ensures SameAt(mid, fs, state.directories[i].path)
    {
    }
  }

  lemma StepNowhere(fs: Tree, files: seq<Path>)
    ensures RestoreStep(fs, fs, files)
  {
  }

  /** A recorded directory is in the scope, is no declared file, and is recorded once. */
  lemma DirectoryIsApart(state: ExternalState, files: seq<Path>, n: nat)
    requires PrefixFree(files) && Covers(state, files) && n < |state.directories|
    ensures ScopeDirectory(files, state.directories[n].path) && state.directories[n].path !in files
    ensures forall i | 0 <= i < |state.directories| && i != n :: state.directories[i].path != state.directories[n].path
  {
    DirectoryInScope(state, files, n);
    var ds := DirectoryPaths(state);
    assert forall i | 0 <= i < |ds| && i != n :: ds[i] != ds[n] && ds[i] == state.directories[i].path;
  }

  /** The next directory can be given its mode or removed. */
  lemma CanSettle(disk: Disk, state: ExternalState, files: seq<Path>, pre: Tree, before: Tree, mid: Tree, n: nat)
    requires PrefixFree(files) && Covers(state, files) && n < |state.directories|
    requires Restorable(disk, before, state, files, pre) && DirectoriesReady(before, state) && FilesReady(before, state)
    requires RestoreStep(before, mid, files) && forall f | f in files :: SameAt(before, mid, f)
    requires SameAt(before, mid, state.directories[n].path)
    requires forall i | n < i < |state.directories| :: DirectoryMatches(mid, state.directories[i])
    ensures var e := state.directories[n];
            && disk.reliable && (e.path in mid ==> IsDirAt(mid, e.path))
            && if e.PresentDirectory? then e.path in mid else NothingBelow(mid, e.path)
  {
    StillConfined(pre, before, mid, files);
    DirectoryInScope(state, files, n);
    var e := state.directories[n];
    assert e in state.directories;
    hide FilesReady, Covers, Matches, NothingBelow, RestoreStep, PrefixFree;
    if e.AbsentDirectory? { NewDirectoryIsEmpty(state, files, pre, before, mid, n); }
  }

  lemma NearScope(files: seq<Path>, d: Path, p: Path)
    requires ScopeDirectory(files, d) && Under(d, p)
    ensures Near(files, p)
  {
    var f :| f in files && Ancestor(d, f);
    assert p[0] == d[0] == f[0];
  }

  /** When the last loop reaches a directory that must go, everything in it has gone. */
  lemma NewDirectoryIsEmpty(state: ExternalState, files: seq<Path>, pre: Tree, before: Tree, mid: Tree, n: nat)
    requires PrefixFree(files) && WellFormedNear(pre, files) && Describes(state, pre, files)
    requires Confined(pre, mid, files)
    requires forall f | f in files :: SameAt(before, mid, f)
    requires FilesReady(before, state)
    requires n < |state.directories| && state.directories[n].AbsentDirectory?
    requires forall i | n < i < |state.directories| :: DirectoryMatches(mid, state.directories[i])
    ensures NothingBelow(mid, state.directories[n].path)
  {
    var d := state.directories[n].path;
    assert state.directories[n] in state.directories && DirectoryMatches(pre, state.directories[n]);
    DirectoryInScope(state, files, n);
    forall p | Under(d, p) && p != d
      ensures p !in mid
    {
      NothingBelowMissing(pre, files, d, p);
      NearScope(files, d, p);
      if p in files {
        var i :| 0 <= i < |files| && files[i] == p;
        assert state.entries[i] in state.entries && FileMatches(pre, state.entries[i]);
        assert FileMatches(before, state.entries[i]) && SameAt(before, mid, p);
      } else if ScopeDirectory(files, p) {
        var i := DirectoryIndex(state, files, p);
        assert state.directories[i] in state.directories && DirectoryMatches(pre, state.directories[i]);
        var ds := DirectoryPaths(state);
        assert ds[n] == d && ds[i] == p && Ancestor(ds[n], ds[i]);
        assert n < i;
      } else {
        assert SameAt(pre, mid, p);
      }
    }
  }

  /** `_restore_external_state`.  Success means the record holds again; whatever happens, only the scope
      changes; and on a reliable disk it cannot fail when only the scope changed since the snapshot. */
  method RestoreExternalState(disk: Disk, state: ExternalState, ghost files: seq<Path>, ghost pre: Tree)
    returns (ok: bool)
    requires PrefixFree(files) && Covers(state, files)
    modifies disk
    ensures ok ==> Matches(disk.fs, state)
    ensures RestoreStep(old(disk.fs), disk.fs, files)
    ensures Restorable(disk, old(disk.fs), state, files, pre) ==> ok
  {
    ghost var before := disk.fs;
    ok := RestoreDirectories(disk, state, files, pre);
    if !ok { return; }
    ghost var first := disk.fs;
    if Restorable(disk, before, state, files, pre) { StillConfined(pre, before, first, files); }
    ok := RestoreFiles(disk, state, files, pre);
    ghost var second := disk.fs;
    StepsCompose(before, first, second, files);
    if !ok { return; }
    if Restorable(disk, before, state, files, pre) { StillConfined(pre, before, second, files); }
    ok := SettleDirectories(disk, state, files, pre);
    StepsCompose(before, second, disk.fs, files);
    if ok {
      forall e | e in state.entries
        ensures FileMatches(disk.fs, e)
      {
        var i :| 0 <= i < |state.entries| && state.entries[i] == e;
        assert files[i] in files && SameAt(second, disk.fs, files[i]);
      }
    }
  }

  lemma StepsCompose(a: Tree, b: Tree, c: Tree, files: seq<Path>)
    requires RestoreStep(a, b, files) && RestoreStep(b, c, files)
    ensures RestoreStep(a, c, files)
  {
    forall p | !InScope(files, p)
      ensures SameAt(a, c, p)
    {
      assert SameAt(a, b, p) && SameAt(b, c, p);
    }
    forall f | f in files
      ensures SameAt(a, c, f) || f !in c || c[f].File?
    {
      assert SameAt(b, c, f) || f !in c || c[f].File?;
      assert SameAt(a, b, f) || f !in b || b[f].File?;
    }
    forall d | ScopeDirectory(files, d)
      ensures SameAt(a, c, d) || d !in c || c[d].Dir?
    {
      assert SameAt(b, c, d) || d !in c || c[d].Dir?;
      assert SameAt(a, b, d) || d !in b || b[d].Dir?;
    }
  }

  /** Snapshot then restore is the identity: whatever happened inside the scope in between, a restoration
      that reports success brings the whole tree back. */
  lemma RestoreUndoes(state: ExternalState, pre: Tree, changed: Tree, restored: Tree, files: seq<Path>)
    requires Describes(state, pre, files)
    requires SameOutside(pre, changed, files)
    requires RestoreStep(changed, restored, files) && Matches(restored, state)
    ensures restored == pre
  {
    MatchingTreesAgree(state, pre, restored, files);
    forall p
      ensures SameAt(pre, restored, p)
    {
      if !InScope(files, p) { assert SameAt(pre, changed, p) && SameAt(changed, restored, p); }
    }
    SameEverywhere(pre, restored);
  }

  /** The round trip as one run: snapshot, arbitrary changes inside the scope, restore, validate. */
  method SnapshotChangeRestore(disk: Disk, files: seq<Path>, changed: Tree) returns (accepted: bool)
    requires PrefixFree(files) && WellFormed(disk.fs) && disk.reliable
    requires KindsAreSafe(disk.fs, files)
    requires SameOutside(disk.fs, changed, files) && KindsAreSafe(changed, files)
    modifies disk
    ensures disk.fs == old(disk.fs)
    ensures accepted
  {
    ghost var pre := disk.fs;
    var r := SnapshotExternalState(disk, files);
    disk.fs := changed;
    var ok := RestoreExternalState(disk, r.value, files, pre);
    RestoreUndoes(r.value, pre, changed, disk.fs, files);
    accepted := ValidateExternalTargetState(disk, r.value);
  }
}
