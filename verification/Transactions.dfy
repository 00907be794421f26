/** The swap of the managed roots and its undoing, shared by installation and rollback. */
module Transactions {
  import opened FileSystem
  import opened Installations
  import opened Order

  predicate IsRoot(n: string) { n in MANAGED_ROOTS }

  /** The names `mkdtemp` chose for the stage and the backup, and the directories it made. */
  ghost predicate Prepared(fs: Tree, stage: string, backup: string) {
    && Fresh(stage, backup)
    && IsDirAt(fs, []) && IsDirAt(fs, [stage]) && IsDirAt(fs, [backup])
  }

  predicate Fresh(stage: string, backup: string) {
    stage != backup && !IsRoot(stage) && !IsRoot(backup)
  }

  /** A path no swap touches. */
  predicate Elsewhere(p: Path, stage: string, backup: string) {
    p == [] || (!IsRoot(p[0]) && p[0] != stage && p[0] != backup)
  }

  /** How far a swap has come.  `pre` is the tree before it began. */
  ghost predicate SwapState(pre: Tree, fs: Tree, stage: string, backup: string,
                            movedExisting: seq<string>, movedNew: seq<string>) {
    && Prepared(fs, stage, backup)
    && (forall p | Elsewhere(p, stage, backup) || p == [backup] :: SameAt(pre, fs, p))
    && (forall n | n in movedExisting :: IsRoot(n) && [n] in pre)
    && (forall n | n in movedNew :: IsRoot(n) && (n in movedExisting <==> [n] in pre))
    && (forall n | IsRoot(n) :: RootState(pre, fs, stage, backup, n, n in movedExisting, n in movedNew))
  }

  /** Where the old and the new tree of one root are. */
  ghost predicate RootState(pre: Tree, fs: Tree, stage: string, backup: string, n: string, out: bool, into: bool) {
    && (if out then Sub(fs, [backup, n]) == Sub(pre, [n]) else Sub(fs, [backup, n]) == map[])
    && (if into then Sub(fs, [n]) == Sub(pre, [stage, n])
        else Sub(fs, [stage, n]) == Sub(pre, [stage, n]) &&
             Sub(fs, [n]) == if out then map[] else Sub(pre, [n]))
  }

  /** What an undo relies on: every old root is at its place or in the backup. */
  ghost predicate BackupHolds(pre: Tree, fs: Tree, backup: string, movedExisting: seq<string>, movedNew: seq<string>) {
    && IsDirAt(fs, []) && IsDirAt(fs, [backup]) && !IsRoot(backup)
    && (forall n | n in movedExisting :: IsRoot(n) && [n] in pre)
    && (forall n | n in movedNew :: IsRoot(n))
    && (forall n | IsRoot(n) :: Recoverable(pre, fs, backup, n, n in movedExisting, n in movedNew))
  }

  ghost predicate Recoverable(pre: Tree, fs: Tree, backup: string, n: string, out: bool, into: bool) {
    if out then Sub(fs, [backup, n]) == Sub(pre, [n]) && (into || Sub(fs, [n]) == map[])
    else if into then Sub(pre, [n]) == map[]
    else Sub(fs, [n]) == Sub(pre, [n])
  }

  /** Every root that existed is whole, at its place or in the backup. */
  ghost predicate Conserved(pre: Tree, fs: Tree, backup: string) {
    forall n | IsRoot(n) && [n] in pre ::
      Sub(fs, [n]) == Sub(pre, [n]) || Sub(fs, [backup, n]) == Sub(pre, [n])
  }

  ghost predicate RootsAreBack(pre: Tree, fs: Tree) {
    forall n | IsRoot(n) :: Sub(fs, [n]) == Sub(pre, [n])
  }

  lemma TopLevelApart(a: string, p: Path)
    requires |p| > 0 && p[0] != a
    ensures Apart([a], p) && Apart(p, [a])
  {
  }

  lemma RootPathsApart(stage: string, backup: string, n: string, m: string)
    requires Fresh(stage, backup) && IsRoot(n) && IsRoot(m)
    ensures Apart([n], [backup, m]) && Apart([backup, m], [n]) && Apart([stage, n], [m]) && Apart([n], [stage, m])
    ensures Apart([stage, n], [backup, m]) && Apart([backup, n], [stage, m])
    ensures n != m ==> Apart([n], [m]) && Apart([backup, n], [backup, m]) && Apart([stage, n], [stage, m])
  {
    TopLevelApart(n, [backup, m]);
    TopLevelApart(m, [stage, n]);
    TopLevelApart(n, [stage, m]);
    assert [stage, n][0] == stage && [backup, m][0] == backup && [backup, n][1] == n && [backup, m][1] == m;
    assert [stage, m][0] == stage && [stage, n][1] == n && [stage, m][1] == m && [backup, n][0] == backup;
  }

  lemma MovedOut(pre: Tree, fs: Tree, stage: string, backup: string, n: string,
                 movedExisting: seq<string>, movedNew: seq<string>)
    requires SwapState(pre, fs, stage, backup, movedExisting, movedNew)
    requires IsRoot(n) && n !in movedExisting && n !in movedNew && [n] in fs
    ensures Apart([n], [backup, n])
    ensures SwapState(pre, Moved(fs, [n], [backup, n]), stage, backup, movedExisting + [n], movedNew)
  {
    hide Sub, Moved, IsRoot;
    RootPathsApart(stage, backup, n, n);
    var fs' := Moved(fs, [n], [backup, n]);
    MovedEnds(fs, [n], [backup, n]);
    assert RootState(pre, fs, stage, backup, n, false, false);
    TreeRootThere(pre, fs, n);
    forall m | IsRoot(m)
      ensures RootState(pre, fs', stage, backup, m, m in movedExisting + [n], m in movedNew)
    {
      assert RootState(pre, fs, stage, backup, m, m in movedExisting, m in movedNew);
      RootPathsApart(stage, backup, n, m);
      RootPathsApart(stage, backup, m, n);
      MovedApart(fs, [n], [backup, n], [stage, m]);
      if m != n {
        MovedApart(fs, [n], [backup, n], [m]);
        MovedApart(fs, [n], [backup, n], [backup, m]);
      }
    }
    StaysElsewhere(pre, fs, stage, backup, [n], [backup, n], movedExisting, movedNew);
  }

  /** The kinds of path a swap moves. */
  predicate SwapPath(q: Path, stage: string, backup: string) {
    (|q| == 1 && IsRoot(q[0])) || (|q| == 2 && (q[0] == stage || q[0] == backup))
  }

  lemma UnderHead(q: Path, p: Path)
    requires |q| > 0
    ensures Under(q, p) ==> |p| >= |q| && p[0] == q[0]
  {
  }

  lemma NotUnder(q: Path, p: Path, stage: string, backup: string)
    requires Fresh(stage, backup) && SwapPath(q, stage, backup)
    requires Elsewhere(p, stage, backup) || p == [backup] || p == [stage]
    ensures !Under(q, p)
  {
    UnderHead(q, p);
  }

  lemma StaysElsewhere(pre: Tree, fs: Tree, stage: string, backup: string, src: Path, dst: Path,
                       movedExisting: seq<string>, movedNew: seq<string>)
    requires SwapState(pre, fs, stage, backup, movedExisting, movedNew) && Apart(src, dst)
    requires SwapPath(src, stage, backup) && SwapPath(dst, stage, backup)
    ensures Prepared(Moved(fs, src, dst), stage, backup)
    ensures forall p | Elsewhere(p, stage, backup) || p == [backup] :: SameAt(pre, Moved(fs, src, dst), p)
  {
    hide Sub, Moved, IsRoot;
    forall p | Elsewhere(p, stage, backup) || p == [backup] || p == [stage]
      ensures SameAt(fs, Moved(fs, src, dst), p)
    {
      NotUnder(src, p, stage, backup);
      NotUnder(dst, p, stage, backup);
      MovedElsewhere(fs, src, dst, p);
    }
    assert SameAt(fs, Moved(fs, src, dst), []) && SameAt(fs, Moved(fs, src, dst), [stage]);
    assert SameAt(fs, Moved(fs, src, dst), [backup]);
    forall p | Elsewhere(p, stage, backup) || p == [backup]
      ensures SameAt(pre, Moved(fs, src, dst), p)
    {
      assert SameAt(pre, fs, p) && SameAt(fs, Moved(fs, src, dst), p);
    }
  }

  lemma TreeRootThere(pre: Tree, fs: Tree, n: string)
    requires Sub(fs, [n]) == Sub(pre, [n])
    ensures [n] in fs <==> [n] in pre
  {
    TreeRoot(fs, [n], Sub(fs, [n]));
    TreeRoot(pre, [n], Sub(pre, [n]));
  }

  lemma MovedIn(pre: Tree, fs: Tree, stage: string, backup: string, n: string,
                movedExisting: seq<string>, movedNew: seq<string>)
    requires SwapState(pre, fs, stage, backup, movedExisting, movedNew)
    requires IsRoot(n) && n !in movedNew && (n in movedExisting <==> [n] in pre)
    ensures Apart([stage, n], [n])
    ensures SwapState(pre, Moved(fs, [stage, n], [n]), stage, backup, movedExisting, movedNew + [n])
  {
    hide Sub, Moved, IsRoot;
    RootPathsApart(stage, backup, n, n);
    var fs' := Moved(fs, [stage, n], [n]);
    MovedEnds(fs, [stage, n], [n]);
    assert RootState(pre, fs, stage, backup, n, n in movedExisting, false);
    forall m | IsRoot(m)
      ensures RootState(pre, fs', stage, backup, m, m in movedExisting, m in movedNew + [n])
    {
      assert RootState(pre, fs, stage, backup, m, m in movedExisting, m in movedNew);
      RootPathsApart(stage, backup, n, m);
      RootPathsApart(stage, backup, m, n);
      MovedApart(fs, [stage, n], [n], [backup, m]);
      if m != n {
        MovedApart(fs, [stage, n], [n], [m]);
        MovedApart(fs, [stage, n], [n], [stage, m]);
      }
    }
    StaysElsewhere(pre, fs, stage, backup, [stage, n], [n], movedExisting, movedNew);
  }

  /** Every new root is staged, and the old ones are there if they must be. */
  ghost predicate Swappable(pre: Tree, stage: string, mustExist: bool) {
    forall n | IsRoot(n) :: [stage, n] in pre && (mustExist ==> [n] in pre)
  }

  /** The swap loop of `install_bundle` and `_rollback_install`.  Installation moves an old root only
      where there is one; rollback insists on finding it. */
  method SwapRoots(disk: Disk, stage: string, backup: string, mustExist: bool)
    returns (ok: bool, movedExisting: seq<string>, movedNew: seq<string>)
    requires Prepared(disk.fs, stage, backup)
    requires forall n | IsRoot(n) :: Sub(disk.fs, [backup, n]) == map[]
    modifies disk
    ensures SwapState(old(disk.fs), disk.fs, stage, backup, movedExisting, movedNew)
    ensures ok ==> movedNew == MANAGED_ROOTS
    ensures Unique(movedExisting) && Unique(movedNew)
    ensures disk.reliable && Swappable(old(disk.fs), stage, mustExist) ==> ok
  {
    hide Sub, Moved, IsRoot;
    ghost var pre := disk.fs;
    movedExisting, movedNew := [], [];
    for k := 0 to |MANAGED_ROOTS|
      invariant SwapState(pre, disk.fs, stage, backup, movedExisting, movedNew)
      invariant movedNew == MANAGED_ROOTS[..k]
      invariant forall n | n in movedExisting :: n in movedNew
      invariant Unique(movedExisting) && Unique(movedNew)
    {
      var n := MANAGED_ROOTS[k];
      NextRootIsNew(k);
      RootPathsApart(stage, backup, n, n);
      assert RootState(pre, disk.fs, stage, backup, n, false, false);
      TreeRootThere(pre, disk.fs, n);
      if [n] in disk.fs || mustExist {
        if [n] in disk.fs {
          MovedOut(pre, disk.fs, stage, backup, n, movedExisting, movedNew);
          FreeForOld(pre, disk.fs, stage, backup, n, movedExisting, movedNew);
        }
        var moved := disk.Replace([n], [backup, n]);
        if !moved { return false, movedExisting, movedNew; }
        movedExisting := movedExisting + [n];
      }
      if Swappable(pre, stage, mustExist) { FreeForStaged(pre, disk.fs, stage, backup, n, movedExisting, movedNew); }
      MovedIn(pre, disk.fs, stage, backup, n, movedExisting, movedNew);
      var placed := disk.Replace([stage, n], [n]);
      if !placed { return false, movedExisting, movedNew; }
      movedNew := movedNew + [n];
      assert MANAGED_ROOTS[..k + 1] == MANAGED_ROOTS[..k] + [n];
    }
    assert MANAGED_ROOTS[..|MANAGED_ROOTS|] == MANAGED_ROOTS;
    ok := true;
  }

  /** An old root that is still there can be moved into the backup. */
  lemma FreeForOld(pre: Tree, fs: Tree, stage: string, backup: string, n: string,
                   movedExisting: seq<string>, movedNew: seq<string>)
    requires SwapState(pre, fs, stage, backup, movedExisting, movedNew)
    requires IsRoot(n) && n !in movedExisting && n !in movedNew && [n] in fs
    ensures CanReplace(fs, [n], [backup, n])
  {
    hide Sub, IsRoot;
    assert RootState(pre, fs, stage, backup, n, false, false);
    TreeRoot(fs, [backup, n], Sub(fs, [backup, n]));
    assert [backup, n][..1] == [backup];
  }

  /** With the old root away, the staged one can take its place. */
  lemma FreeForStaged(pre: Tree, fs: Tree, stage: string, backup: string, n: string,
                      movedExisting: seq<string>, movedNew: seq<string>)
    requires SwapState(pre, fs, stage, backup, movedExisting, movedNew)
    requires IsRoot(n) && n !in movedNew && [stage, n] in pre && ([n] in pre ==> n in movedExisting)
    ensures CanReplace(fs, [stage, n], [n])
  {
    hide Sub, IsRoot;
    assert RootState(pre, fs, stage, backup, n, n in movedExisting, false);
    TreeRootAt(fs, [stage, n], pre, [stage, n]);
    TreeRoot(fs, [n], Sub(fs, [n]));
    TreeRoot(pre, [n], Sub(pre, [n]));
    assert [n][..0] == [];
  }

  lemma NextRootIsNew(k: nat)
    requires k < |MANAGED_ROOTS|
    ensures MANAGED_ROOTS[k] !in MANAGED_ROOTS[..k] && IsRoot(MANAGED_ROOTS[k])
  {
    assert AGENTS[0] == 'A' && SKILLS[0] == 's' && STATE[0] == '.';
  }

  /** A swap in any state can be undone, as long as the new roots are all that changes afterwards. */
  lemma SwapIsRecoverable(pre: Tree, fs: Tree, stage: string, backup: string,
                          movedExisting: seq<string>, movedNew: seq<string>)
    requires SwapState(pre, fs, stage, backup, movedExisting, movedNew)
    requires forall n | IsRoot(n) :: Rooted(pre, n)
    ensures BackupHolds(pre, fs, backup, movedExisting, movedNew)
  {
    forall n | IsRoot(n)
      ensures Recoverable(pre, fs, backup, n, n in movedExisting, n in movedNew)
    {
      assert RootState(pre, fs, stage, backup, n, n in movedExisting, n in movedNew);
    }
  }

  lemma WellFormedIsRooted(fs: Tree, n: string)
    requires WellFormed(fs)
    ensures Rooted(fs, n)
  {
    if [n] !in fs {
      forall q
        ensures [n] + q !in fs
      {
        if q != [] { NothingBelowNonDirectory(fs, [n], [n] + q); }
        assert q == [] ==> [n] + q == [n];
      }
    }
  }

  // ---------------------------------------------------------------- undo

  /** Nothing lies below a root that does not exist. */
  ghost predicate Rooted(fs: Tree, n: string) { [n] !in fs ==> Sub(fs, [n]) == map[] }

  /** `fs` is `start` except at or below the given top-level names. */
  ghost predicate OnlyTopLevel(start: Tree, fs: Tree, names: seq<string>) {
    forall p | p == [] || p[0] !in names :: SameAt(start, fs, p)
  }

  lemma OtherTopLevel(start: Tree, fs: Tree, names: seq<string>, o: Path)
    requires OnlyTopLevel(start, fs, names) && |o| > 0 && o[0] !in names
    ensures Sub(fs, o) == Sub(start, o)
  {
    forall q
      ensures SameAt(start, fs, o + q)
    {
      assert (o + q)[0] == o[0];
    }
    SameSubtree(start, o, fs, o);
  }

  lemma SameSubtree(a: Tree, p: Path, b: Tree, r: Path)
    requires forall q :: (p + q in a <==> r + q in b) && (p + q in a ==> a[p + q] == b[r + q])
    ensures Sub(a, p) == Sub(b, r)
  {
    var s, t := Sub(a, p), Sub(b, r);
    forall q
      ensures SameAt(s, t, q)
    {
      assert p + q in a <==> r + q in b;
    }
    SameEverywhere(s, t);
  }

  /** How far the removal of the new roots has come. */
  ghost predicate RemovalState(start: Tree, fs: Tree, names: seq<string>, k: int, clean: bool) {
    && 0 <= k <= |names|
    && OnlyTopLevel(start, fs, names)
    && (forall j | 0 <= j < k :: Rooted(fs, names[j]))
    && (clean ==> forall j | k <= j < |names| :: Sub(fs, [names[j]]) == map[])
  }

  lemma RemovalStep(start: Tree, before: Tree, fs: Tree, names: seq<string>, k: nat, clean: bool, removed: bool)
    requires RemovalState(start, before, names, k + 1, clean) && Unique(names)
    requires PartlyRemoved(before, fs, [names[k]])
    requires removed ==> (fs == before && [names[k]] !in before) || fs == Without(before, [names[k]])
    ensures RemovalState(start, fs, names, k, clean && removed)
  {
    hide Sub, Without;
    var n := names[k];
    assert n in names;
    forall p | p == [] || p[0] !in names
      ensures SameAt(start, fs, p)
    {
      UnderHead([n], p);
      assert SameAt(start, before, p) && SameAt(before, fs, p);
    }
    forall j | 0 <= j < |names| && j != k
      ensures Sub(fs, [names[j]]) == Sub(before, [names[j]])
      ensures Rooted(before, names[j]) ==> Rooted(fs, names[j])
    {
      assert names[j] != names[k];
      TopLevelApart(n, [names[j]]);
      SubApart(before, fs, [n], [names[j]]);
      TreeRootAt(before, [names[j]], fs, [names[j]]);
    }
    WithoutIsEmpty(before, [n]);
  }

  /** What was removed stays removed while the next root goes. */
  lemma RemovedStay(before: Tree, fs: Tree, names: seq<string>, k: nat, removed: bool)
    requires Unique(names) && k < |names| && PartlyRemoved(before, fs, [names[k]])
    requires removed ==> (fs == before && [names[k]] !in before && Rooted(before, names[k])) || fs == Without(before, [names[k]])
    ensures forall j | 0 <= j < |names| && j != k :: Sub(fs, [names[j]]) == Sub(before, [names[j]])
    ensures removed ==> Sub(fs, [names[k]]) == map[]
  {
    hide Sub, Without;
    forall j | 0 <= j < |names| && j != k
      ensures Sub(fs, [names[j]]) == Sub(before, [names[j]])
    {
      TopLevelApart(names[k], [names[j]]);
      SubApart(before, fs, [names[k]], [names[j]]);
    }
    WithoutIsEmpty(before, [names[k]]);
  }

  lemma TreeRootAt(a: Tree, p: Path, b: Tree, q: Path)
    requires Sub(a, p) == Sub(b, q)
    ensures p in a <==> q in b
  {
    TreeRoot(a, p, Sub(a, p));
    TreeRoot(b, q, Sub(b, q));
  }

  /** The first recovery loop: the new roots go, last one first. */
  method RemoveNew(disk: Disk, movedNew: seq<string>) returns (clean: bool, ghost failed: set<string>)
    requires Unique(movedNew) && forall n | n in movedNew :: Rooted(disk.fs, n)
    modifies disk
    ensures RemovalState(old(disk.fs), disk.fs, movedNew, 0, clean)
    ensures disk.reliable ==> clean
    ensures |failed| <= disk.failures - old(disk.failures)
    ensures forall n | n in movedNew && n !in failed :: Sub(disk.fs, [n]) == map[]
  {
    hide Sub, Without, PartlyRemoved;
    ghost var start, failures := disk.fs, disk.failures;
    clean, failed := true, {};
    var k := |movedNew|;
    while k > 0
      invariant RemovalState(start, disk.fs, movedNew, k, clean)
      invariant disk.reliable ==> clean
      invariant |failed| <= disk.failures - failures
      invariant forall j | k <= j < |movedNew| && movedNew[j] !in failed :: Sub(disk.fs, [movedNew[j]]) == map[]
    {
      k := k - 1;
      var removed := true;
      ghost var before := disk.fs;
      if [movedNew[k]] in disk.fs {
        removed := disk.Remove([movedNew[k]]);
      } else {
        NothingRemoved(before, [movedNew[k]]);
      }
      RemovalStep(start, before, disk.fs, movedNew, k, clean, removed);
      RemovedStay(before, disk.fs, movedNew, k, removed);
      if !removed { failed := failed + {movedNew[k]}; }
      clean := clean && removed;
    }
  }

  lemma NothingRemoved(fs: Tree, root: Path)
    ensures PartlyRemoved(fs, fs, root)
  {
  }

  /** How far the return of the old roots has come. */
  ghost predicate ReturnState(pre: Tree, start: Tree, fs: Tree, backup: string, names: seq<string>, k: int, clean: bool) {
    && 0 <= k <= |names|
    && IsDirAt(fs, []) && IsDirAt(fs, [backup])
    && (forall p | p == [] || (!IsRoot(p[0]) && p[0] != backup) :: SameAt(start, fs, p))
    && (forall n | IsRoot(n) && n !in names :: Sub(fs, [n]) == Sub(start, [n]))
    && (forall j | 0 <= j < k ::
          Sub(fs, [names[j]]) == Sub(start, [names[j]]) && Sub(fs, [backup, names[j]]) == Sub(pre, [names[j]]))
    && (forall j | k <= j < |names| ::
          Sub(fs, [names[j]]) == Sub(pre, [names[j]]) ||
          (!clean && Sub(fs, [backup, names[j]]) == Sub(pre, [names[j]])))
  }

  ghost predicate OldRoots(pre: Tree, backup: string, names: seq<string>) {
    && !IsRoot(backup) && Unique(names)
    && forall j | 0 <= j < |names| :: IsRoot(names[j]) && [names[j]] in pre
  }

  lemma ReturnStep(pre: Tree, start: Tree, before: Tree, fs: Tree, backup: string, names: seq<string>, k: nat, clean: bool)
    requires OldRoots(pre, backup, names)
    requires ReturnState(pre, start, before, backup, names, k + 1, clean)
    requires Apart([backup, names[k]], [names[k]]) && fs == Moved(before, [backup, names[k]], [names[k]])
    ensures ReturnState(pre, start, fs, backup, names, k, clean)
  {
    hide Sub, Moved, IsRoot, CanReplace;
    var n := names[k];
    MovedEnds(before, [backup, n], [n]);
    forall m | IsRoot(m) && m != n
      ensures Sub(fs, [m]) == Sub(before, [m]) && Sub(fs, [backup, m]) == Sub(before, [backup, m])
    {
      TopLevelApart(m, [backup, n]);
      TopLevelApart(n, [backup, m]);
      assert [backup, n][1] == n && [backup, m][1] == m;
      MovedApart(before, [backup, n], [n], [m]);
      MovedApart(before, [backup, n], [n], [backup, m]);
    }
    forall p | p == [] || p == [backup] || (!IsRoot(p[0]) && p[0] != backup)
      ensures SameAt(before, fs, p)
    {
      UnderHead([backup, n], p);
      UnderHead([n], p);
      MovedElsewhere(before, [backup, n], [n], p);
    }
    assert SameAt(before, fs, []) && SameAt(before, fs, [backup]);
    forall p | p == [] || (!IsRoot(p[0]) && p[0] != backup)
      ensures SameAt(start, fs, p)
    {
      assert SameAt(start, before, p) && SameAt(before, fs, p);
    }
  }

  lemma ReturnedStay(pre: Tree, before: Tree, fs: Tree, backup: string, names: seq<string>, k: nat)
    requires OldRoots(pre, backup, names) && k < |names|
    requires Sub(before, [backup, names[k]]) == Sub(pre, [names[k]])
    requires Apart([backup, names[k]], [names[k]]) && fs == Moved(before, [backup, names[k]], [names[k]])
    ensures Sub(fs, [names[k]]) == Sub(pre, [names[k]])
    ensures forall j | 0 <= j < |names| && j != k :: Sub(fs, [names[j]]) == Sub(before, [names[j]])
  {
    hide Sub, Moved, IsRoot;
    var n := names[k];
    MovedEnds(before, [backup, n], [n]);
    forall j | 0 <= j < |names| && j != k
      ensures Sub(fs, [names[j]]) == Sub(before, [names[j]])
    {
      TopLevelApart(names[j], [backup, n]);
      TopLevelApart(n, [names[j]]);
      MovedApart(before, [backup, n], [n], [names[j]]);
    }
  }

  /** The second recovery loop: the old roots come back from the backup. */
  method RestoreExisting(disk: Disk, backup: string, movedExisting: seq<string>, ghost pre: Tree)
    returns (clean: bool, ghost failed: set<string>)
    requires OldRoots(pre, backup, movedExisting)
    requires ReturnState(pre, disk.fs, disk.fs, backup, movedExisting, |movedExisting|, true)
    modifies disk
    ensures ReturnState(pre, old(disk.fs), disk.fs, backup, movedExisting, 0, clean)
    ensures disk.reliable && (forall n | n in movedExisting :: [n] !in old(disk.fs)) ==> clean
    ensures |failed| <= disk.failures - old(disk.failures)
    ensures forall n | n in movedExisting && n !in failed :: Sub(disk.fs, [n]) == Sub(pre, [n])
  {
    hide Sub, Moved, IsRoot;
    ghost var start, failures := disk.fs, disk.failures;
    clean, failed := true, {};
    var k := |movedExisting|;
    while k > 0
      invariant ReturnState(pre, start, disk.fs, backup, movedExisting, k, clean)
      invariant |failed| <= disk.failures - failures
      invariant forall j | k <= j < |movedExisting| && movedExisting[j] !in failed ::
        Sub(disk.fs, [movedExisting[j]]) == Sub(pre, [movedExisting[j]])
      invariant disk.reliable && (forall n | n in movedExisting :: [n] !in start) ==> clean
    {
      k := k - 1;
      var n := movedExisting[k];
      ghost var before := disk.fs;
      TopLevelApart(n, [backup, n]);
      TreeRootAt(before, [backup, n], pre, [n]);
      TreeRootAt(before, [n], start, [n]);
      assert n in movedExisting && [n][..0] == [];
      var moved := disk.Replace([backup, n], [n]);
      if moved {
        ReturnStep(pre, start, before, disk.fs, backup, movedExisting, k, clean);
        ReturnedStay(pre, before, disk.fs, backup, movedExisting, k);
      } else {
        clean, failed := false, failed + {n};
      }
    }
  }

  /** The recovery part of both transactions.  Without errors every root is as it was; with errors every
      root that existed is whole somewhere. */
  method UndoSwap(disk: Disk, backup: string, movedExisting: seq<string>, movedNew: seq<string>, ghost pre: Tree)
    returns (clean: bool)
    requires BackupHolds(pre, disk.fs, backup, movedExisting, movedNew)
    requires Unique(movedExisting) && Unique(movedNew)
    requires forall n | n in movedNew :: Rooted(disk.fs, n)
    modifies disk
    ensures clean ==> RootsAreBack(pre, disk.fs)
    ensures Conserved(pre, disk.fs, backup) && IsDirAt(disk.fs, [backup])
    ensures forall p | p == [] || (!IsRoot(p[0]) && p[0] != backup) :: SameAt(old(disk.fs), disk.fs, p)
    ensures disk.reliable ==> clean
    ensures |NotBack(pre, disk.fs)| <= disk.failures - old(disk.failures)
  {
    hide Sub, Moved, IsRoot;
    ghost var start := disk.fs;
    var removed, restored;
    ghost var unremoved, unrestored;
    removed, unremoved := RemoveNew(disk, movedNew);
    ghost var mid := disk.fs;
    AfterRemoval(pre, start, mid, backup, movedExisting, movedNew, removed);
    restored, unrestored := RestoreExisting(disk, backup, movedExisting, pre);
    clean := removed && restored;
    AfterReturn(pre, start, mid, disk.fs, backup, movedExisting, movedNew, removed, restored);
    EachHasFailed(pre, start, mid, disk.fs, backup, movedExisting, movedNew, unremoved, unrestored, restored);
  }

  /** The roots that are not as they were. */
  ghost function NotBack(pre: Tree, fs: Tree): set<string> {
    set n | n in MANAGED_ROOTS && Sub(fs, [n]) != Sub(pre, [n])
  }

  /** A root that is not back has an operation of its own that failed, so no failure keeps another root away. */
  lemma EachHasFailed(pre: Tree, start: Tree, mid: Tree, fs: Tree, backup: string, movedExisting: seq<string>,
                      movedNew: seq<string>, unremoved: set<string>, unrestored: set<string>, restored: bool)
    requires BackupHolds(pre, start, backup, movedExisting, movedNew)
    requires RemovalState(start, mid, movedNew, 0, false) && ReturnState(pre, mid, fs, backup, movedExisting, 0, restored)
    requires forall n | n in movedNew && n !in unremoved :: Sub(mid, [n]) == map[]
    requires forall n | n in movedExisting && n !in unrestored :: Sub(fs, [n]) == Sub(pre, [n])
    ensures |NotBack(pre, fs)| <= |unremoved| + |unrestored|
  {
    hide Sub, RemovalState;
    forall n | n in NotBack(pre, fs)
      ensures n in unremoved + unrestored
    {
      assert IsRoot(n) && Recoverable(pre, start, backup, n, n in movedExisting, n in movedNew);
      if n !in movedExisting {
        assert Sub(fs, [n]) == Sub(mid, [n]);
        if n !in movedNew { UntouchedRoot(start, mid, movedNew, n); }
      }
    }
    NoLarger(NotBack(pre, fs), unremoved + unrestored);
    assert |unremoved + unrestored| <= |unremoved| + |unrestored|;
  }

  lemma UntouchedRoot(start: Tree, mid: Tree, movedNew: seq<string>, n: string)
    requires RemovalState(start, mid, movedNew, 0, false) && n !in movedNew
    ensures Sub(mid, [n]) == Sub(start, [n])
  {
    OtherTopLevel(start, mid, movedNew, [n]);
  }

  lemma {:induction false} NoLarger(a: set<string>, b: set<string>)
    requires a <= b
    ensures |a| <= |b|
  {
    if a != {} {
      var x :| x in a;
      NoLarger(a - {x}, b - {x});
    }
  }

  lemma AfterRemoval(pre: Tree, start: Tree, mid: Tree, backup: string,
                     movedExisting: seq<string>, movedNew: seq<string>, removed: bool)
    requires BackupHolds(pre, start, backup, movedExisting, movedNew) && Unique(movedExisting)
    requires RemovalState(start, mid, movedNew, 0, removed)
    ensures OldRoots(pre, backup, movedExisting)
    ensures ReturnState(pre, mid, mid, backup, movedExisting, |movedExisting|, true)
    ensures removed ==> forall n | n in movedExisting :: [n] !in mid
  {
    hide Sub, IsRoot;
    assert SameAt(start, mid, []) && SameAt(start, mid, [backup]);
    forall j | 0 <= j < |movedExisting|
      ensures Sub(mid, [backup, movedExisting[j]]) == Sub(pre, [movedExisting[j]])
      ensures removed ==> [movedExisting[j]] !in mid
    {
      var n := movedExisting[j];
      assert n in movedExisting;
      assert Recoverable(pre, start, backup, n, true, n in movedNew);
      OtherTopLevel(start, mid, movedNew, [backup, n]);
      if n !in movedNew { OtherTopLevel(start, mid, movedNew, [n]); }
      TreeRoot(mid, [n], Sub(mid, [n]));
    }
  }

  lemma AfterReturn(pre: Tree, start: Tree, mid: Tree, fs: Tree, backup: string,
                    movedExisting: seq<string>, movedNew: seq<string>, removed: bool, restored: bool)
    requires BackupHolds(pre, start, backup, movedExisting, movedNew)
    requires RemovalState(start, mid, movedNew, 0, removed)
    requires ReturnState(pre, mid, fs, backup, movedExisting, 0, restored)
    ensures removed && restored ==> RootsAreBack(pre, fs)
    ensures Conserved(pre, fs, backup)
    ensures forall p | p == [] || (!IsRoot(p[0]) && p[0] != backup) :: SameAt(start, fs, p)
  {
    hide Sub, IsRoot;
    forall n | IsRoot(n)
      ensures removed && restored ==> Sub(fs, [n]) == Sub(pre, [n])
      ensures [n] in pre ==> Sub(fs, [n]) == Sub(pre, [n]) || Sub(fs, [backup, n]) == Sub(pre, [n])
    {
      assert Recoverable(pre, start, backup, n, n in movedExisting, n in movedNew);
      if n in movedExisting {
        var j :| 0 <= j < |movedExisting| && movedExisting[j] == n;
      } else {
        assert Sub(fs, [n]) == Sub(mid, [n]);
        if n !in movedNew { OtherTopLevel(start, mid, movedNew, [n]); }
        TreeRoot(pre, [n], Sub(pre, [n]));
      }
    }
    forall p | p == [] || (!IsRoot(p[0]) && p[0] != backup)
      ensures SameAt(start, fs, p)
    {
      assert SameAt(start, mid, p) && SameAt(mid, fs, p);
    }
  }
}
