/** The failure path shared by installation and rollback, and the contract of what may run before it. */
module Recovery {
  import opened Wrappers
  import opened FileSystem
  import opened Order
  import opened External
  import opened Installations
  import opened Transactions
  import opened RollbackPoints

  const POINT: Path := [STATE, ROLLBACK_POINT]

  /** The rollback point in the target, if there is one, still carries this record. */
  ghost predicate CarriesRecord(fs: Tree, point: Option<ExternalState>) {
    match point
    case None => POINT !in fs
    case Some(state) => IsDirAt(fs, POINT) && IsFileWith(fs, POINT + [EXTERNAL_STATE], ExternalRecord(state))
  }

  ghost predicate UsableRecord(point: Option<ExternalState>, files: seq<Path>) {
    PrefixFree(files) && (point.Some? ==> Covers(point.value, files))
  }

  /** A post-install handler may change the external scope and the managed roots, but neither the rollback
      point nor the existence of a root. */
  ghost predicate HandlerChange(before: Tree, fs: Tree, files: seq<Path>) {
    && (forall p :: SameAt(before, fs, p) || InScope(files, p) || HandlerMayTouch(p))
    && (forall n | IsRoot(n) && [n] in before :: [n] in fs)
    && (KindsAreSafe(before, files) ==> KindsAreSafe(fs, files))
  }

  predicate HandlerMayTouch(p: Path) { |p| > 0 && IsRoot(p[0]) && !Under(POINT, p) }

  /** What a transaction promises about paths outside its roots and working directories. */
  ghost predicate ExternalPromise(pre: Tree, fs: Tree, stage: string, backup: string, files: seq<Path>, whole: bool) {
    forall p | Elsewhere(p, stage, backup) && (whole || !InScope(files, p)) :: SameAt(pre, fs, p)
  }

  /** A post-install callback: what it makes of a tree, and whether it returned or raised. */
  type Handler = Tree -> (Tree, bool)

  /** A handler that keeps to its contract wherever it is called. */
  ghost predicate Disciplined(handler: Handler, files: seq<Path>) {
    forall fs :: HandlerChange(fs, handler(fs).0, files)
  }

  lemma HandlerKeepsRecord(before: Tree, fs: Tree, files: seq<Path>, point: Option<ExternalState>)
    requires HandlerChange(before, fs, files) && CarriesRecord(before, point)
    requires forall p | InScope(files, p) :: |p| > 0 && !IsRoot(p[0])
    ensures CarriesRecord(fs, point)
  {
    assert IsRoot(STATE);
    forall p | Under(POINT, p)
      ensures SameAt(before, fs, p)
    {
      assert p[0] == STATE;
    }
    assert SameAt(before, fs, POINT) && SameAt(before, fs, POINT + [EXTERNAL_STATE]);
  }

  /** A change that stays out of the roots and the backup leaves their subtrees alone. */
  lemma ElsewhereKeepsSubtrees(before: Tree, fs: Tree, stage: string, backup: string, o: Path)
    requires forall p | |p| > 0 && !Elsewhere(p, stage, backup) :: SameAt(before, fs, p)
    requires |o| > 0 && !Elsewhere(o, stage, backup)
    ensures Sub(fs, o) == Sub(before, o)
  {
    hide IsRoot;
    forall q
      ensures SameAt(before, fs, o + q)
    {
      assert (o + q)[0] == o[0];
    }
    SameSubtree(before, o, fs, o);
  }

  lemma ScopedStepElsewhere(before: Tree, fs: Tree, files: seq<Path>, stage: string, backup: string)
    requires RestoreStep(before, fs, files) && ExternalScope(files, stage, backup)
    ensures forall p | p == [] || !Elsewhere(p, stage, backup) :: SameAt(before, fs, p)
  {
    hide SameAt, Elsewhere;
    forall p | p == [] || !Elsewhere(p, stage, backup)
      ensures SameAt(before, fs, p)
    {
      if InScope(files, p) { ScopeElsewhere(files, stage, backup, p); }
    }
  }

  lemma ScopedStepKeepsBackup(before: Tree, fs: Tree, files: seq<Path>, stage: string, backup: string, pre: Tree,
                              movedExisting: seq<string>, movedNew: seq<string>)
    requires RestoreStep(before, fs, files) && ExternalScope(files, stage, backup)
    requires BackupHolds(pre, before, backup, movedExisting, movedNew)
    requires forall n | n in movedNew :: Rooted(before, n)
    ensures BackupHolds(pre, fs, backup, movedExisting, movedNew)
    ensures forall n | n in movedNew :: Rooted(fs, n)
  {
    hide Sub, SameAt, RestoreStep, Elsewhere, IsRoot;
    ScopedStepElsewhere(before, fs, files, stage, backup);
    KeepsBackup(before, fs, stage, backup, pre, movedExisting, movedNew);
  }

  lemma KeepsBackup(before: Tree, fs: Tree, stage: string, backup: string, pre: Tree,
                    movedExisting: seq<string>, movedNew: seq<string>)
    requires forall p | p == [] || !Elsewhere(p, stage, backup) :: SameAt(before, fs, p)
    requires BackupHolds(pre, before, backup, movedExisting, movedNew)
    requires forall n | n in movedNew :: Rooted(before, n)
    ensures BackupHolds(pre, fs, backup, movedExisting, movedNew)
    ensures forall n | n in movedNew :: Rooted(fs, n)
  {
    hide Sub, IsRoot;
    assert SameAt(before, fs, []) && SameAt(before, fs, [backup]);
    forall n | IsRoot(n)
      ensures Sub(fs, [n]) == Sub(before, [n]) && Sub(fs, [backup, n]) == Sub(before, [backup, n])
      ensures SameAt(before, fs, [n])
    {
      ElsewhereKeepsSubtrees(before, fs, stage, backup, [n]);
      ElsewhereKeepsSubtrees(before, fs, stage, backup, [backup, n]);
    }
    forall n | IsRoot(n)
      ensures Recoverable(pre, fs, backup, n, n in movedExisting, n in movedNew)
    {
      assert Recoverable(pre, before, backup, n, n in movedExisting, n in movedNew);
    }
  }

  /** The external half of the failure path: only if an external mutation began, and only if the target
      holds a rollback point. */
  method RecoverExternal(disk: Disk, started: bool, ghost point: Option<ExternalState>, ghost files: seq<Path>,
                         ghost origin: Tree) returns (clean: bool)
    requires started ==> CarriesRecord(disk.fs, point) && UsableRecord(point, files)
    modifies disk
    ensures !started || point.None? ==> disk.fs == old(disk.fs) && clean
    ensures started && point.Some? ==> RestoreStep(old(disk.fs), disk.fs, files)
    ensures started && point.Some? && clean ==> Matches(disk.fs, point.value)
    ensures started && point.Some? && Restorable(disk, old(disk.fs), point.value, files, origin) ==> clean
  {
    hide RestoreStep, Matches, Covers, PrefixFree, Restorable;
    clean := true;
    if started && IsDirAt(disk.fs, POINT) {
      var record := disk.fs[POINT + [EXTERNAL_STATE]].content;
      clean := RestoreExternalState(disk, record.state, files, origin);
    }
  }

  /** The `except` block of both transactions. */
  method Recover(disk: Disk, stage: string, backup: string, movedExisting: seq<string>, movedNew: seq<string>,
                 started: bool, ghost point: Option<ExternalState>, ghost files: seq<Path>,
                 ghost pre: Tree, ghost origin: Tree) returns (clean: bool)
    requires ExternalScope(files, stage, backup) && Unique(movedExisting) && Unique(movedNew)
    requires BackupHolds(pre, disk.fs, backup, movedExisting, movedNew)
    requires forall n | n in movedNew :: Rooted(disk.fs, n)
    requires started ==> CarriesRecord(disk.fs, point) && UsableRecord(point, files)
    modifies disk
    ensures clean ==> RootsAreBack(pre, disk.fs)
    ensures clean && started && point.Some? ==> Matches(disk.fs, point.value)
    ensures Conserved(pre, disk.fs, backup) && IsDirAt(disk.fs, [backup])
    ensures ExternalPromise(old(disk.fs), disk.fs, stage, backup, files, !started || point.None?)
    ensures disk.reliable && Recoverables(disk, old(disk.fs), started, point, files, origin) ==> clean
    ensures disk.reliable ==> RootsAreBack(pre, disk.fs)
  {
    hide *;
    ghost var start := disk.fs;
    var external := RecoverExternal(disk, started, point, files, origin);
    ghost var mid := disk.fs;
    AfterExternal(disk, start, mid, stage, backup, movedExisting, movedNew, started, point, files, pre);
    var roots := UndoSwap(disk, backup, movedExisting, movedNew, pre);
    clean := external && roots;
    AfterUndo(start, mid, disk.fs, stage, backup, started, point, files, external);
    RecoverablesMeans(disk, start, started, point, files, origin);
  }

  /** Nothing but a fault can stop the recovery. */
  ghost predicate Recoverables(disk: Disk, fs: Tree, started: bool, point: Option<ExternalState>, files: seq<Path>,
                               origin: Tree) {
    started && point.Some? ==> Restorable(disk, fs, point.value, files, origin)
  }

  lemma RecoverablesMeans(disk: Disk, fs: Tree, started: bool, point: Option<ExternalState>, files: seq<Path>,
                          origin: Tree)
    ensures Recoverables(disk, fs, started, point, files, origin) <==>
      (started && point.Some? ==> Restorable(disk, fs, point.value, files, origin))
  {
  }

  lemma AfterExternal(disk: Disk, start: Tree, mid: Tree, stage: string, backup: string, movedExisting: seq<string>,
                      movedNew: seq<string>, started: bool, point: Option<ExternalState>, files: seq<Path>, pre: Tree)
    requires ExternalScope(files, stage, backup)
    requires BackupHolds(pre, start, backup, movedExisting, movedNew)
    requires forall n | n in movedNew :: Rooted(start, n)
    requires (!started || point.None?) ==> mid == start
    requires started && point.Some? ==> RestoreStep(start, mid, files)
    ensures BackupHolds(pre, mid, backup, movedExisting, movedNew)
    ensures forall n | n in movedNew :: Rooted(mid, n)
  {
    hide *;
    if started && point.Some? {
      ScopedStepKeepsBackup(start, mid, files, stage, backup, pre, movedExisting, movedNew);
    }
  }

  lemma AfterUndo(start: Tree, mid: Tree, fs: Tree, stage: string, backup: string, started: bool,
                  point: Option<ExternalState>, files: seq<Path>, external: bool)
    requires ExternalScope(files, stage, backup) && (started ==> UsableRecord(point, files))
    requires (!started || point.None?) ==> mid == start
    requires started && point.Some? ==> RestoreStep(start, mid, files)
    requires started && point.Some? && external ==> Matches(mid, point.value)
    requires forall p | p == [] || (!IsRoot(p[0]) && p[0] != backup) :: SameAt(mid, fs, p)
    ensures started && point.Some? && external ==> Matches(fs, point.value)
    ensures ExternalPromise(start, fs, stage, backup, files, !started || point.None?)
  {
    hide Matches, IsRoot, InScope, Covers, PrefixFree;
    forall p | InScope(files, p)
      ensures SameAt(fs, mid, p)
    {
      ScopeElsewhere(files, stage, backup, p);
    }
    if started && point.Some? {
      if external {
        MatchesIsDescribes(point.value, mid, files);
        DescribesEarlier(point.value, fs, mid, files);
      }
    }
    forall p | Elsewhere(p, stage, backup) && !InScope(files, p)
      ensures SameAt(start, fs, p)
    {
      if started && point.Some? { assert SameAt(start, mid, p); }
      assert SameAt(mid, fs, p);
    }
  }

  lemma MatchesIsDescribes(state: ExternalState, fs: Tree, files: seq<Path>)
    ensures Covers(state, files) && Matches(fs, state) <==> Describes(state, fs, files)
  {
  }
}
