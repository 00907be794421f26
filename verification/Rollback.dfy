/** `_rollback_install`: swap the installation with the one its rollback point records.

    The stage holds the recorded installation with the `.system` Skills of the target, and in its managed directory
    a new rollback point that records the installation being replaced.  Both sets of roots change places as in an
    installation, then the external files of the old point are restored.  A failure restores the external files from
    the new point and the roots from the backup.  Since the new point records what was replaced, a second rollback
    leads back: what it gives back, and what it does not, is stated at the end. */
module Rollback {
  import opened Wrappers
  import opened FileSystem
  import opened Order
  import opened External
  import opened Installations
  import opened ByPath
  import opened Transactions
  import opened RollbackPoints
  import opened Recovery
  import opened Install

  datatype Reversal = Declined | RolledBack(reverse: ExternalState) | Unchanged | Interrupted

  function EntryPaths(state: ExternalState): seq<Path> {
    seq(|state.entries|, i requires 0 <= i < |state.entries| => state.entries[i].path)
  }

  /** The tree at the rollback point is exactly a point: the entries, the trees of every lock record and the
      external record, nothing missing and nothing else. */
  predicate IsPoint(fs: Tree) {
    && Readable(fs, InPoint(POINT))
    && POINT + [EXTERNAL_STATE] in fs && fs[POINT + [EXTERNAL_STATE]].File?
    && fs[POINT + [EXTERNAL_STATE]].content.ExternalRecord?
    && Sub(fs, POINT) == PointTree(Read(fs, InPoint(POINT)), RecordedState(fs))
  }

  function RecordedState(fs: Tree): ExternalState
    requires POINT + [EXTERNAL_STATE] in fs && fs[POINT + [EXTERNAL_STATE]].File?
    requires fs[POINT + [EXTERNAL_STATE]].content.ExternalRecord?
  {
    fs[POINT + [EXTERNAL_STATE]].content.state
  }

  /** The record in a rollback point came from a snapshot of a scope an installation may declare. */
  ghost predicate RecordFromSnapshot(fs: Tree, stage: string, backup: string) {
    IsPoint(fs) ==>
      var state := RecordedState(fs);
      ExternalScope(EntryPaths(state), stage, backup) && Covers(state, EntryPaths(state))
  }

  /** What a successful rollback does: the target and its rollback point have changed places, `.system` has
      stayed, the external files are those of the old point, and the new point records those of the target. */
  ghost predicate Swapped(pre: Tree, fs: Tree, stage: string, backup: string, reverse: ExternalState) {
    && Readable(pre, InTarget([])) && IsPoint(pre)
    && HasRoots(fs, [], Roots(Read(pre, InPoint(POINT)), SystemSkills(pre),
                              Some(PointTree(Read(pre, InTarget([])), reverse))))
    && Describes(reverse, pre, EntryPaths(RecordedState(pre)))
    && Matches(fs, RecordedState(pre))
    && ExternalPromise(pre, fs, stage, backup, EntryPaths(RecordedState(pre)), false)
  }

  /** The same path by path: what lay in the point lies in the target, what lay in the target is recorded in the
      point, and `.system` is where it was. */
  ghost predicate Exchanged(pre: Tree, fs: Tree, reverse: ExternalState) {
    var point := [".agent-skills", "rollback-point"];
    && SameTree(pre, point + ["AGENTS.md"], fs, ["AGENTS.md"])
    && IsManagedDirectory(fs, ["skills"])
    && (forall n | n != ".system" :: SameTree(pre, point + ["skills"] + [n], fs, ["skills"] + [n]))
    && (if IsDirAt(pre, ["skills", ".system"]) then SameTree(pre, ["skills", ".system"], fs, ["skills", ".system"])
        else Nothing(fs, ["skills", ".system"]))
    && IsManagedDirectory(fs, [".agent-skills"])
    && (forall n | n in StateNames() && n != "rollback-point" :: SameTree(pre, point + [n], fs, [".agent-skills"] + [n]))
    && PointRecords(pre, ["AGENTS.md"], ["skills"], [".agent-skills"], fs, point, reverse)
    && (forall n | n !in StateNames() :: Nothing(fs, [".agent-skills"] + [n]))
  }

  /** A complete rollback point: it can be read, and it records exactly what it holds. */
  ghost predicate PointIsComplete(fs: Tree) {
    var point := [".agent-skills", "rollback-point"];
    && Complete(fs, point + ["AGENTS.md"], point + ["skills"], point)
    && IsFileAt(fs, point + ["external-state.json"]) && fs[point + ["external-state.json"]].content.ExternalRecord?
    && PointRecords(fs, point + ["AGENTS.md"], point + ["skills"], point, fs, point,
                    fs[point + ["external-state.json"]].content.state)
  }

  /** What a rollback starts from, path by path. */
  lemma RollbackNeeds(fs: Tree)
    ensures Readable(fs, InTarget([])) <==> Complete(fs, ["AGENTS.md"], ["skills"], [".agent-skills"])
    ensures IsPoint(fs) <==> PointIsComplete(fs)
  {
    TargetLayout();
    ReadableIsComplete(fs, InTarget([]));
    ReadableIsComplete(fs, InPoint(POINT));
    PointHoldsItself(fs);
    assert POINT == [".agent-skills", "rollback-point"] && EXTERNAL_STATE == "external-state.json";
    hide Sub, Readable, PointRecords, Complete, IsPoint;
  }

  lemma PointHoldsItself(fs: Tree)
    ensures IsPoint(fs) <==>
      && Readable(fs, InPoint(POINT))
      && POINT + [EXTERNAL_STATE] in fs && fs[POINT + [EXTERNAL_STATE]].File?
      && fs[POINT + [EXTERNAL_STATE]].content.ExternalRecord?
      && PointRecords(fs, POINT + ["AGENTS.md"], POINT + ["skills"], POINT, fs, POINT, RecordedState(fs))
  {
    hide Sub, Readable, Read, PointTree, PointRecords;
    if Readable(fs, InPoint(POINT)) && POINT + [EXTERNAL_STATE] in fs && fs[POINT + [EXTERNAL_STATE]].File? &&
       fs[POINT + [EXTERNAL_STATE]].content.ExternalRecord? {
      PointByPath(fs, InPoint(POINT), fs, POINT, RecordedState(fs));
    }
  }

  lemma SwappedByPath(pre: Tree, fs: Tree, stage: string, backup: string, reverse: ExternalState)
    requires Swapped(pre, fs, stage, backup, reverse)
    ensures Exchanged(pre, fs, reverse)
  {
    SwappedHas(pre, fs, stage, backup, reverse);
    var i, state := Read(pre, InPoint(POINT)), RecordedState(pre);
    var point := PointTree(Read(pre, InTarget([])), reverse);
    TargetLayout();
    SystemIsOther(pre);
    hide *;
    PointInFull(pre, POINT, i, state);
    RootsByPath(fs, [], i, SystemSkills(pre), Some(point));
    assert [] + ["AGENTS.md"] == ["AGENTS.md"] && [] + ["skills"] == ["skills"] && [] + [".agent-skills"] == [".agent-skills"];
    SkillsExchanged(pre, fs, i, state);
    StateExchanged(pre, fs, i, state, point);
    PointByPath(pre, InTarget([]), fs, POINT, reverse);
    ExchangedFrom(pre, fs, reverse);
  }

  lemma SwappedHas(pre: Tree, fs: Tree, stage: string, backup: string, reverse: ExternalState)
    requires Swapped(pre, fs, stage, backup, reverse)
    ensures Readable(pre, InTarget([])) && IsPoint(pre)
    ensures Sub(pre, POINT) == PointTree(Read(pre, InPoint(POINT)), RecordedState(pre))
    ensures HasRoots(fs, [], Roots(Read(pre, InPoint(POINT)), SystemSkills(pre),
                                   Some(PointTree(Read(pre, InTarget([])), reverse))))
  {
    hide Sub, Read, Readable, Roots, HasRoots, PointTree, SystemSkills, Describes, Matches, ExternalPromise;
  }

  lemma ExchangedFrom(pre: Tree, fs: Tree, reverse: ExternalState)
    requires SameTree(pre, POINT + ["AGENTS.md"], fs, ["AGENTS.md"]) && IsManagedDirectory(fs, ["skills"])
    requires forall n | n != ".system" :: SameTree(pre, POINT + ["skills"] + [n], fs, ["skills"] + [n])
    requires if IsDirAt(pre, ["skills", ".system"]) then SameTree(pre, ["skills", ".system"], fs, ["skills", ".system"])
             else Nothing(fs, ["skills", ".system"])
    requires IsManagedDirectory(fs, [".agent-skills"])
    requires forall n | n in StateNames() && n != "rollback-point" ::
               SameTree(pre, POINT + [n], fs, [".agent-skills"] + [n])
    requires forall n | n !in StateNames() :: Nothing(fs, [".agent-skills"] + [n])
    requires PointRecords(pre, ["AGENTS.md"], ["skills"], [".agent-skills"], fs, POINT, reverse)
    ensures Exchanged(pre, fs, reverse)
  {
    hide Sub, SameTree, Nothing, PointRecords, StateNames, IsManagedDirectory;
  }

  lemma SystemIsOther(pre: Tree)
    requires IsPoint(pre)
    ensures ".system" !in Read(pre, InPoint(POINT)).skills
    ensures SystemSkills(pre) == SystemOrNone(pre)
  {
    hide Sub, Clean, SystemSkills;
    SystemSkillsByPath(pre);
  }

  lemma SystemSkillsByPath(pre: Tree)
    ensures SystemSkills(pre) == SystemOrNone(pre)
  {
    hide Sub;
    assert [SKILLS] + [SYSTEM] == ["skills", ".system"] && [SKILLS, SYSTEM] == ["skills", ".system"];
  }

  lemma SkillsExchanged(pre: Tree, fs: Tree, i: Installation, state: ExternalState)
    requires PointEntries(pre, POINT, i, state) && OnlyFile(fs, ["AGENTS.md"], i.agents)
    requires ".system" !in i.skills
    requires Listing(fs, ["skills"], SystemOrNone(pre) + i.skills)
    ensures SameTree(pre, POINT + ["AGENTS.md"], fs, ["AGENTS.md"])
    ensures IsManagedDirectory(fs, ["skills"])
    ensures forall n | n != ".system" :: SameTree(pre, POINT + ["skills"] + [n], fs, ["skills"] + [n])
    ensures if IsDirAt(pre, ["skills", ".system"]) then SameTree(pre, ["skills", ".system"], fs, ["skills", ".system"])
            else Nothing(fs, ["skills", ".system"])
  {
    PointHasSkills(pre, i, state);
    hide *;
    SystemExchanged(pre, fs, i.skills);
    EachSkillExchanged(pre, fs, i.skills, SystemOrNone(pre));
    SameFileOrNone(pre, fs, POINT + ["AGENTS.md"], ["AGENTS.md"], Some(i.agents));
  }

  lemma PointHasSkills(pre: Tree, i: Installation, state: ExternalState)
    requires PointEntries(pre, POINT, i, state)
    ensures ActivationPlace(pre, POINT + ["AGENTS.md"], Some(i.agents))
    ensures Listing(pre, POINT + ["skills"], i.skills)
  {
    hide Sub, Directory, Nothing, OnlyFile, IsManagedDirectory, PointNames, Listing;
    DirectoryByPath(pre, POINT + ["skills"], i.skills);
  }

  ghost function SystemOrNone(pre: Tree): map<string, Tree> {
    if IsDirAt(pre, ["skills", ".system"]) then map[".system" := Sub(pre, ["skills", ".system"])] else map[]
  }

  lemma EachSkillExchanged(pre: Tree, fs: Tree, skills: map<string, Tree>, system: map<string, Tree>)
    requires Listing(pre, POINT + ["skills"], skills) && Listing(fs, ["skills"], system + skills)
    requires system.Keys <= {".system"}
    ensures forall n | n != ".system" :: SameTree(pre, POINT + ["skills"] + [n], fs, ["skills"] + [n])
  {
    hide Sub, SameTree, IsManagedDirectory;
    forall n | n != ".system"
      ensures SameTree(pre, POINT + ["skills"] + [n], fs, ["skills"] + [n])
    {
      assert n !in system;
      SameTreeByPath(pre, POINT + ["skills"] + [n], fs, ["skills"] + [n]);
    }
  }

  lemma SystemExchanged(pre: Tree, fs: Tree, skills: map<string, Tree>)
    requires ".system" !in skills && Listing(fs, ["skills"], SystemOrNone(pre) + skills)
    ensures SystemOrNone(pre).Keys <= {".system"} && IsManagedDirectory(fs, ["skills"])
    ensures if IsDirAt(pre, ["skills", ".system"]) then SameTree(pre, ["skills", ".system"], fs, ["skills", ".system"])
            else Nothing(fs, ["skills", ".system"])
  {
    hide Sub, SameTree, Nothing, IsManagedDirectory;
    assert ["skills"] + [".system"] == ["skills", ".system"];
    SameTreeByPath(pre, ["skills", ".system"], fs, ["skills"] + [".system"]);
    NothingByPath(fs, ["skills"] + [".system"]);
  }

  lemma StateExchanged(pre: Tree, fs: Tree, i: Installation, state: ExternalState, point: Tree)
    requires PointEntries(pre, POINT, i, state) && StateEntries(fs, [".agent-skills"], i, Some(point))
    ensures IsManagedDirectory(fs, [".agent-skills"]) && Sub(fs, POINT) == point
    ensures forall n | n in StateNames() && n != "rollback-point" ::
              SameTree(pre, POINT + [n], fs, [".agent-skills"] + [n])
    ensures forall n | n !in StateNames() :: Nothing(fs, [".agent-skills"] + [n])
  {
    hide Sub, Directory, SameTree, Nothing, IsManagedDirectory, OnlyFile, Listing, PointNames;
    assert [".agent-skills"] + ["rollback-point"] == POINT;
    SameFileOrNone(pre, fs, POINT + ["install-lock.json"], [".agent-skills"] + ["install-lock.json"], Some(i.installLock));
    SameFileOrNone(pre, fs, POINT + ["agent-skills.lock"], [".agent-skills"] + ["agent-skills.lock"], Some(i.packageLock));
    SameFileOrNone(pre, fs, POINT + ["activation-lock.json"], [".agent-skills"] + ["activation-lock.json"], i.activation);
    DirectoryByPath(fs, [".agent-skills"] + ["packages"], i.packages);
    SameTreeByPath(pre, POINT + ["packages"], fs, [".agent-skills"] + ["packages"]);
  }

  lemma SameFileOrNone(pre: Tree, fs: Tree, a: Path, b: Path, content: Option<Content>)
    requires ActivationPlace(pre, a, content) && ActivationPlace(fs, b, content)
    ensures SameTree(pre, a, fs, b)
  {
    hide Sub, OnlyFile, Nothing, SameTree;
    SameTreeByPath(pre, a, fs, b);
    if content.Some? {
      FileByPath(pre, a, content.value);
      FileByPath(fs, b, content.value);
    } else {
      NothingByPath(pre, a);
      NothingByPath(fs, b);
    }
  }

  // ---------------------------------------------------------------- staging

  /** The Skills of the point, and the target's `.system` beside them. */
  method StageOldSkills(disk: Disk, stage: string) returns (ok: bool)
    requires !IsRoot(stage) && IsPoint(disk.fs)
    modifies disk
    ensures ChangedOnlyUnder(old(disk.fs), disk.fs, [stage, SKILLS])
    ensures ok ==> Sub(disk.fs, [stage, SKILLS]) ==
                   Directory(SystemSkills(old(disk.fs)) + Read(old(disk.fs), InPoint(POINT)).skills)
    ensures disk.reliable ==> ok
  {
    assert stage != SKILLS && stage != STATE;
    hide Sub, Directory, IsRoot, ChangedOnlyUnder, SystemSkills, Read, IsPoint;
    ghost var pre := disk.fs;
    ghost var skills := PointSkills(pre);
    var root := [stage, SKILLS];
    var source := Sub(disk.fs, POINT + [SKILLS]);
    ok := disk.CopyTree(source, root);
    if !ok { return; }
    SubOfGraft(pre, root, source);
    ghost var mid := disk.fs;
    SystemUntouched(pre, mid, root);
    var system := SystemSkills(disk.fs);
    ok := CopyFamily(disk, root, system, skills);
    ChangesCompose(pre, mid, disk.fs, root);
    SystemComesFirst(pre, skills);
  }

  ghost function PointSkills(fs: Tree): (skills: map<string, Tree>)
    requires IsPoint(fs)
    ensures skills == Read(fs, InPoint(POINT)).skills
    ensures SYSTEM !in skills
    ensures Sub(fs, POINT + [SKILLS]) == Directory(skills)
  {
    hide Sub, Directory, Clean;
    var i, state := Read(fs, InPoint(POINT)), RecordedState(fs);
    PointPartsAt(i, state);
    ReadPart(fs, POINT, PointParts(i, state), SKILLS);
    i.skills
  }

  lemma SystemUntouched(pre: Tree, fs: Tree, root: Path)
    requires ChangedOnlyUnder(pre, fs, root) && |root| > 0 && root[0] != SKILLS
    ensures SystemSkills(fs) == SystemSkills(pre)
  {
    hide Sub;
    HeadsApart(root, [SKILLS, SYSTEM]);
    assert [SKILLS] + [SYSTEM] == [SKILLS, SYSTEM];
    SubtreeUntouched(pre, fs, root, [SKILLS, SYSTEM]);
    assert SameAt(pre, fs, [SKILLS, SYSTEM]);
  }

  lemma SystemComesFirst(fs: Tree, skills: map<string, Tree>)
    requires SYSTEM !in skills
    ensures skills + SystemSkills(fs) == SystemSkills(fs) + skills
  {
    hide Sub;
  }

  /** The managed directory of the point, and in it the point that leads back. */
  method StageOldState(disk: Disk, stage: string, files: seq<Path>, staged: Tree -> bool) returns (reverse: Option<ExternalState>)
    requires !IsRoot(stage) && IsPoint(disk.fs)
    requires forall p | InScope(files, p) :: |p| > 0 && p[0] != stage
    modifies disk
    ensures ChangedOnlyUnder(old(disk.fs), disk.fs, [stage, STATE])
    ensures reverse.Some? ==> Readable(old(disk.fs), InTarget([])) && Describes(reverse.value, old(disk.fs), files)
    ensures reverse.Some? ==>
      Sub(disk.fs, [stage, STATE]) ==
      StateTree(Read(old(disk.fs), InPoint(POINT)), Some(PointTree(Read(old(disk.fs), InTarget([])), reverse.value)))
    ensures disk.reliable && NeverObjects(staged) && Recordable(old(disk.fs), files) ==> reverse.Some?
  {
    var old1 := Read(disk.fs, InPoint(POINT));
    assert stage != STATE;
    hide Sub, Directory, IsRoot, FileTree, Readable, Read, Describes, ChangedOnlyUnder, PointTree, IsPoint, StateTree, Recordable;
    ghost var pre := disk.fs;
    var root := [stage, STATE];
    var ok := disk.CopyTree(Directory(map[]), root);
    if !ok { return None; }
    SubOfGraft(pre, root, Directory(map[]));
    ghost var parts: map<string, Tree> := map[];
    ok := PutNext(disk, root, parts, PACKAGES, Directory(old1.packages), pre);
    if !ok { return None; }
    parts := parts[PACKAGES := Directory(old1.packages)];
    ok := PutNext(disk, root, parts, INSTALL_LOCK, FileTree(old1.installLock), pre);
    if !ok { return None; }
    parts := parts[INSTALL_LOCK := FileTree(old1.installLock)];
    ok := PutNext(disk, root, parts, PACKAGE_LOCK, FileTree(old1.packageLock), pre);
    if !ok { return None; }
    parts := parts[PACKAGE_LOCK := FileTree(old1.packageLock)];
    if old1.activation.Some? {
      ok := PutNext(disk, root, parts, ACTIVATION_LOCK, FileTree(old1.activation.value), pre);
      if !ok { return None; }
      parts := parts[ACTIVATION_LOCK := FileTree(old1.activation.value)];
    }
    reverse := WriteStagedPoint(disk, root, parts, files, pre);
    if reverse.None? { return; }
    ReversePartsListed(old1, PointTree(Read(pre, InTarget([])), reverse.value));
    if !staged(disk.fs) { reverse := None; }
  }

  lemma ReversePartsListed(i: Installation, point: Tree)
    ensures var first := map[PACKAGES := Directory(i.packages)][INSTALL_LOCK := FileTree(i.installLock)]
                         [PACKAGE_LOCK := FileTree(i.packageLock)];
            var second := if i.activation.Some? then first[ACTIVATION_LOCK := FileTree(i.activation.value)] else first;
            StateTree(i, Some(point)) == Directory(second[ROLLBACK_POINT := point])
  {
    hide Directory, FileTree;
    InTurn(PACKAGES, INSTALL_LOCK, PACKAGE_LOCK, Directory(i.packages), FileTree(i.installLock), FileTree(i.packageLock));
  }

  lemma InTurn<T>(p: string, l: string, k: string, tp: T, tl: T, tk: T)
    ensures map[p := tp][l := tl][k := tk] == map[p := tp, l := tl, k := tk]
  {
  }

  /** Everything `_rollback_install` does before it touches a managed root. */
  method StageReversal(disk: Disk, stage: string, files: seq<Path>, staged: Tree -> bool) returns (reverse: Option<ExternalState>)
    requires !IsRoot(stage) && IsPoint(disk.fs)
    requires forall p | InScope(files, p) :: |p| > 0 && p[0] != stage
    modifies disk
    ensures OnlyInside(old(disk.fs), disk.fs, stage)
    ensures reverse.Some? ==> Readable(old(disk.fs), InTarget([])) && Describes(reverse.value, old(disk.fs), files)
    ensures reverse.Some? ==>
      HasRoots(disk.fs, [stage],
               Roots(Read(old(disk.fs), InPoint(POINT)), SystemSkills(old(disk.fs)),
                     Some(PointTree(Read(old(disk.fs), InTarget([])), reverse.value))))
    ensures disk.reliable && NeverObjects(staged) && Recordable(old(disk.fs), files) ==> reverse.Some?
  {
    assert stage != AGENTS && stage != SKILLS && stage != STATE;
    var old1 := Read(disk.fs, InPoint(POINT));
    hide *;
    ghost var pre := disk.fs;
    OnlyInsideItself(pre, stage);
    var ok := disk.CopyTree(FileTree(old1.agents), [stage, AGENTS]);
    ghost var first := disk.fs;
    InsideCompose(pre, pre, first, stage, AGENTS);
    if !ok { return None; }
    PointUntouched(pre, first, stage);
    ok := StageOldSkills(disk, stage);
    ghost var second := disk.fs;
    InsideCompose(pre, first, second, stage, SKILLS);
    if !ok { return None; }
    PointUntouched(pre, second, stage);
    StageLeavesTarget(pre, second, stage, files);
    StillRecordable(pre, second, files);
    reverse := StageOldState(disk, stage, files, staged);
    ghost var third := disk.fs;
    InsideCompose(pre, second, third, stage, STATE);
    if reverse.None? { return; }
    DescribesEarlier(reverse.value, pre, second, files);
    SubOfGraft(pre, [stage, AGENTS], FileTree(old1.agents));
    ReversalComplete(pre, first, second, third, stage, reverse.value);
  }

  /** Work in the stage does not change the rollback point or `.system`. */
  lemma PointUntouched(pre: Tree, fs: Tree, stage: string)
    requires OnlyInside(pre, fs, stage) && !IsRoot(stage)
    ensures IsPoint(fs) <==> IsPoint(pre)
    ensures IsPoint(pre) ==> Read(fs, InPoint(POINT)) == Read(pre, InPoint(POINT))
    ensures SystemSkills(fs) == SystemSkills(pre)
  {
    assert stage != STATE && stage != SKILLS;
    hide Sub, IsRoot, IsPoint, SystemSkills, Read, Readable;
    assert ChangedOnlyUnder(pre, fs, [stage]);
    SystemUntouched(pre, fs, [stage]);
    InsideKeepsOthers(pre, fs, stage, POINT);
    PointIsItsTree(pre, fs);
    PointIsItsTree(fs, pre);
  }

  lemma PointIsItsTree(a: Tree, b: Tree)
    requires Sub(a, POINT) == Sub(b, POINT)
    ensures IsPoint(a) ==> IsPoint(b) && Read(a, InPoint(POINT)) == Read(b, InPoint(POINT))
    ensures IsPoint(a) ==> RecordedState(a) == RecordedState(b)
  {
    if IsPoint(a) {
      var i, state := Read(a, InPoint(POINT)), RecordedState(a);
      hide Sub, Readable, Read, Directory, PointTree;
      ReadIsCoherent(a, InPoint(POINT));
      ReadPoint(b, POINT, i, state);
    }
  }

  lemma ReversalComplete(pre: Tree, first: Tree, second: Tree, third: Tree, stage: string, reverse: ExternalState)
    requires !IsRoot(stage) && IsPoint(pre) && IsPoint(first) && IsPoint(second)
    requires Read(first, InPoint(POINT)) == Read(pre, InPoint(POINT)) == Read(second, InPoint(POINT))
    requires Readable(pre, InTarget([])) && Readable(second, InTarget([]))
    requires Read(second, InTarget([])) == Read(pre, InTarget([]))
    requires SystemSkills(first) == SystemSkills(pre)
    requires Sub(first, [stage, AGENTS]) == FileTree(Read(pre, InPoint(POINT)).agents)
    requires ChangedOnlyUnder(first, second, [stage, SKILLS])
    requires Sub(second, [stage, SKILLS]) == Directory(SystemSkills(first) + Read(first, InPoint(POINT)).skills)
    requires ChangedOnlyUnder(second, third, [stage, STATE])
    requires Sub(third, [stage, STATE]) ==
             StateTree(Read(second, InPoint(POINT)), Some(PointTree(Read(second, InTarget([])), reverse)))
    ensures HasRoots(third, [stage], Roots(Read(pre, InPoint(POINT)), SystemSkills(pre),
                                           Some(PointTree(Read(pre, InTarget([])), reverse))))
  {
    hide Sub, Directory, Read, Readable, SystemSkills, IsRoot, FileTree, StateTree, ChangedOnlyUnder, HasRoots, Roots, PointTree;
    NameApart(stage, SKILLS, AGENTS);
    NameApart(stage, STATE, AGENTS);
    NameApart(stage, STATE, SKILLS);
    SubtreeUntouched(first, second, [stage, SKILLS], [stage, AGENTS]);
    SubtreeUntouched(second, third, [stage, STATE], [stage, AGENTS]);
    SubtreeUntouched(second, third, [stage, STATE], [stage, SKILLS]);
    RootsAre(third, stage, Read(pre, InPoint(POINT)), SystemSkills(pre), Some(PointTree(Read(pre, InTarget([])), reverse)));
  }

  // ---------------------------------------------------------------- the transaction

  /** The external files restored inside the transaction: everything a recovery needs is still there. */
  lemma RestoreCommits(mid: Tree, before: Tree, fs: Tree, stage: string, backup: string, files: seq<Path>,
                       point: Option<ExternalState>, movedExisting: seq<string>, movedNew: seq<string>,
                       roots: map<string, Tree>)
    requires CommitState(mid, before, stage, backup, files, point, false, movedExisting, movedNew)
    requires CarriesRecord(before, point) && ExternalScope(files, stage, backup)
    requires RestoreStep(before, fs, files)
    ensures CommitState(mid, fs, stage, backup, files, point, true, movedExisting, movedNew)
    ensures CarriesRecord(fs, point)
    ensures HasRoots(before, [], roots) ==> HasRoots(fs, [], roots)
  {
    hide Sub, IsRoot, BackupHolds, Rooted, Unique, CarriesRecord, HasRoots, RestoreStep, KindsAreSafe;
    ScopedStepKeepsBackup(before, fs, files, stage, backup, mid, movedExisting, movedNew);
    ScopedStepElsewhere(before, fs, files, stage, backup);
    ScopedStepKeepsRoots(before, fs, files, stage, backup, point, roots);
    StepPromise(mid, before, fs, stage, backup, files);
    StepKeepsKinds(before, fs, files);
  }

  lemma StepKeepsKinds(before: Tree, fs: Tree, files: seq<Path>)
    requires RestoreStep(before, fs, files)
    ensures KindsAreSafe(before, files) ==> KindsAreSafe(fs, files)
  {
  }

  lemma StepPromise(mid: Tree, before: Tree, fs: Tree, stage: string, backup: string, files: seq<Path>)
    requires ExternalPromise(mid, before, stage, backup, files, true) && RestoreStep(before, fs, files)
    ensures ExternalPromise(mid, fs, stage, backup, files, false)
  {
    hide Elsewhere, InScope;
    forall p | Elsewhere(p, stage, backup) && !InScope(files, p)
      ensures SameAt(mid, fs, p)
    {
      assert SameAt(mid, before, p) && SameAt(before, fs, p);
    }
  }

  lemma ScopedStepKeepsRoots(before: Tree, fs: Tree, files: seq<Path>, stage: string, backup: string,
                             point: Option<ExternalState>, roots: map<string, Tree>)
    requires forall p | p == [] || !Elsewhere(p, stage, backup) :: SameAt(before, fs, p)
    ensures CarriesRecord(before, point) ==> CarriesRecord(fs, point)
    ensures HasRoots(before, [], roots) ==> HasRoots(fs, [], roots)
    ensures RootsKept(before, fs)
  {
    assert IsRoot(STATE);
    hide Sub, IsRoot;
    assert SameAt(before, fs, POINT) && SameAt(before, fs, POINT + [EXTERNAL_STATE]);
    forall n | IsRoot(n)
      ensures Sub(fs, [n]) == Sub(before, [n])
    {
      ElsewhereKeepsSubtrees(before, fs, stage, backup, [n]);
    }
    if HasRoots(before, [], roots) { SameRoots(before, fs, roots); }
  }

  /** Where the source looks for the record once the old roots are in the backup. */
  function BackedUpRecord(backup: string): Path { [backup, STATE] + [ROLLBACK_POINT, EXTERNAL_STATE] }

  lemma RecordIsBackedUp(mid: Tree, fs: Tree, stage: string, backup: string, state: ExternalState,
                         movedExisting: seq<string>, movedNew: seq<string>)
    requires SwapState(mid, fs, stage, backup, movedExisting, movedNew) && movedNew == MANAGED_ROOTS
    requires IsFileWith(mid, POINT + [EXTERNAL_STATE], ExternalRecord(state)) && Rooted(mid, STATE)
    ensures IsFileWith(fs, BackedUpRecord(backup), ExternalRecord(state))
  {
    RootsList(STATE);
    assert STATE in movedNew;
    hide Sub, IsRoot;
    var q := [ROLLBACK_POINT, EXTERNAL_STATE];
    assert [STATE] + q == POINT + [EXTERNAL_STATE];
    TreeRoot(mid, [STATE] + q, Sub(mid, [STATE] + q));
    assert q in Sub(mid, [STATE]);
    assert RootState(mid, fs, stage, backup, STATE, STATE in movedExisting, true);
    assert Sub(fs, [backup, STATE]) == Sub(mid, [STATE]);
    assert Sub(fs, [backup, STATE])[q] == fs[[backup, STATE] + q];
  }

  /** The swap, the restoration of the external files and the final verification. */
  method CommitReversal(disk: Disk, stage: string, backup: string, ghost files: seq<Path>, ghost i: Installation,
                        ghost others: map<string, Tree>, ghost recorded: Installation, ghost reverse: ExternalState,
                        ghost state: ExternalState, ghost origin: Tree, managed: Tree -> bool)
    returns (ok: bool, started: bool, movedExisting: seq<string>, movedNew: seq<string>)
    requires Prepared(disk.fs, stage, backup) && ExternalScope(files, stage, backup) && Covers(state, files)
    requires forall n | IsRoot(n) :: Rooted(disk.fs, n) && Sub(disk.fs, [backup, n]) == map[]
    requires HasRoots(disk.fs, [stage], Roots(i, others, RecordedPoint(recorded, Some(reverse))))
    requires IsFileWith(disk.fs, POINT + [EXTERNAL_STATE], ExternalRecord(state))
    modifies disk
    ensures CommitState(old(disk.fs), disk.fs, stage, backup, files, Some(reverse), started, movedExisting, movedNew)
    ensures ok ==> CarriesRecord(disk.fs, Some(reverse)) && Matches(disk.fs, state)
    ensures ok ==> HasRoots(disk.fs, [], Roots(i, others, RecordedPoint(recorded, Some(reverse))))
    ensures ok ==> started
    ensures (Restorable(disk, old(disk.fs), state, files, origin) && NeverObjects(managed) &&
             (forall n | IsRoot(n) :: [n] in old(disk.fs))) ==> ok
  {
    forall n ensures IsRoot(n) <==> n in MANAGED_ROOTS { RootsList(n); }
    ScopeIsPrefixFree(files, stage, backup);
    hide *;
    ghost var mid := disk.fs;
    started := false;
    StagedIsSwappable(mid, stage, i, others, RecordedPoint(recorded, Some(reverse)));
    OldRootsAreSwappable(mid, stage);
    RestorableIsReliable(disk, mid, state, files, origin);
    ok, movedExisting, movedNew := SwapRoots(disk, stage, backup, true);
    ghost var swapped := disk.fs;
    ghost var roots := Roots(i, others, RecordedPoint(recorded, Some(reverse)));
    SwapCommits(mid, swapped, stage, backup, files, i, others, recorded, Some(reverse), movedExisting, movedNew);
    if !ok { return; }
    SwappedRoots(swapped, roots);
    RecordIsBackedUp(mid, swapped, stage, backup, state, movedExisting, movedNew);
    RecordRead(swapped, BackedUpRecord(backup), state);
    started := true;
    if Restorable(disk, mid, state, files, origin) {
      StillRestorable(disk, mid, swapped, state, files, origin, stage, backup) by {
        SwapPromise(mid, swapped, stage, backup, files, Some(reverse), movedExisting, movedNew);
      }
    }
    ok := RestoreExternalState(disk, disk.fs[BackedUpRecord(backup)].content.state, files, origin);
    RestoreCommits(mid, swapped, disk.fs, stage, backup, files, Some(reverse), movedExisting, movedNew, roots);
    if !ok { return; }
    ok := managed(disk.fs);
    NeverObjectsAt(managed, disk.fs);
  }

  lemma RestorableIsReliable(disk: Disk, fs: Tree, state: ExternalState, files: seq<Path>, origin: Tree)
    ensures Restorable(disk, fs, state, files, origin) ==> disk.reliable
  {
  }

  lemma OldRootsAreSwappable(mid: Tree, stage: string)
    requires Swappable(mid, stage, false)
    ensures (forall n | IsRoot(n) :: [n] in mid) ==> Swappable(mid, stage, true)
  {
  }

  /** Work at the roots and in the working directories is no obstacle to the restoration. */
  lemma StillRestorable(disk: Disk, before: Tree, fs: Tree, state: ExternalState, files: seq<Path>, origin: Tree,
                        stage: string, backup: string)
    requires Restorable(disk, before, state, files, origin) && ExternalScope(files, stage, backup)
    requires ExternalPromise(before, fs, stage, backup, files, true)
    ensures Restorable(disk, fs, state, files, origin)
  {
    hide KindsAreSafe, IsRoot, WellFormedNear, Describes;
    forall p | Near(files, p) && !InScope(files, p)
      ensures SameAt(origin, fs, p)
    {
      if p != [] {
        var f :| f in files && |f| > 0 && f[0] == p[0];
        assert Elsewhere(f, stage, backup);
      }
      assert SameAt(origin, before, p) && SameAt(before, fs, p);
    }
    forall p | InScope(files, p)
      ensures SameAt(before, fs, p)
    {
      ScopeElsewhere(files, stage, backup, p);
    }
    KindsFollow(before, fs, files);
  }

  lemma RecordRead(fs: Tree, p: Path, state: ExternalState)
    requires IsFileWith(fs, p, ExternalRecord(state))
    ensures p in fs && fs[p].File? && fs[p].content == ExternalRecord(state)
  {
  }

  lemma ScopeIsPrefixFree(files: seq<Path>, stage: string, backup: string)
    requires ExternalScope(files, stage, backup)
    ensures PrefixFree(files)
  {
  }

  lemma PointHasRecord(fs: Tree)
    requires IsPoint(fs)
    ensures IsFileWith(fs, POINT + [EXTERNAL_STATE], ExternalRecord(RecordedState(fs)))
  {
    hide Sub, Readable, Read, Directory, PointTree;
    ReadIsCoherent(fs, InPoint(POINT));
    ReadPoint(fs, POINT, Read(fs, InPoint(POINT)), RecordedState(fs));
  }

  lemma RecordStays(pre: Tree, mid: Tree, stage: string, backup: string, state: ExternalState)
    requires ReadyToSwap(pre, mid, stage, backup)
    requires IsFileWith(pre, POINT + [EXTERNAL_STATE], ExternalRecord(state))
    ensures IsFileWith(mid, POINT + [EXTERNAL_STATE], ExternalRecord(state))
  {
    RootsList(STATE);
    UnderHead([stage], POINT + [EXTERNAL_STATE]);
    assert SameAt(pre, mid, POINT + [EXTERNAL_STATE]);
  }

  lemma RecordedPointIs(recorded: Installation, state: ExternalState)
    ensures RecordedPoint(recorded, Some(state)) == Some(PointTree(recorded, state))
  {
  }

  lemma SwapIsComplete(pre: Tree, swapped: Tree, tidy: Tree, fs: Tree, stage: string, backup: string, files: seq<Path>,
                       state: ExternalState, reverse: ExternalState)
    requires Readable(pre, InTarget([])) && IsPoint(pre) && state == RecordedState(pre) && files == EntryPaths(state)
    requires ExternalScope(files, stage, backup) && Covers(state, files) && Fresh(stage, backup)
    requires Describes(reverse, pre, files)
    requires Matches(swapped, state)
    requires PartlyRemoved(swapped, tidy, [stage]) && PartlyRemoved(tidy, fs, [backup])
    requires HasRoots(fs, [], Roots(Read(pre, InPoint(POINT)), SystemSkills(pre),
                                    Some(PointTree(Read(pre, InTarget([])), reverse))))
    requires ExternalPromise(pre, fs, stage, backup, files, false)
    ensures Swapped(pre, fs, stage, backup, reverse)
  {
    hide Sub, IsRoot, Readable, Read, IsPoint, Roots, HasRoots, PointTree, SystemSkills, PartlyRemoved, CarriesRecord;
    TidyKeepsRoots(swapped, tidy, stage, stage, backup, files, None, map[]);
    TidyKeepsRoots(tidy, fs, backup, stage, backup, files, None, map[]);
    forall p | InScope(files, p)
      ensures SameAt(fs, swapped, p)
    {
      ScopeElsewhere(files, stage, backup, p);
      assert SameAt(swapped, tidy, p) && SameAt(tidy, fs, p);
    }
    DescribesEarlier(state, fs, swapped, files);
  }

  /** Stage, commit, and recover on failure. */
  method RunReversal(disk: Disk, stage: string, backup: string, state: ExternalState, files: seq<Path>, checks: Checks,
                     ghost origin: Tree)
    returns (outcome: Reversal)
    requires WellFormed(disk.fs) && Prepared(disk.fs, stage, backup) && NothingBelow(disk.fs, [backup])
    requires Readable(disk.fs, InTarget([])) && IsPoint(disk.fs)
    requires state == RecordedState(disk.fs) && files == EntryPaths(state)
    requires ExternalScope(files, stage, backup) && Covers(state, files)
    modifies disk
    ensures !outcome.Declined?
    ensures outcome.RolledBack? ==> Swapped(old(disk.fs), disk.fs, stage, backup, outcome.reverse)
    ensures outcome.Unchanged? ==> RootsAreBack(old(disk.fs), disk.fs)
    ensures outcome.Interrupted? ==> Conserved(old(disk.fs), disk.fs, backup) && IsDirAt(disk.fs, [backup])
    ensures outcome.Interrupted? && disk.reliable ==> RootsAreBack(old(disk.fs), disk.fs)
    ensures ExternalPromise(old(disk.fs), disk.fs, stage, backup, files, outcome.Unchanged?)
    ensures disk.reliable && outcome.Interrupted? ==> !KindsAreSafe(old(disk.fs), files)
    ensures (NeverObjects(checks.staged) && NeverObjects(checks.managed) &&
             Restorable(disk, old(disk.fs), state, files, origin)) ==> outcome.RolledBack?
  {
    ScopeAvoidsStage(files, stage, backup);
    PointHasRecord(disk.fs);
    PreparedIsFresh(disk.fs, stage, backup);
    hide *;
    ghost var pre := disk.fs;
    ghost var target, old1, system := Read(pre, InTarget([])), Read(pre, InPoint(POINT)), SystemSkills(pre);
    ReadableIsRecordable(disk, pre, state, files, origin);
    var staged := StageReversal(disk, stage, files, checks.staged);
    ghost var mid := disk.fs;
    StagingIsReady(pre, mid, stage, backup);
    var ok, started := false, false;
    var movedExisting: seq<string>, movedNew: seq<string> := [], [];
    ghost var roots: map<string, Tree> := map[];
    if staged.Some? {
      ReadyMeans(pre, mid, stage, backup);
      RecordStays(pre, mid, stage, backup, state);
      RecordedPointIs(target, staged.value);
      StagedIsRestorable(disk, pre, mid, state, files, origin, stage, backup);
      roots := Roots(old1, system, RecordedPoint(target, staged));
      ok, started, movedExisting, movedNew :=
        CommitReversal(disk, stage, backup, files, old1, system, target, staged.value, state, origin, checks.managed);
    } else {
      UntouchedCommits(pre, mid, stage, backup, files);
    }
    ghost var swapped := disk.fs;
    if ok {
      var tidied := disk.Remove([stage]);
      ghost var tidy := disk.fs;
      var dropped := disk.Remove([backup]);
      outcome := RolledBack(staged.value);
      InstalledPromise(pre, mid, swapped, tidy, disk.fs, stage, backup, files, staged, started, movedExisting, movedNew,
                       roots, false);
      HasTheseRoots(pre, mid, swapped, tidy, disk.fs, stage, backup, files, roots);
      SwapIsComplete(pre, swapped, tidy, disk.fs, stage, backup, files, state, staged.value);
    } else {
      outcome := Reverse(disk, stage, backup, files, staged, started, movedExisting, movedNew, pre, mid);
    }
  }

  lemma ReadableIsRecordable(disk: Disk, fs: Tree, state: ExternalState, files: seq<Path>, origin: Tree)
    requires Readable(fs, InTarget([]))
    ensures Restorable(disk, fs, state, files, origin) ==> disk.reliable && Recordable(fs, files)
  {
  }

  lemma StagedIsRestorable(disk: Disk, pre: Tree, mid: Tree, state: ExternalState, files: seq<Path>, origin: Tree,
                           stage: string, backup: string)
    requires ReadyToSwap(pre, mid, stage, backup) && ExternalScope(files, stage, backup) && Readable(pre, InTarget([]))
    ensures Restorable(disk, pre, state, files, origin) ==> Restorable(disk, mid, state, files, origin)
    ensures forall n | IsRoot(n) :: [n] in mid
  {
    hide *;
    StageKeepsExternal(pre, mid, stage, backup, files) by { ReadyIsInside(pre, mid, stage, backup); }
    if Restorable(disk, pre, state, files, origin) {
      StillRestorable(disk, pre, mid, state, files, origin, stage, backup);
    }
    forall n | IsRoot(n)
      ensures [n] in mid
    {
      ReadableRoots(pre, n);
      ReadyIsInside(pre, mid, stage, backup);
      TreeRootAt(pre, [n], mid, [n]);
    }
  }

  lemma ReadyIsInside(pre: Tree, mid: Tree, stage: string, backup: string)
    requires ReadyToSwap(pre, mid, stage, backup)
    ensures OnlyInside(pre, mid, stage) && forall n | IsRoot(n) :: Sub(mid, [n]) == Sub(pre, [n])
  {
    hide Sub, IsRoot, Rooted;
  }

  lemma ReadableRoots(fs: Tree, n: string)
    requires Readable(fs, InTarget([])) && IsRoot(n)
    ensures [n] in fs
  {
    assert [] + [n] == [n];
  }

  lemma PreparedIsFresh(fs: Tree, stage: string, backup: string)
    requires Prepared(fs, stage, backup)
    ensures Fresh(stage, backup)
  {
  }

  lemma HasTheseRoots(pre: Tree, mid: Tree, swapped: Tree, tidy: Tree, fs: Tree, stage: string, backup: string,
                      files: seq<Path>, roots: map<string, Tree>)
    requires HasRoots(swapped, [], roots) && Fresh(stage, backup)
    requires PartlyRemoved(swapped, tidy, [stage]) && PartlyRemoved(tidy, fs, [backup])
    ensures HasRoots(fs, [], roots)
  {
    hide *;
    TidyKeepsRoots(swapped, tidy, stage, stage, backup, files, None, roots);
    TidyKeepsRoots(tidy, fs, backup, stage, backup, files, None, roots);
  }

  /** The failure path. */
  method Reverse(disk: Disk, stage: string, backup: string, ghost files: seq<Path>, ghost reverse: Option<ExternalState>,
                 started: bool, movedExisting: seq<string>, movedNew: seq<string>, ghost pre: Tree, ghost mid: Tree)
    returns (outcome: Reversal)
    requires WellFormed(pre) && ReadyToSwap(pre, mid, stage, backup) && ExternalScope(files, stage, backup)
    requires CommitState(mid, disk.fs, stage, backup, files, reverse, started, movedExisting, movedNew)
    requires reverse.Some? ==> Describes(reverse.value, pre, files)
    requires started ==> reverse.Some?
    modifies disk
    ensures outcome.Unchanged? || outcome.Interrupted?
    ensures outcome.Unchanged? ==> RootsAreBack(pre, disk.fs)
    ensures outcome.Interrupted? ==> Conserved(pre, disk.fs, backup) && IsDirAt(disk.fs, [backup])
    ensures outcome.Interrupted? && disk.reliable ==> RootsAreBack(pre, disk.fs)
    ensures ExternalPromise(pre, disk.fs, stage, backup, files, outcome.Unchanged?)
    ensures disk.reliable && outcome.Interrupted? ==> !KindsAreSafe(pre, files)
  {
    hide *;
    ghost var swapped := disk.fs;
    AboutToRecover(disk, pre, mid, swapped, stage, backup, files, reverse, started, movedExisting, movedNew);
    var clean := Recover(disk, stage, backup, movedExisting, movedNew, started, reverse, files, mid, pre);
    ghost var recovered := disk.fs;
    var tidied := disk.Remove([stage]);
    ghost var tidy := disk.fs;
    RootsComeBack(pre, mid, recovered, tidy, stage, backup, files, disk.reliable);
    if clean { var dropped := disk.Remove([backup]); }
    outcome := if clean then Unchanged else Interrupted;
    RecoveredPromise(pre, mid, swapped, recovered, tidy, disk.fs, stage, backup, files, reverse, started, clean, true, false);
  }

  /** `_rollback_install` from the point where its two working directories exist. */
  method RollbackInstall(disk: Disk, stage: string, backup: string, checks: Checks, ghost origin: Tree)
    returns (outcome: Reversal)
    requires WellFormed(disk.fs) && Prepared(disk.fs, stage, backup) && NothingBelow(disk.fs, [backup])
    requires RecordFromSnapshot(disk.fs, stage, backup)
    modifies disk
    ensures outcome.Declined? <==>
      !checks.approved || !Readable(old(disk.fs), InTarget([])) || !IsPoint(old(disk.fs))
    ensures outcome.Declined? <==>
      !checks.approved || !Complete(old(disk.fs), ["AGENTS.md"], ["skills"], [".agent-skills"]) ||
      !PointIsComplete(old(disk.fs))
    ensures outcome.Declined? ==> disk.fs == old(disk.fs)
    ensures outcome.RolledBack? ==> Swapped(old(disk.fs), disk.fs, stage, backup, outcome.reverse)
    ensures outcome.RolledBack? ==> Exchanged(old(disk.fs), disk.fs, outcome.reverse)
    ensures outcome.Unchanged? ==> RootsAreBack(old(disk.fs), disk.fs)
    ensures outcome.Interrupted? ==> Conserved(old(disk.fs), disk.fs, backup) && IsDirAt(disk.fs, [backup])
    ensures outcome.Interrupted? && disk.reliable ==> RootsAreBack(old(disk.fs), disk.fs)
    ensures !outcome.Declined? ==>
      var files := EntryPaths(RecordedState(old(disk.fs)));
      ExternalPromise(old(disk.fs), disk.fs, stage, backup, files, outcome.Unchanged?)
    ensures disk.reliable && outcome.Interrupted? ==>
      !KindsAreSafe(old(disk.fs), EntryPaths(RecordedState(old(disk.fs))))
    ensures !outcome.Declined? && NeverObjects(checks.staged) && NeverObjects(checks.managed) ==>
      var state := RecordedState(old(disk.fs));
      Restorable(disk, old(disk.fs), state, EntryPaths(state), origin) ==> outcome.RolledBack?
  {
    RollbackNeeds(disk.fs);
    if !checks.approved || !Readable(disk.fs, InTarget([])) || !IsPoint(disk.fs) { return Declined; }
    var state := RecordedState(disk.fs);
    var files := EntryPaths(state);
    assert ExternalScope(files, stage, backup) && Covers(state, files);
    hide *;
    ghost var pre := disk.fs;
    outcome := RunReversal(disk, stage, backup, state, files, checks, origin);
    if outcome.RolledBack? { SwappedByPath(pre, disk.fs, stage, backup, outcome.reverse); }
  }

  // ---------------------------------------------------------------- two in a row

  /** Between two runs nothing happens but the making of new working directories. */
  ghost predicate OnlyDirectoriesMade(b: Tree, d: Tree, stage: string, backup: string) {
    forall p: Path | p == [] || (p[0] != stage && p[0] != backup) :: SameAt(b, d, p)
  }

  lemma MadeKeepsSubtrees(b: Tree, d: Tree, stage: string, backup: string, o: Path)
    requires OnlyDirectoriesMade(b, d, stage, backup) && |o| > 0 && o[0] != stage && o[0] != backup
    ensures Sub(d, o) == Sub(b, o)
  {
    hide SameAt;
    forall q
      ensures SameAt(b, d, o + q)
    {
      assert (o + q)[0] == o[0];
    }
    SameEverywhereBelow(b, d, o);
  }

  lemma SameEverywhereBelow(b: Tree, d: Tree, o: Path)
    requires forall q :: SameAt(b, d, o + q)
    ensures Sub(d, o) == Sub(b, o)
  {
    SameSubtree(b, o, d, o);
  }

  /** A second run finds what the first one left. */
  lemma MadeKeepsInstallation(b: Tree, d: Tree, stage: string, backup: string)
    requires OnlyDirectoriesMade(b, d, stage, backup) && Fresh(stage, backup)
    requires Readable(b, InTarget([])) && IsPoint(b)
    ensures Readable(d, InTarget([])) && Read(d, InTarget([])) == Read(b, InTarget([]))
    ensures IsPoint(d) && Read(d, InPoint(POINT)) == Read(b, InPoint(POINT)) && RecordedState(d) == RecordedState(b)
    ensures SystemSkills(d) == SystemSkills(b)
  {
    RootsList(STATE);
    RootsList(SKILLS);
    hide Sub, IsRoot, Readable, Read, IsPoint, OnlyDirectoriesMade;
    forall n | IsRoot(n)
      ensures Sub(b, [n]) == Sub(d, [n])
    {
      MadeKeepsSubtrees(b, d, stage, backup, [n]);
    }
    RootsDetermineReading(b, d);
    MadeKeepsSubtrees(b, d, stage, backup, POINT);
    PointIsItsTree(b, d);
    SameBelow(b, d, SKILLS, [SYSTEM]);
    assert [SKILLS] + [SYSTEM] == [SKILLS, SYSTEM];
  }

  /** Two successful rollbacks in a row are the identity on the installation its locks cover, on `.system`
      and on everything outside the managed roots.  Each run has working directories of its own. */
  lemma TwoRollbacksAreTheIdentity(a: Tree, b: Tree, d: Tree, c: Tree, stage: string, backup: string,
                                   stage2: string, backup2: string, first: ExternalState, second: ExternalState)
    requires Swapped(a, b, stage, backup, first) && RecordFromSnapshot(a, stage, backup)
    requires Fresh(stage2, backup2) && OnlyDirectoriesMade(b, d, stage2, backup2)
    requires Swapped(d, c, stage2, backup2, second)
    ensures Readable(c, InTarget([])) && Read(c, InTarget([])) == Read(a, InTarget([]))
    ensures SystemSkills(c) == SystemSkills(a)
    ensures IsDirAt(a, ["skills", ".system"]) ==> Sub(c, ["skills", ".system"]) == Sub(a, ["skills", ".system"])
    ensures forall p | Elsewhere(p, stage, backup) && Elsewhere(p, stage2, backup2) :: SameAt(a, c, p)
    ensures IsPoint(d) && RecordedState(d) == first && Read(d, InPoint(POINT)) == Read(a, InTarget([]))
  {
    hide Sub, Directory, Readable, Read, Roots, HasRoots, PointTree, SystemSkills, Describes, Covers, Matches, ExternalScope;
    var files := EntryPaths(RecordedState(a));
    ReadIsCoherent(a, InTarget([]));
    ReadIsCoherent(a, InPoint(POINT));
    AfterOneRollback(a, b, stage, backup, first);
    MadeKeepsInstallation(b, d, stage2, backup2);
    DescribesEntries(first, a, files);
    ReadRoots(c, Read(a, InTarget([])), SystemSkills(d), Some(PointTree(Read(d, InTarget([])), second)));
    SystemIsStable(d, c, Read(a, InTarget([])), Some(PointTree(Read(d, InTarget([])), second)));
    SystemStays(a, c);
    forall p | Elsewhere(p, stage, backup) && Elsewhere(p, stage2, backup2)
      ensures SameAt(a, c, p)
    {
      if InScope(files, p) {
        DescribesMeans(first, a, files);
        MatchingTreesAgree(first, a, c, files);
      } else {
        assert SameAt(a, b, p) && SameAt(b, d, p) && SameAt(d, c, p);
      }
    }
  }

  lemma SystemStays(a: Tree, c: Tree)
    requires SystemSkills(c) == SystemSkills(a)
    ensures IsDirAt(a, ["skills", ".system"]) ==> Sub(c, ["skills", ".system"]) == Sub(a, ["skills", ".system"])
  {
    hide Sub, SystemSkills;
    SystemSkillsByPath(a);
    SystemSkillsByPath(c);
    if IsDirAt(a, ["skills", ".system"]) {
      assert ".system" in SystemSkills(a);
      assert SystemSkills(c)[".system"] == SystemSkills(a)[".system"];
    }
  }

  lemma DescribesMeans(state: ExternalState, fs: Tree, files: seq<Path>)
    ensures Describes(state, fs, files) <==> Covers(state, files) && Matches(fs, state)
  {
  }

  /** The entries of a record are the files it was taken of. */
  lemma DescribesEntries(state: ExternalState, fs: Tree, files: seq<Path>)
    requires Describes(state, fs, files)
    ensures EntryPaths(state) == files
  {
  }

  lemma SystemIsStable(b: Tree, c: Tree, i: Installation, point: Option<Tree>)
    requires HasRoots(c, [], Roots(i, SystemSkills(b), point)) && Coherent(i)
    ensures SystemSkills(c) == SystemSkills(b)
  {
    SystemShape(b);
    hide SystemSkills, Roots, HasRoots;
    SystemIsKept(c, i, SystemSkills(b), point);
  }

  lemma SystemShape(fs: Tree)
    ensures SystemSkills(fs).Keys <= {SYSTEM}
    ensures SYSTEM in SystemSkills(fs) ==> IsDirAt(SystemSkills(fs)[SYSTEM], [])
  {
    hide Sub;
    assert [SKILLS] + [SYSTEM] == [SKILLS, SYSTEM];
    TreeRoot(fs, [SKILLS, SYSTEM], Sub(fs, [SKILLS, SYSTEM]));
  }

  /** What the target and its rollback point hold after one rollback. */
  lemma AfterOneRollback(a: Tree, b: Tree, stage: string, backup: string, first: ExternalState)
    requires Swapped(a, b, stage, backup, first)
    ensures Readable(b, InTarget([])) && Read(b, InTarget([])) == Read(a, InPoint(POINT))
    ensures IsPoint(b) && RecordedState(b) == first && Read(b, InPoint(POINT)) == Read(a, InTarget([]))
    ensures SystemSkills(b) == SystemSkills(a)
  {
    hide Sub, Directory, Readable, Read, PointTree, SystemSkills, Describes, Covers, Matches, ExternalScope, StateTree, FileTree;
    ReadIsCoherent(a, InTarget([]));
    ReadIsCoherent(a, InPoint(POINT));
    var i, point := Read(a, InPoint(POINT)), PointTree(Read(a, InTarget([])), first);
    ReadRoots(b, i, SystemSkills(a), Some(point));
    SystemIsStable(a, b, i, Some(point));
    PointInPlace(b, i, point);
    ReadPoint(b, POINT, Read(a, InTarget([])), first);
  }

  lemma PointInPlace(b: Tree, i: Installation, point: Tree)
    requires Sub(b, [] + [STATE]) == StateTree(i, Some(point))
    ensures Sub(b, POINT) == point
  {
    hide Sub, Directory, MetaParts;
    assert [] + [STATE] == [STATE] && [STATE] + [ROLLBACK_POINT] == POINT;
    ReadPart(b, [STATE], MetaParts(i)[ROLLBACK_POINT := point], ROLLBACK_POINT);
  }

  /** After a rollback nothing but a fault stops the way back: the new point is complete, its record is that of
      the tree before, and only the scope has changed since. */
  lemma SecondRollbackIsReady(disk: Disk, a: Tree, b: Tree, d: Tree, stage: string, backup: string,
                              stage2: string, backup2: string, first: ExternalState)
    requires Swapped(a, b, stage, backup, first) && RecordFromSnapshot(a, stage, backup)
    requires Fresh(stage2, backup2) && OnlyDirectoriesMade(b, d, stage2, backup2)
    requires ExternalScope(EntryPaths(RecordedState(a)), stage2, backup2)
    requires WellFormed(a) && disk.reliable
    ensures Readable(d, InTarget([])) && IsPoint(d) && RecordFromSnapshot(d, stage2, backup2)
    ensures Restorable(disk, d, RecordedState(d), EntryPaths(RecordedState(d)), a)
  {
    var files := EntryPaths(RecordedState(a));
    AfterOneRollback(a, b, stage, backup, first);
    MadeKeepsInstallation(b, d, stage2, backup2);
    MadePromises(b, d, stage2, backup2, files);
    hide Sub, Directory, Readable, Read, IsPoint, Roots, HasRoots, PointTree, SystemSkills, Covers, Matches, ExternalScope,
         WellFormed, WellFormedNear, Confined, KindsAreSafe, ExternalPromise, OnlyDirectoriesMade;
    DescribesEntries(first, a, files);
    MatchingKinds(b, RecordedState(a), files);
    StillNear(a, b, stage, backup, files);
    StillRestorable(disk, b, d, first, files, a, stage2, backup2);
  }

  lemma MadePromises(b: Tree, d: Tree, stage: string, backup: string, files: seq<Path>)
    requires OnlyDirectoriesMade(b, d, stage, backup)
    ensures ExternalPromise(b, d, stage, backup, files, true)
  {
    hide SameAt, InScope;
  }

  /** A tree that matches a record has nothing of the wrong kind in its scope. */
  lemma MatchingKinds(fs: Tree, state: ExternalState, files: seq<Path>)
    requires Covers(state, files) && Matches(fs, state)
    ensures KindsAreSafe(fs, files)
  {
    forall d | ScopeDirectory(files, d)
      ensures d in fs ==> fs[d].Dir?
    {
      var i := DirectoryIndex(state, files, d);
      assert DirectoryMatches(fs, state.directories[i]);
    }
    forall f | f in files
      ensures f in fs ==> fs[f].File?
    {
      var i :| 0 <= i < |files| && files[i] == f;
      assert FileMatches(fs, state.entries[i]);
    }
  }

  /** After two rollbacks a managed Skill is what it was without the files the operating system dropped into
      it, so it comes back whole exactly when there were none. */
  lemma SkillsComeBack(a: Tree, b: Tree, d: Tree, c: Tree, stage: string, backup: string, stage2: string, backup2: string,
                       first: ExternalState, second: ExternalState, n: string)
    requires Swapped(a, b, stage, backup, first) && RecordFromSnapshot(a, stage, backup)
    requires Fresh(stage2, backup2) && OnlyDirectoriesMade(b, d, stage2, backup2)
    requires Swapped(d, c, stage2, backup2, second)
    requires n in Read(a, InTarget([])).skills
    ensures Sub(c, [SKILLS, n]) == Clean(Sub(a, [SKILLS, n]))
    ensures Sub(c, [SKILLS, n]) == Sub(a, [SKILLS, n]) <==>
            forall q | q in Sub(a, [SKILLS, n]) :: !IsOsMetadata(Sub(a, [SKILLS, n]), q)
  {
    hide Sub, Clean, Directory, Readable, Read, PointTree, SystemSkills, Describes, Covers, Matches, ExternalScope,
         StateTree, Roots, HasRoots, RecordFromSnapshot, IsOsMetadata, OnlyDirectoriesMade;
    AfterOneRollback(a, b, stage, backup, first);
    MadeKeepsInstallation(b, d, stage2, backup2);
    SkillRead(a, n);
    SkillHeld(c, Read(d, InPoint(POINT)), SystemSkills(d), Some(PointTree(Read(d, InTarget([])), second)), n);
    CleanIsWhole(Sub(a, [SKILLS, n]));
  }

  /** The same for a package. */
  lemma PackagesComeBack(a: Tree, b: Tree, d: Tree, c: Tree, stage: string, backup: string, stage2: string,
                         backup2: string, first: ExternalState, second: ExternalState, n: string)
    requires Swapped(a, b, stage, backup, first) && RecordFromSnapshot(a, stage, backup)
    requires Fresh(stage2, backup2) && OnlyDirectoriesMade(b, d, stage2, backup2)
    requires Swapped(d, c, stage2, backup2, second)
    requires n in Read(a, InTarget([])).packages
    ensures Sub(c, [STATE, PACKAGES, n]) == Clean(Sub(a, [STATE, PACKAGES, n]))
    ensures Sub(c, [STATE, PACKAGES, n]) == Sub(a, [STATE, PACKAGES, n]) <==>
            forall q | q in Sub(a, [STATE, PACKAGES, n]) :: !IsOsMetadata(Sub(a, [STATE, PACKAGES, n]), q)
  {
    hide Sub, Clean, Directory, Readable, Read, PointTree, SystemSkills, Describes, Covers, Matches, ExternalScope,
         StateTree, Roots, HasRoots, RecordFromSnapshot, IsOsMetadata, OnlyDirectoriesMade;
    AfterOneRollback(a, b, stage, backup, first);
    MadeKeepsInstallation(b, d, stage2, backup2);
    PackageRead(a, n);
    PackageHeld(c, Read(d, InPoint(POINT)), SystemSkills(d), PointTree(Read(d, InTarget([])), second), n);
    CleanIsWhole(Sub(a, [STATE, PACKAGES, n]));
  }

  lemma PackageHeld(c: Tree, i: Installation, others: map<string, Tree>, point: Tree, n: string)
    requires HasRoots(c, [], Roots(i, others, Some(point))) && n in i.packages
    ensures Sub(c, [STATE, PACKAGES, n]) == i.packages[n]
  {
    hide Sub, Directory, FileTree;
    assert STATE in MANAGED_ROOTS && [] + [STATE] == [STATE];
    var parts := MetaParts(i)[ROLLBACK_POINT := point];
    MetaPartsAre(i);
    NoPointInMeta(i);
    hide MetaParts;
    ReadPart(c, [STATE], parts, PACKAGES);
    ReadPart(c, [STATE] + [PACKAGES], i.packages, n);
    assert [STATE] + [PACKAGES] + [n] == [STATE, PACKAGES, n];
  }

  lemma PackageRead(a: Tree, n: string)
    requires Readable(a, InTarget([])) && n in Read(a, InTarget([])).packages
    ensures Read(a, InTarget([])).packages[n] == Clean(Sub(a, [STATE, PACKAGES, n]))
  {
    hide Sub, Clean;
    assert [] + [STATE] + [PACKAGES] + [n] == [STATE, PACKAGES, n];
  }

  lemma SkillHeld(c: Tree, i: Installation, others: map<string, Tree>, point: Option<Tree>, n: string)
    requires HasRoots(c, [], Roots(i, others, point)) && n in i.skills
    ensures Sub(c, [SKILLS, n]) == i.skills[n]
  {
    hide Sub, Directory, StateTree, FileTree;
    assert SKILLS in MANAGED_ROOTS && [] + [SKILLS] == [SKILLS] && [SKILLS] + [n] == [SKILLS, n];
    HeldSkills(c, [SKILLS], others, i.skills);
  }

  lemma SkillRead(a: Tree, n: string)
    requires Readable(a, InTarget([])) && n in Read(a, InTarget([])).skills
    ensures Read(a, InTarget([])).skills[n] == Clean(Sub(a, [SKILLS, n]))
  {
    hide Sub, Clean;
    assert [] + [SKILLS] + [n] == [SKILLS, n];
  }
}
