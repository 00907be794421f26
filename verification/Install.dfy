/** `install_bundle`: stage, swap, activate, verify, and recover on any failure.

    The stage is a new directory inside the target that holds the three managed roots as they will be: the
    instructions, the Skills of the bundle beside those of the user, and the managed directory with the packages,
    both locks, the activation lock of the target and, on request, a rollback point.  The swap moves each old root
    into a backup and each staged one to its place, and a handler may then change external files.  Whatever fails
    is undone from the backup and, for external files, from the rollback point. */
module Install {
  import opened Wrappers
  import opened FileSystem
  import opened Order
  import opened External
  import opened Installations
  import opened ByPath
  import opened Transactions
  import opened RollbackPoints
  import opened Recovery

  /** The validated bundle: what the plan says must be on disk. */
  datatype Bundle = Bundle(
    agents: Content,
    skills: map<string, Tree>,
    packages: map<string, Tree>,
    installLock: Content,
    packageLock: Content)

  /** The verdicts of checks that look at more than this model does: plan validation and approved identities,
      `_verify_staged_install` and `_is_managed_install`. */
  datatype Checks = Checks(approved: bool, staged: Tree -> bool, managed: Tree -> bool)

  ghost predicate NeverObjects(check: Tree -> bool) { forall t :: check(t) }

  /** A rollback point of this target can be written. */
  ghost predicate Recordable(fs: Tree, files: seq<Path>) { Readable(fs, InTarget([])) && KindsAreSafe(fs, files) }

  /** The installation a bundle becomes; the activation lock of the target is carried over. */
  function Result(bundle: Bundle, pre: Tree): Installation {
    Installation(bundle.agents, bundle.skills, bundle.packages, bundle.installLock, bundle.packageLock, CurrentActivation(pre))
  }

  function CurrentActivation(fs: Tree): Option<Content> {
    if IsFileAt(fs, [STATE, ACTIVATION_LOCK]) then Some(fs[[STATE, ACTIVATION_LOCK]].content) else None
  }

  ghost function PointOf(pre: Tree, point: Option<ExternalState>): Option<Tree>
    requires point.Some? ==> Readable(pre, InTarget([]))
  {
    match point
    case None => None
    case Some(state) => Some(PointTree(Read(pre, InTarget([])), state))
  }

  /** What staging must have produced, and what a successful installation leaves. */
  ghost function StagedRoots(pre: Tree, bundle: Bundle, point: Option<ExternalState>): map<string, Tree>
    requires point.Some? ==> Readable(pre, InTarget([]))
  {
    Roots(Result(bundle, pre), UserSkills(pre, bundle.skills.Keys), PointOf(pre, point))
  }

  /** What an installation leaves below `base`, path by path: the bundle, the other Skills of the target, its
      activation lock and, on request, a rollback point of what was there. */
  ghost predicate InstalledFiles(pre: Tree, fs: Tree, base: Path, bundle: Bundle, point: Option<ExternalState>) {
    && OnlyFile(fs, base + ["AGENTS.md"], bundle.agents)
    && IsManagedDirectory(fs, base + ["skills"])
    && (forall n: string :: InstalledSkill(pre, fs, base + ["skills"] + [n], bundle.skills, n))
    && InstalledState(pre, fs, base + [".agent-skills"], bundle, point)
  }

  ghost predicate InstalledSkill(pre: Tree, fs: Tree, p: Path, skills: map<string, Tree>, n: string) {
    if n in skills then Holding(fs, p, skills[n])
    else if IsDirAt(pre, ["skills", n]) then SameTree(pre, ["skills", n], fs, p)
    else Nothing(fs, p)
  }

  ghost predicate InstalledPackage(fs: Tree, p: Path, packages: map<string, Tree>, n: string) {
    if n in packages then Holding(fs, p, packages[n]) else Nothing(fs, p)
  }

  ghost predicate InstalledState(pre: Tree, fs: Tree, root: Path, bundle: Bundle, point: Option<ExternalState>) {
    var activation := [".agent-skills", "activation-lock.json"];
    && IsManagedDirectory(fs, root)
    && IsManagedDirectory(fs, root + ["packages"])
    && (forall n: string :: InstalledPackage(fs, root + ["packages"] + [n], bundle.packages, n))
    && OnlyFile(fs, root + ["install-lock.json"], bundle.installLock)
    && OnlyFile(fs, root + ["agent-skills.lock"], bundle.packageLock)
    && (if activation in pre && pre[activation].File?
        then OnlyFile(fs, root + ["activation-lock.json"], pre[activation].content)
        else Nothing(fs, root + ["activation-lock.json"]))
    && (if point.Some?
        then PointRecords(pre, ["AGENTS.md"], ["skills"], [".agent-skills"], fs, root + ["rollback-point"], point.value)
        else Nothing(fs, root + ["rollback-point"]))
    && forall n: string | n !in StateNames() :: Nothing(fs, root + [n])
  }

  /** The staged roots are exactly these files. */
  lemma InstalledByPath(pre: Tree, fs: Tree, base: Path, bundle: Bundle, point: Option<ExternalState>)
    requires point.Some? ==> Readable(pre, InTarget([]))
    ensures HasRoots(fs, base, StagedRoots(pre, bundle, point)) <==> InstalledFiles(pre, fs, base, bundle, point)
  {
    hide *;
    ResultIs(bundle, pre, point);
    RootsByPath(fs, base, Result(bundle, pre), UserSkills(pre, bundle.skills.Keys), PointOf(pre, point));
    SkillsByPath(pre, fs, base + ["skills"], bundle.skills);
    StateByPath(pre, fs, base + [".agent-skills"], bundle, point);
    InstalledMeans(pre, fs, base, bundle, point);
  }

  lemma InstalledMeans(pre: Tree, fs: Tree, base: Path, bundle: Bundle, point: Option<ExternalState>)
    ensures InstalledFiles(pre, fs, base, bundle, point) <==>
      && OnlyFile(fs, base + ["AGENTS.md"], bundle.agents)
      && (IsManagedDirectory(fs, base + ["skills"]) &&
          forall n: string :: InstalledSkill(pre, fs, base + ["skills"] + [n], bundle.skills, n))
      && InstalledState(pre, fs, base + [".agent-skills"], bundle, point)
  {
    hide OnlyFile, IsManagedDirectory, InstalledSkill, InstalledState;
  }

  lemma ResultIs(bundle: Bundle, pre: Tree, point: Option<ExternalState>)
    requires point.Some? ==> Readable(pre, InTarget([]))
    ensures StagedRoots(pre, bundle, point) ==
            Roots(Result(bundle, pre), UserSkills(pre, bundle.skills.Keys), PointOf(pre, point))
    ensures Result(bundle, pre).agents == bundle.agents && Result(bundle, pre).skills == bundle.skills
    ensures Result(bundle, pre).packages == bundle.packages && Result(bundle, pre).installLock == bundle.installLock
    ensures Result(bundle, pre).packageLock == bundle.packageLock
    ensures var activation := [".agent-skills", "activation-lock.json"];
            Result(bundle, pre).activation ==
            if activation in pre && pre[activation].File? then Some(pre[activation].content) else None
  {
    hide Roots, UserSkills, PointOf;
    assert [STATE, ACTIVATION_LOCK] == [".agent-skills", "activation-lock.json"];
  }

  lemma SkillsByPath(pre: Tree, fs: Tree, root: Path, skills: map<string, Tree>)
    ensures Listing(fs, root, UserSkills(pre, skills.Keys) + skills) <==>
            IsManagedDirectory(fs, root) && forall n: string :: InstalledSkill(pre, fs, root + [n], skills, n)
  {
    hide Sub, UserSkills, IsManagedDirectory, InstalledSkill;
    var parts := UserSkills(pre, skills.Keys) + skills;
    forall n: string
      ensures Sub(fs, root + [n]) == (if n in parts then parts[n] else map[]) <==>
              InstalledSkill(pre, fs, root + [n], skills, n)
    {
      SkillByPath(pre, fs, root + [n], skills, n);
    }
  }

  lemma SkillByPath(pre: Tree, fs: Tree, p: Path, skills: map<string, Tree>, n: string)
    ensures var parts := UserSkills(pre, skills.Keys) + skills;
            Sub(fs, p) == (if n in parts then parts[n] else map[]) <==> InstalledSkill(pre, fs, p, skills, n)
  {
    hide Sub, UserSkills, Holding, Nothing, SameTree;
    UserSkillsAt(pre, skills.Keys, n);
    assert [SKILLS] + [n] == ["skills", n] && [SKILLS, n] == ["skills", n];
    if n in skills { SubByPath(fs, p, skills[n]); }
    SameTreeByPath(pre, ["skills", n], fs, p);
    NothingByPath(fs, p);
  }

  lemma StateByPath(pre: Tree, fs: Tree, root: Path, bundle: Bundle, point: Option<ExternalState>)
    requires point.Some? ==> Readable(pre, InTarget([]))
    ensures StateEntries(fs, root, Result(bundle, pre), PointOf(pre, point)) <==>
            InstalledState(pre, fs, root, bundle, point)
  {
    hide *;
    ResultIs(bundle, pre, point);
    PackagesByPath(fs, root + ["packages"], bundle.packages);
    PointPlaceByPath(pre, fs, root + ["rollback-point"], point);
    StateEntriesAre(fs, root, Result(bundle, pre), PointOf(pre, point));
    InstalledStateIs(pre, fs, root, bundle, point);
  }

  lemma StateEntriesAre(fs: Tree, root: Path, i: Installation, point: Option<Tree>)
    ensures StateEntries(fs, root, i, point) <==>
      && IsManagedDirectory(fs, root)
      && Listing(fs, root + ["packages"], i.packages)
      && OnlyFile(fs, root + ["install-lock.json"], i.installLock)
      && OnlyFile(fs, root + ["agent-skills.lock"], i.packageLock)
      && ActivationPlace(fs, root + ["activation-lock.json"], i.activation)
      && PointPlace(fs, root + ["rollback-point"], point)
      && Unnamed(fs, root, StateNames())
  {
    hide Sub, OnlyFile, Nothing, IsManagedDirectory, Listing, Unnamed, StateNames;
    UnnamedByPath(fs, root, StateNames());
  }

  ghost predicate ActivationPlace(fs: Tree, p: Path, activation: Option<Content>) {
    if activation.Some? then OnlyFile(fs, p, activation.value) else Nothing(fs, p)
  }

  ghost predicate PointPlace(fs: Tree, p: Path, point: Option<Tree>) {
    if point.Some? then Sub(fs, p) == point.value else Nothing(fs, p)
  }

  lemma InstalledStateIs(pre: Tree, fs: Tree, root: Path, bundle: Bundle, point: Option<ExternalState>)
    requires point.Some? ==> Readable(pre, InTarget([]))
    ensures InstalledState(pre, fs, root, bundle, point) <==>
      && IsManagedDirectory(fs, root)
      && (IsManagedDirectory(fs, root + ["packages"]) &&
          forall n: string :: InstalledPackage(fs, root + ["packages"] + [n], bundle.packages, n))
      && OnlyFile(fs, root + ["install-lock.json"], bundle.installLock)
      && OnlyFile(fs, root + ["agent-skills.lock"], bundle.packageLock)
      && ActivationPlace(fs, root + ["activation-lock.json"], Result(bundle, pre).activation)
      && PointPlace(fs, root + ["rollback-point"], PointOf(pre, point))
      && Unnamed(fs, root, StateNames())
  {
    ResultIs(bundle, pre, point);
    hide Sub, OnlyFile, Nothing, IsManagedDirectory, InstalledPackage, Unnamed, StateNames, Result, PointPlace, PointOf,
         PointRecords, Readable;
    PointPlaceByPath(pre, fs, root + ["rollback-point"], point);
    UnnamedByPath(fs, root, StateNames());
  }

  lemma PointPlaceByPath(pre: Tree, fs: Tree, p: Path, point: Option<ExternalState>)
    requires point.Some? ==> Readable(pre, InTarget([]))
    ensures PointPlace(fs, p, PointOf(pre, point)) <==>
            if point.Some?
            then PointRecords(pre, ["AGENTS.md"], ["skills"], [".agent-skills"], fs, p, point.value)
            else Nothing(fs, p)
  {
    TargetLayout();
    hide *;
    PointPlaceIs(pre, fs, p, point);
    if point.Some? { PointByPath(pre, InTarget([]), fs, p, point.value); }
  }

  lemma TargetLayout()
    ensures InTarget([]) == Layout(["AGENTS.md"], ["skills"], [".agent-skills"])
  {
  }

  lemma PointPlaceIs(pre: Tree, fs: Tree, p: Path, point: Option<ExternalState>)
    requires point.Some? ==> Readable(pre, InTarget([]))
    ensures PointPlace(fs, p, PointOf(pre, point)) <==>
      if point.Some? then Sub(fs, p) == PointTree(Read(pre, InTarget([])), point.value) else Nothing(fs, p)
  {
    hide Sub, Nothing, Read, PointTree, Readable;
  }

  lemma PackagesByPath(fs: Tree, root: Path, packages: map<string, Tree>)
    ensures Listing(fs, root, packages) <==>
            IsManagedDirectory(fs, root) && forall n: string :: InstalledPackage(fs, root + [n], packages, n)
  {
    hide Sub, Holding, Nothing, IsManagedDirectory;
    forall n: string
      ensures Sub(fs, root + [n]) == (if n in packages then packages[n] else map[]) <==>
              InstalledPackage(fs, root + [n], packages, n)
    {
      if n in packages { SubByPath(fs, root + [n], packages[n]); }
      NothingByPath(fs, root + [n]);
    }
    hide InstalledPackage;
  }

  // ---------------------------------------------------------------- staging

  /** `fs` differs from `before` at most strictly inside the stage. */
  ghost predicate OnlyInside(before: Tree, fs: Tree, stage: string) {
    forall p | !Under([stage], p) || p == [stage] :: SameAt(before, fs, p)
  }

  lemma InsideCompose(a: Tree, b: Tree, c: Tree, stage: string, n: string)
    requires OnlyInside(a, b, stage) && ChangedOnlyUnder(b, c, [stage, n])
    ensures OnlyInside(a, c, stage)
  {
    forall p | !Under([stage], p) || p == [stage]
      ensures SameAt(a, c, p)
    {
      UnderHead([stage, n], p);
      assert SameAt(a, b, p) && SameAt(b, c, p);
    }
  }

  lemma InsideKeepsOthers(before: Tree, fs: Tree, stage: string, o: Path)
    requires OnlyInside(before, fs, stage) && |o| > 0 && o[0] != stage
    ensures Sub(fs, o) == Sub(before, o)
  {
    forall q
      ensures SameAt(before, fs, o + q)
    {
      assert (o + q)[0] == o[0];
    }
    SameSubtree(before, o, fs, o);
  }

  function Restrict(trees: map<string, Tree>, names: set<string>): map<string, Tree> {
    map n | n in trees && n in names :: trees[n]
  }

  lemma OneMore(parts: map<string, Tree>, trees: map<string, Tree>, done: set<string>, n: string)
    requires n in trees
    ensures parts + Restrict(trees, done + {n}) == (parts + Restrict(trees, done))[n := trees[n]]
  {
  }

  lemma AllOrNone(parts: map<string, Tree>, trees: map<string, Tree>)
    ensures parts + Restrict(trees, {}) == parts
    ensures parts + Restrict(trees, trees.Keys) == parts + trees
  {
    assert Restrict(trees, trees.Keys) == trees;
    assert Restrict(trees, {}) == map[];
  }

  /** Copies a family of trees into a directory of the stage, one after another. */
  method CopyFamily(disk: Disk, root: Path, trees: map<string, Tree>, ghost parts: map<string, Tree>) returns (ok: bool)
    requires Sub(disk.fs, root) == Directory(parts)
    modifies disk
    ensures ChangedOnlyUnder(old(disk.fs), disk.fs, root)
    ensures ok ==> Sub(disk.fs, root) == Directory(parts + trees)
    ensures disk.reliable ==> ok
  {
    hide Sub, Directory, ChangedOnlyUnder, Restrict;
    ghost var before := disk.fs;
    NothingChangedUnder(before, root);
    var rest := trees.Keys;
    ghost var done: set<string> := {};
    AllOrNone(parts, trees);
    while rest != {}
      invariant rest <= trees.Keys && done == trees.Keys - rest
      invariant ChangedOnlyUnder(before, disk.fs, root)
      invariant Sub(disk.fs, root) == Directory(parts + Restrict(trees, done))
      decreases |rest|
    {
      var n :| n in rest;
      rest := rest - {n};
      ghost var mid := disk.fs;
      ok := PutPart(disk, root, parts + Restrict(trees, done), n, trees[n]);
      ChangedBelow(mid, disk.fs, root, [n]);
      ChangesCompose(before, mid, disk.fs, root);
      if !ok { return; }
      OneMore(parts, trees, done, n);
      done := done + {n};
    }
    assert done == trees.Keys;
    ok := true;
  }

  lemma UserSkillsAreOthers(fs: Tree, skills: map<string, Tree>)
    ensures skills + UserSkills(fs, skills.Keys) == UserSkills(fs, skills.Keys) + skills
  {
    hide Sub;
  }

  /** The Skill directories of the stage: those of the bundle, then those of the user. */
  method StageSkills(disk: Disk, stage: string, skills: map<string, Tree>) returns (ok: bool)
    requires !IsRoot(stage)
    modifies disk
    ensures ChangedOnlyUnder(old(disk.fs), disk.fs, [stage, SKILLS])
    ensures ok ==> Sub(disk.fs, [stage, SKILLS]) == Directory(UserSkills(old(disk.fs), skills.Keys) + skills)
    ensures disk.reliable ==> ok
  {
    assert stage != SKILLS;
    hide Sub, Directory, IsRoot, UserSkills, ChangedOnlyUnder;
    ghost var pre := disk.fs;
    var root := [stage, SKILLS];
    ok := disk.CopyTree(Directory(map[]), root);
    if !ok { return; }
    SubOfGraft(pre, root, Directory(map[]));
    ghost var made := disk.fs;
    ok := CopyFamily(disk, root, skills, map[]);
    ChangesCompose(pre, made, disk.fs, root);
    if !ok { return; }
    assert map[] + skills == skills;
    ghost var mid := disk.fs;
    SameUserSkills(pre, mid, root, skills.Keys);
    var others := UserSkills(disk.fs, skills.Keys);
    ok := CopyFamily(disk, root, others, skills);
    ChangesCompose(pre, mid, disk.fs, root);
    UserSkillsAreOthers(pre, skills);
  }

  lemma SameUserSkills(pre: Tree, fs: Tree, root: Path, managed: set<string>)
    requires ChangedOnlyUnder(pre, fs, root) && |root| > 0 && root[0] != SKILLS
    ensures UserSkills(fs, managed) == UserSkills(pre, managed)
  {
    hide Sub;
    OtherSubtrees(pre, fs, root);
    forall p: Path | |p| > 0 && p[0] == SKILLS
      ensures SameAt(pre, fs, p) && Apart(root, p)
    {
      HeadsApart(root, p);
    }
    var a, b := UserSkills(pre, managed), UserSkills(fs, managed);
    hide UserSkills;
    forall n
      ensures n in a <==> n in b
      ensures n in a ==> a[n] == b[n]
    {
      UserSkillsAt(pre, managed, n);
      UserSkillsAt(fs, managed, n);
      assert [SKILLS] + [n] == [SKILLS, n] && [SKILLS, n][0] == SKILLS;
      assert SameAt(pre, fs, [SKILLS, n]) && Apart(root, [SKILLS, n]);
    }
    assert a.Keys == b.Keys;
  }

  lemma UserSkillsAt(fs: Tree, managed: set<string>, n: string)
    ensures n in UserSkills(fs, managed) <==> n !in managed && IsDirAt(fs, [SKILLS, n])
    ensures n in UserSkills(fs, managed) ==> UserSkills(fs, managed)[n] == Sub(fs, [SKILLS] + [n])
  {
    hide Sub;
    if IsDirAt(fs, [SKILLS, n]) {
      assert [SKILLS, n] in fs && |[SKILLS, n]| == 2 && [SKILLS, n][0] == SKILLS && [SKILLS, n][1] == n;
    }
    forall p | p in fs && |p| == 2 && p[0] == SKILLS && p[1] == n
      ensures p == [SKILLS, n]
    {
    }
  }

  datatype StageResult = StageFailed | Staged(point: Option<ExternalState>)

  /** The managed directory of the stage. */
  method StageState(disk: Disk, stage: string, bundle: Bundle, persistent: bool, files: seq<Path>, staged: Tree -> bool)
    returns (r: StageResult)
    requires !IsRoot(stage)
    requires forall p | InScope(files, p) :: |p| > 0 && p[0] != stage
    modifies disk
    ensures ChangedOnlyUnder(old(disk.fs), disk.fs, [stage, STATE])
    ensures r.Staged? ==> (persistent <==> r.point.Some?)
    ensures r.Staged? && r.point.Some? ==>
      Readable(old(disk.fs), InTarget([])) && Describes(r.point.value, old(disk.fs), files)
    ensures r.Staged? ==>
      Sub(disk.fs, [stage, STATE]) == StateTree(Result(bundle, old(disk.fs)), PointOf(old(disk.fs), r.point))
    ensures disk.reliable && NeverObjects(staged) && (persistent ==> Recordable(old(disk.fs), files)) ==> r.Staged?
  {
    assert stage != STATE;
    hide Sub, Directory, IsRoot, FileTree, Readable, Read, Describes, ChangedOnlyUnder, PointTree, Recordable;
    ghost var pre := disk.fs;
    var root := [stage, STATE];
    var activation := CurrentActivation(disk.fs);
    var ok := disk.CopyTree(Directory(map[]), root);
    if !ok { return StageFailed; }
    SubOfGraft(pre, root, Directory(map[]));
    ghost var parts: map<string, Tree> := map[];
    ok := PutFamily(disk, root, parts, PACKAGES, bundle.packages, pre);
    if !ok { return StageFailed; }
    parts := parts[PACKAGES := Directory(bundle.packages)];
    if activation.Some? {
      ok := PutNext(disk, root, parts, ACTIVATION_LOCK, FileTree(activation.value), pre);
      if !ok { return StageFailed; }
      parts := parts[ACTIVATION_LOCK := FileTree(activation.value)];
    }
    ok := PutNext(disk, root, parts, PACKAGE_LOCK, FileTree(bundle.packageLock), pre);
    if !ok { return StageFailed; }
    parts := parts[PACKAGE_LOCK := FileTree(bundle.packageLock)];
    var point: Option<ExternalState> := None;
    if persistent {
      point := StagePoint(disk, root, parts, files, pre);
      if point.None? { return StageFailed; }
      parts := parts[ROLLBACK_POINT := PointTree(Read(pre, InTarget([])), point.value)];
    }
    if !staged(disk.fs) { return StageFailed; }
    ok := PutNext(disk, root, parts, INSTALL_LOCK, FileTree(bundle.installLock), pre);
    if !ok { return StageFailed; }
    StatePartsListed(Result(bundle, pre), PointOf(pre, point));
    r := Staged(point);
  }

  /** The order in which the source writes the pieces does not matter. */
  lemma StatePartsListed(i: Installation, point: Option<Tree>)
    ensures var first := map[PACKAGES := Directory(i.packages)];
            var second := if i.activation.Some? then first[ACTIVATION_LOCK := FileTree(i.activation.value)] else first;
            var third := second[PACKAGE_LOCK := FileTree(i.packageLock)];
            var fourth := if point.Some? then third[ROLLBACK_POINT := point.value] else third;
            StateTree(i, point) == Directory(fourth[INSTALL_LOCK := FileTree(i.installLock)])
  {
    hide Directory, FileTree;
    NamesDiffer();
    var u := [AGENTS, SKILLS, PACKAGES, INSTALL_LOCK, PACKAGE_LOCK, ACTIVATION_LOCK];
    assert u[2] != u[3] && u[2] != u[4] && u[2] != u[5] && u[3] != u[4] && u[3] != u[5] && u[4] != u[5];
    assert |ROLLBACK_POINT| == 14 && |INSTALL_LOCK| == 17;
    StateOrder(PACKAGES, INSTALL_LOCK, PACKAGE_LOCK, ACTIVATION_LOCK, ROLLBACK_POINT,
               Directory(i.packages), FileTree(i.installLock), FileTree(i.packageLock),
               FileTree(if i.activation.Some? then i.activation.value else i.agents),
               if point.Some? then point.value else map[]);
  }

  lemma StateOrder<T>(p: string, l: string, k: string, c: string, r: string, tp: T, tl: T, tk: T, tc: T, tr: T)
    requires p != l && p != k && p != c && l != k && l != c && k != c && r != l
    ensures map[p := tp, l := tl, k := tk] == map[p := tp][k := tk][l := tl]
    ensures map[p := tp, l := tl, k := tk][c := tc] == map[p := tp][c := tc][k := tk][l := tl]
    ensures map[p := tp, l := tl, k := tk][r := tr] == map[p := tp][k := tk][r := tr][l := tl]
    ensures map[p := tp, l := tl, k := tk][c := tc][r := tr] == map[p := tp][c := tc][k := tk][r := tr][l := tl]
  {
  }

  method PutFamily(disk: Disk, root: Path, ghost parts: map<string, Tree>, n: string, trees: map<string, Tree>,
                   ghost pre: Tree) returns (ok: bool)
    requires Sub(disk.fs, root) == Directory(parts) && ChangedOnlyUnder(pre, disk.fs, root)
    modifies disk
    ensures ChangedOnlyUnder(pre, disk.fs, root)
    ensures ok ==> Sub(disk.fs, root) == Directory(parts[n := Directory(trees)])
    ensures disk.reliable ==> ok
  {
    hide Sub, Directory, ChangedOnlyUnder;
    ok := PutNext(disk, root, parts, n, Directory(map[]), pre);
    if !ok { return; }
    ghost var mid := disk.fs;
    DirectoryPart(parts[n := Directory(map[])], n);
    SubOfSub(mid, root, [n]);
    ok := CopyFamily(disk, root + [n], trees, map[]);
    assert map[] + trees == trees;
    ChangedBelow(mid, disk.fs, root, [n]);
    ChangesCompose(pre, mid, disk.fs, root);
    if ok {
      PartAdded(mid, disk.fs, root, parts[n := Directory(map[])], n, Directory(trees));
      assert parts[n := Directory(map[])][n := Directory(trees)] == parts[n := Directory(trees)];
    }
  }

  /** Writes a rollback point of the target into the stage. */
  method WriteStagedPoint(disk: Disk, root: Path, ghost parts: map<string, Tree>, files: seq<Path>, ghost pre: Tree)
    returns (point: Option<ExternalState>)
    requires Sub(disk.fs, root) == Directory(parts) && ChangedOnlyUnder(pre, disk.fs, root)
    requires |root| > 0 && !IsRoot(root[0]) && forall p | InScope(files, p) :: |p| > 0 && p[0] != root[0]
    modifies disk
    ensures ChangedOnlyUnder(pre, disk.fs, root)
    ensures point.Some? ==> Readable(pre, InTarget([])) && Describes(point.value, pre, files)
    ensures point.Some? ==>
      Sub(disk.fs, root) == Directory(parts[ROLLBACK_POINT := PointTree(Read(pre, InTarget([])), point.value)])
    ensures disk.reliable && Recordable(pre, files) ==> point.Some?
  {
    hide Sub, Directory, Readable, Read, Describes, PointTree;
    ghost var before := disk.fs;
    SameInstallation(pre, before, root);
    forall p | InScope(files, p)
      ensures SameAt(pre, before, p)
    {
      HeadsApart(root, p);
    }
    KindsFollow(pre, before, files);
    point := WriteRollbackPoint(disk, root + [ROLLBACK_POINT], files);
    ChangedBelow(before, disk.fs, root, [ROLLBACK_POINT]);
    ChangesCompose(pre, before, disk.fs, root);
    if point.None? { return; }
    DescribesEarlier(point.value, pre, before, files);
    PartAdded(before, disk.fs, root, parts, ROLLBACK_POINT, PointTree(Read(pre, InTarget([])), point.value));
  }

  /** Writes the rollback point and checks that the target still matches its external record. */
  method StagePoint(disk: Disk, root: Path, ghost parts: map<string, Tree>, files: seq<Path>, ghost pre: Tree)
    returns (point: Option<ExternalState>)
    requires Sub(disk.fs, root) == Directory(parts) && ChangedOnlyUnder(pre, disk.fs, root)
    requires |root| > 0 && !IsRoot(root[0]) && forall p | InScope(files, p) :: |p| > 0 && p[0] != root[0]
    modifies disk
    ensures ChangedOnlyUnder(pre, disk.fs, root)
    ensures point.Some? ==> Readable(pre, InTarget([])) && Describes(point.value, pre, files)
    ensures point.Some? ==>
      Sub(disk.fs, root) == Directory(parts[ROLLBACK_POINT := PointTree(Read(pre, InTarget([])), point.value)])
    ensures disk.reliable && Recordable(pre, files) ==> point.Some?
  {
    hide *;
    point := WriteStagedPoint(disk, root, parts, files, pre);
    if point.None? { return; }
    StillMatches(pre, disk.fs, root, point.value, files);
    var matches := ValidateExternalTargetState(disk, point.value);
    if !matches { point := None; }
  }

  lemma StillMatches(pre: Tree, fs: Tree, root: Path, state: ExternalState, files: seq<Path>)
    requires Describes(state, pre, files) && ChangedOnlyUnder(pre, fs, root)
    requires |root| > 0 && forall p | InScope(files, p) :: |p| > 0 && p[0] != root[0]
    ensures Matches(fs, state)
  {
    forall p | InScope(files, p)
      ensures SameAt(fs, pre, p)
    {
      HeadsApart(root, p);
    }
    DescribesEarlier(state, fs, pre, files);
  }

  /** Work in the stage does not change what the target holds. */
  lemma SameInstallation(pre: Tree, fs: Tree, root: Path)
    requires ChangedOnlyUnder(pre, fs, root) && |root| > 0 && !IsRoot(root[0])
    ensures Readable(fs, InTarget([])) <==> Readable(pre, InTarget([]))
    ensures Readable(pre, InTarget([])) ==> Read(fs, InTarget([])) == Read(pre, InTarget([]))
  {
    hide Sub, Clean, Readable, Read;
    forall n | IsRoot(n)
      ensures Sub(fs, [n]) == Sub(pre, [n])
    {
      OtherSubtrees(pre, fs, root);
      HeadsApart(root, [n]);
    }
    if Readable(pre, InTarget([])) { RootsDetermineReading(pre, fs); }
    if Readable(fs, InTarget([])) { RootsDetermineReading(fs, pre); }
  }

  /** An installation is read off its three roots. */
  lemma RootsDetermineReading(a: Tree, b: Tree)
    requires forall n | IsRoot(n) :: Sub(a, [n]) == Sub(b, [n])
    requires Readable(a, InTarget([]))
    ensures Readable(b, InTarget([])) && Read(a, InTarget([])) == Read(b, InTarget([]))
  {
    assert IsRoot(AGENTS) && IsRoot(SKILLS) && IsRoot(STATE);
    hide Sub, Clean, Readable, Read, IsRoot;
    PiecesAgree(a, b);
    PiecesDetermineReading(a, b, InTarget([]));
  }

  ghost predicate SamePieces(a: Tree, b: Tree, l: Layout) {
    && SameAt(a, b, l.agents) && SameAt(a, b, l.skills) && SameAt(a, b, l.meta) && SameAt(a, b, l.meta + [PACKAGES])
    && SameAt(a, b, l.meta + [INSTALL_LOCK]) && SameAt(a, b, l.meta + [PACKAGE_LOCK])
    && SameAt(a, b, l.meta + [ACTIVATION_LOCK])
    && (forall n :: SameAt(a, b, l.skills + [n]))
    && (forall n :: Sub(a, l.skills + [n]) == Sub(b, l.skills + [n]))
    && (forall n :: SameAt(a, b, l.meta + [PACKAGES] + [n]))
    && (forall n :: Sub(a, l.meta + [PACKAGES] + [n]) == Sub(b, l.meta + [PACKAGES] + [n]))
  }

  lemma PiecesDetermineReading(a: Tree, b: Tree, l: Layout)
    requires SamePieces(a, b, l) && Readable(a, l)
    ensures Readable(b, l) && Read(a, l) == Read(b, l)
  {
    hide Sub, Clean;
  }

  lemma PiecesAgree(a: Tree, b: Tree)
    requires Sub(a, [AGENTS]) == Sub(b, [AGENTS]) && Sub(a, [SKILLS]) == Sub(b, [SKILLS])
    requires Sub(a, [STATE]) == Sub(b, [STATE])
    ensures SamePieces(a, b, InTarget([]))
  {
    hide Sub, Clean, SameAt, Directory;
    assert InTarget([]) == Layout([AGENTS], [SKILLS], [STATE]);
    assert [AGENTS] + [] == [AGENTS] && [SKILLS] + [] == [SKILLS] && [STATE] + [] == [STATE];
    SameBelow(a, b, AGENTS, []);
    SameBelow(a, b, SKILLS, []);
    SameBelow(a, b, STATE, []);
    SameBelow(a, b, STATE, [PACKAGES]);
    SameBelow(a, b, STATE, [INSTALL_LOCK]);
    SameBelow(a, b, STATE, [PACKAGE_LOCK]);
    SameBelow(a, b, STATE, [ACTIVATION_LOCK]);
    forall n: string
      ensures SameAt(a, b, [SKILLS] + [n]) && Sub(a, [SKILLS] + [n]) == Sub(b, [SKILLS] + [n])
    {
      SameBelow(a, b, SKILLS, [n]);
    }
    PackagesAgree(a, b);
  }

  lemma PackagesAgree(a: Tree, b: Tree)
    requires Sub(a, [STATE]) == Sub(b, [STATE])
    ensures forall n :: SameAt(a, b, [STATE] + [PACKAGES] + [n])
    ensures forall n :: Sub(a, [STATE] + [PACKAGES] + [n]) == Sub(b, [STATE] + [PACKAGES] + [n])
  {
    hide Sub, Clean, SameAt, Directory;
    forall n: string
      ensures SameAt(a, b, [STATE] + [PACKAGES] + [n])
      ensures Sub(a, [STATE] + [PACKAGES] + [n]) == Sub(b, [STATE] + [PACKAGES] + [n])
    {
      SameBelow(a, b, STATE, [PACKAGES] + [n]);
      assert [STATE] + [PACKAGES] + [n] == [STATE] + ([PACKAGES] + [n]);
    }
  }

  lemma SameBelow(a: Tree, b: Tree, root: string, q: Path)
    requires Sub(a, [root]) == Sub(b, [root])
    ensures SameAt(a, b, [root] + q)
    ensures Sub(a, [root] + q) == Sub(b, [root] + q)
  {
    SubOfSub(a, [root], q);
    SubOfSub(b, [root], q);
    TreeRoot(a, [root] + q, Sub(a, [root] + q));
    TreeRoot(b, [root] + q, Sub(b, [root] + q));
  }

  /** Everything `install_bundle` does before it touches a managed root. */
  method BuildStage(disk: Disk, stage: string, bundle: Bundle, persistent: bool, files: seq<Path>, staged: Tree -> bool)
    returns (r: StageResult)
    requires !IsRoot(stage)
    requires forall p | InScope(files, p) :: |p| > 0 && p[0] != stage
    modifies disk
    ensures OnlyInside(old(disk.fs), disk.fs, stage)
    ensures r.Staged? ==> (persistent <==> r.point.Some?)
    ensures r.Staged? && r.point.Some? ==>
      Readable(old(disk.fs), InTarget([])) && Describes(r.point.value, old(disk.fs), files)
    ensures r.Staged? ==> HasRoots(disk.fs, [stage], StagedRoots(old(disk.fs), bundle, r.point))
    ensures r.Staged? ==> InstalledFiles(old(disk.fs), disk.fs, [stage], bundle, r.point)
    ensures disk.reliable && NeverObjects(staged) && (persistent ==> Recordable(old(disk.fs), files)) ==> r.Staged?
  {
    assert stage != AGENTS && stage != SKILLS && stage != STATE;
    hide *;
    ghost var pre := disk.fs;
    OnlyInsideItself(pre, stage);
    var ok := disk.CopyTree(FileTree(bundle.agents), [stage, AGENTS]);
    ghost var first := disk.fs;
    InsideCompose(pre, pre, first, stage, AGENTS);
    if !ok { return StageFailed; }
    ok := StageSkills(disk, stage, bundle.skills);
    ghost var second := disk.fs;
    InsideCompose(pre, first, second, stage, SKILLS);
    if !ok { return StageFailed; }
    StageLeavesTarget(pre, second, stage, files);
    StillRecordable(pre, second, files);
    r := StageState(disk, stage, bundle, persistent, files, staged);
    ghost var third := disk.fs;
    InsideCompose(pre, second, third, stage, STATE);
    if r.StageFailed? { return; }
    if r.point.Some? { DescribesEarlier(r.point.value, pre, second, files); }
    SubOfGraft(pre, [stage, AGENTS], FileTree(bundle.agents));
    StageComplete(pre, first, second, third, stage, bundle, r.point);
    InstalledByPath(pre, third, [stage], bundle, r.point);
  }

  lemma StillRecordable(pre: Tree, fs: Tree, files: seq<Path>)
    requires Readable(fs, InTarget([])) <==> Readable(pre, InTarget([]))
    requires forall p | InScope(files, p) :: SameAt(pre, fs, p)
    ensures Recordable(pre, files) ==> Recordable(fs, files)
  {
    hide Readable, KindsAreSafe;
    KindsFollow(pre, fs, files);
  }

  lemma StageComplete(pre: Tree, first: Tree, second: Tree, third: Tree, stage: string, bundle: Bundle,
                      point: Option<ExternalState>)
    requires !IsRoot(stage)
    requires OnlyInside(pre, first, stage) && OnlyInside(pre, second, stage)
    requires Sub(first, [stage, AGENTS]) == FileTree(bundle.agents)
    requires ChangedOnlyUnder(first, second, [stage, SKILLS])
    requires Sub(second, [stage, SKILLS]) == Directory(UserSkills(first, bundle.skills.Keys) + bundle.skills)
    requires ChangedOnlyUnder(second, third, [stage, STATE])
    requires point.Some? ==> Readable(pre, InTarget([])) && Readable(second, InTarget([]))
    requires point.Some? ==> Read(second, InTarget([])) == Read(pre, InTarget([]))
    requires CurrentActivation(second) == CurrentActivation(pre)
    requires Sub(third, [stage, STATE]) == StateTree(Result(bundle, second), PointOf(second, point))
    ensures HasRoots(third, [stage], StagedRoots(pre, bundle, point))
  {
    assert stage != SKILLS;
    hide Sub, Directory, Readable, Read, OnlyInside, UserSkills, IsRoot, FileTree, StateTree, ChangedOnlyUnder, HasRoots, Roots;
    NameApart(stage, SKILLS, AGENTS);
    NameApart(stage, STATE, AGENTS);
    NameApart(stage, STATE, SKILLS);
    SubtreeUntouched(first, second, [stage, SKILLS], [stage, AGENTS]);
    SubtreeUntouched(second, third, [stage, STATE], [stage, AGENTS]);
    SubtreeUntouched(second, third, [stage, STATE], [stage, SKILLS]);
    UserSkillsUntouched(pre, first, stage, bundle.skills.Keys);
    assert Result(bundle, second) == Result(bundle, pre);
    assert PointOf(second, point) == PointOf(pre, point);
    RootsAre(third, stage, Result(bundle, pre), UserSkills(pre, bundle.skills.Keys), PointOf(pre, point));
  }

  lemma RootsAre(fs: Tree, stage: string, i: Installation, others: map<string, Tree>, point: Option<Tree>)
    requires Sub(fs, [stage, AGENTS]) == FileTree(i.agents)
    requires Sub(fs, [stage, SKILLS]) == Directory(others + i.skills)
    requires Sub(fs, [stage, STATE]) == StateTree(i, point)
    ensures HasRoots(fs, [stage], Roots(i, others, point))
  {
    hide Sub, Directory, FileTree, StateTree;
    assert |AGENTS| == 9 && |SKILLS| == 6 && |STATE| == 13;
    forall n | n in MANAGED_ROOTS
      ensures n in Roots(i, others, point) && Sub(fs, [stage] + [n]) == Roots(i, others, point)[n]
    {
      assert [stage] + [n] == [stage, n];
      assert n == AGENTS || n == SKILLS || n == STATE;
    }
  }

  lemma OnlyInsideItself(fs: Tree, stage: string)
    ensures OnlyInside(fs, fs, stage)
  {
  }

  lemma NameApart(stage: string, a: string, b: string)
    requires a != b
    ensures Apart([stage, a], [stage, b])
  {
    assert [stage, a][1] != [stage, b][1];
  }

  lemma UserSkillsUntouched(pre: Tree, fs: Tree, stage: string, managed: set<string>)
    requires OnlyInside(pre, fs, stage) && stage != SKILLS
    ensures UserSkills(fs, managed) == UserSkills(pre, managed)
  {
    hide Sub;
    assert ChangedOnlyUnder(pre, fs, [stage]);
    SameUserSkills(pre, fs, [stage], managed);
  }

  lemma StageLeavesTarget(pre: Tree, fs: Tree, stage: string, files: seq<Path>)
    requires OnlyInside(pre, fs, stage) && !IsRoot(stage)
    requires forall p | InScope(files, p) :: |p| > 0 && p[0] != stage
    ensures Readable(fs, InTarget([])) <==> Readable(pre, InTarget([]))
    ensures Readable(pre, InTarget([])) ==> Read(fs, InTarget([])) == Read(pre, InTarget([]))
    ensures CurrentActivation(fs) == CurrentActivation(pre)
    ensures forall p | InScope(files, p) :: SameAt(pre, fs, p)
  {
    hide Readable, Read;
    assert ChangedOnlyUnder(pre, fs, [stage]);
    SameInstallation(pre, fs, [stage]);
    HeadsApart([stage], [STATE, ACTIVATION_LOCK]) by { assert IsRoot(STATE); }
    forall p | InScope(files, p)
      ensures SameAt(pre, fs, p)
    {
      HeadsApart([stage], p);
    }
  }

  // ---------------------------------------------------------------- the transaction

  datatype Outcome =
    | Refused
    | Installed(point: Option<ExternalState>)
    | Failed
    | Incomplete

  /** A swap that started from a tree holding the staged roots beside the old ones. */
  ghost predicate ReadyToSwap(pre: Tree, mid: Tree, stage: string, backup: string) {
    && Prepared(mid, stage, backup)
    && OnlyInside(pre, mid, stage)
    && (forall n | IsRoot(n) :: Sub(mid, [n]) == Sub(pre, [n]) && Rooted(mid, n) && Sub(mid, [backup, n]) == map[])
  }

  lemma StagingIsReady(pre: Tree, mid: Tree, stage: string, backup: string)
    requires Prepared(pre, stage, backup) && WellFormed(pre) && NothingBelow(pre, [backup])
    requires OnlyInside(pre, mid, stage)
    ensures ReadyToSwap(pre, mid, stage, backup)
  {
    hide Sub;
    assert SameAt(pre, mid, []) && SameAt(pre, mid, [stage]) && SameAt(pre, mid, [backup]);
    forall n | IsRoot(n)
      ensures Sub(mid, [n]) == Sub(pre, [n]) && Rooted(mid, n) && Sub(mid, [backup, n]) == map[]
    {
      InsideKeepsOthers(pre, mid, stage, [n]);
      InsideKeepsOthers(pre, mid, stage, [backup, n]);
      WellFormedIsRooted(pre, n);
      TreeRootThere(pre, mid, n);
      EmptyBelow(pre, backup, n);
    }
  }

  lemma EmptyBelow(fs: Tree, backup: string, n: string)
    requires NothingBelow(fs, [backup])
    ensures Sub(fs, [backup, n]) == map[]
  {
    forall q
      ensures [backup, n] + q !in fs
    {
      assert Under([backup], [backup, n] + q);
    }
  }

  /** Each staged root exists, so a root that was moved in exists too. */
  lemma StagedRootsExist(i: Installation, others: map<string, Tree>, point: Option<Tree>)
    ensures forall n | IsRoot(n) :: n in Roots(i, others, point) && [] in Roots(i, others, point)[n]
  {
    forall n | IsRoot(n)
      ensures n in Roots(i, others, point) && [] in Roots(i, others, point)[n]
    {
      assert n == AGENTS || n == SKILLS || n == STATE;
      assert [] in Directory(others + i.skills) && [] in FileTree(i.agents);
      StateTreeHasRoot(i, point);
    }
  }

  lemma StateTreeHasRoot(i: Installation, point: Option<Tree>)
    ensures [] in StateTree(i, point)
  {
    match point
    case None => assert [] in Directory(MetaParts(i));
    case Some(t) => assert [] in Directory(MetaParts(i)[ROLLBACK_POINT := t]);
  }

  lemma MovedInIsRooted(mid: Tree, fs: Tree, stage: string, backup: string, roots: map<string, Tree>,
                        movedExisting: seq<string>, movedNew: seq<string>)
    requires SwapState(mid, fs, stage, backup, movedExisting, movedNew)
    requires HasRoots(mid, [stage], roots) && forall n | IsRoot(n) :: n in roots && [] in roots[n]
    ensures forall n | n in movedNew :: [n] in fs && Sub(fs, [n]) == roots[n]
  {
    hide Sub;
    forall n | n in movedNew
      ensures [n] in fs && Sub(fs, [n]) == roots[n]
    {
      assert RootState(mid, fs, stage, backup, n, n in movedExisting, true);
      assert [stage] + [n] == [stage, n];
      TreeRoot(fs, [n], roots[n]);
    }
  }

  /** A completed swap leaves the staged rollback point, record and all, in the target. */
  lemma SwappedCarriesRecord(fs: Tree, i: Installation, recorded: Installation, point: Option<ExternalState>)
    requires Sub(fs, [STATE]) == StateTree(i, match point case None => None case Some(s) => Some(PointTree(recorded, s)))
    ensures CarriesRecord(fs, point)
  {
    hide Sub, Directory, MetaParts;
    assert [STATE] + [ROLLBACK_POINT] == POINT;
    match point {
      case None =>
        NoPointInMeta(i);
        ReadPart(fs, [STATE], MetaParts(i), ROLLBACK_POINT);
        TreeRoot(fs, POINT, Sub(fs, POINT));
      case Some(s) =>
        ReadPart(fs, [STATE], MetaParts(i)[ROLLBACK_POINT := PointTree(recorded, s)], ROLLBACK_POINT);
        TreeRoot(fs, POINT, PointTree(recorded, s));
        assert [] in Directory(PointParts(recorded, s));
        ReadFile(fs, POINT, PointParts(recorded, s), EXTERNAL_STATE, ExternalRecord(s));
    }
  }

  lemma NoPointInMeta(i: Installation)
    ensures ROLLBACK_POINT !in MetaParts(i)
  {
    hide Directory;
    assert |ROLLBACK_POINT| == 14 && |PACKAGES| == 8 && |INSTALL_LOCK| == 17 && |PACKAGE_LOCK| == 17;
    assert |ACTIVATION_LOCK| == 20;
  }

  lemma HandlerKeepsBackup(mid: Tree, before: Tree, fs: Tree, files: seq<Path>, stage: string, backup: string,
                           movedExisting: seq<string>)
    requires HandlerChange(before, fs, files) && ExternalScope(files, stage, backup) && Fresh(stage, backup)
    requires BackupHolds(mid, before, backup, movedExisting, MANAGED_ROOTS)
    requires forall n | IsRoot(n) :: [n] in before
    ensures BackupHolds(mid, fs, backup, movedExisting, MANAGED_ROOTS)
    ensures forall n | IsRoot(n) :: Rooted(fs, n)
    ensures ExternalPromise(before, fs, stage, backup, files, false)
  {
    hide Sub, IsRoot;
    forall p | p == [] || p[0] == backup
      ensures SameAt(before, fs, p)
    {
      if InScope(files, p) { ScopeElsewhere(files, stage, backup, p); }
    }
    assert SameAt(before, fs, []) && SameAt(before, fs, [backup]);
    forall n | IsRoot(n)
      ensures Recoverable(mid, fs, backup, n, n in movedExisting, true)
    {
      assert Recoverable(mid, before, backup, n, n in movedExisting, true) by { RootsList(n); }
      BackupSubtree(before, fs, backup, [backup, n]);
    }
    forall n ensures IsRoot(n) <==> n in MANAGED_ROOTS { RootsList(n); }
  }

  lemma RootsList(n: string)
    ensures IsRoot(n) <==> n in MANAGED_ROOTS
  {
  }

  lemma BackupSubtree(before: Tree, fs: Tree, backup: string, o: Path)
    requires forall p | p == [] || p[0] == backup :: SameAt(before, fs, p)
    requires |o| > 0 && o[0] == backup
    ensures Sub(fs, o) == Sub(before, o)
  {
    forall q
      ensures SameAt(before, fs, o + q)
    {
      assert (o + q)[0] == o[0];
    }
    SameSubtree(before, o, fs, o);
  }

  /** What the swap and the handler leave behind, successful or not. */
  ghost predicate CommitState(mid: Tree, fs: Tree, stage: string, backup: string, files: seq<Path>,
                              point: Option<ExternalState>, started: bool,
                              movedExisting: seq<string>, movedNew: seq<string>) {
    && Unique(movedExisting) && Unique(movedNew)
    && BackupHolds(mid, fs, backup, movedExisting, movedNew)
    && (forall n | n in movedNew :: Rooted(fs, n))
    && (started ==> CarriesRecord(fs, point))
    && ExternalPromise(mid, fs, stage, backup, files, !started)
    && (KindsAreSafe(mid, files) ==> KindsAreSafe(fs, files))
  }

  lemma SwapCommits(mid: Tree, fs: Tree, stage: string, backup: string, files: seq<Path>, i: Installation,
                    others: map<string, Tree>, recorded: Installation, point: Option<ExternalState>,
                    movedExisting: seq<string>, movedNew: seq<string>)
    requires SwapState(mid, fs, stage, backup, movedExisting, movedNew) && ExternalScope(files, stage, backup)
    requires Unique(movedExisting) && Unique(movedNew)
    requires forall n | IsRoot(n) :: Rooted(mid, n)
    requires HasRoots(mid, [stage], Roots(i, others, RecordedPoint(recorded, point)))
    ensures CommitState(mid, fs, stage, backup, files, point, false, movedExisting, movedNew)
    ensures forall n | n in movedNew :: Sub(fs, [n]) == Roots(i, others, RecordedPoint(recorded, point))[n] && [n] in fs
    ensures movedNew == MANAGED_ROOTS ==> CarriesRecord(fs, point)
  {
    hide Sub, Directory, StateTree, SwapState, CarriesRecord;
    var roots := Roots(i, others, RecordedPoint(recorded, point));
    StagedRootsExist(i, others, RecordedPoint(recorded, point));
    SwapIsRecoverable(mid, fs, stage, backup, movedExisting, movedNew);
    MovedInIsRooted(mid, fs, stage, backup, roots, movedExisting, movedNew);
    SwapKeepsExternal(mid, fs, stage, backup, files, movedExisting, movedNew);
    if movedNew == MANAGED_ROOTS { SwappedCarriesRecord(fs, i, recorded, point); }
  }

  lemma SwapKeepsExternal(mid: Tree, fs: Tree, stage: string, backup: string, files: seq<Path>,
                          movedExisting: seq<string>, movedNew: seq<string>)
    requires SwapState(mid, fs, stage, backup, movedExisting, movedNew) && ExternalScope(files, stage, backup)
    ensures ExternalPromise(mid, fs, stage, backup, files, true)
    ensures KindsAreSafe(mid, files) ==> KindsAreSafe(fs, files)
  {
    hide Sub, IsRoot, RootState;
    forall p | InScope(files, p)
      ensures SameAt(mid, fs, p)
    {
      ScopeElsewhere(files, stage, backup, p);
    }
    KindsFollow(mid, fs, files);
  }

  /** The handler ran on a tree that differs from `mid` only in its roots, which are the staged ones, and `fs` is
      what it made of that tree: in its roots and everywhere outside the working directories. */
  ghost predicate Handled(mid: Tree, fs: Tree, handler: Handler, roots: map<string, Tree>, stage: string, backup: string) {
    exists s: Tree :: HandledFrom(mid, fs, handler, roots, stage, backup, s)
  }

  ghost predicate HandledFrom(mid: Tree, fs: Tree, handler: Handler, roots: map<string, Tree>, stage: string, backup: string, s: Tree) {
    && HasRoots(s, [], roots) && SameElsewhere(mid, s, stage, backup)
    && handler(s).1 && RootsKept(handler(s).0, fs) && SameElsewhere(handler(s).0, fs, stage, backup)
  }

  /** The same, with the staged roots path by path. */
  ghost predicate HandledFiles(pre: Tree, fs: Tree, handler: Handler, bundle: Bundle, point: Option<ExternalState>,
                               stage: string, backup: string) {
    exists s: Tree ::
      && InstalledFiles(pre, s, [], bundle, point) && SameElsewhere(pre, s, stage, backup)
      && handler(s).1 && RootsKept(handler(s).0, fs) && SameElsewhere(handler(s).0, fs, stage, backup)
  }

  lemma HandledByPath(pre: Tree, fs: Tree, handler: Handler, bundle: Bundle, point: Option<ExternalState>, stage: string,
                      backup: string)
    requires point.Some? ==> Readable(pre, InTarget([]))
    requires Handled(pre, fs, handler, StagedRoots(pre, bundle, point), stage, backup)
    ensures HandledFiles(pre, fs, handler, bundle, point, stage, backup)
  {
    hide SameElsewhere, HasRoots, StagedRoots, Readable, InstalledFiles, RootsKept;
    var s: Tree :| HandledFrom(pre, fs, handler, StagedRoots(pre, bundle, point), stage, backup, s);
    InstalledByPath(pre, s, [], bundle, point);
  }

  ghost predicate SameElsewhere(a: Tree, b: Tree, stage: string, backup: string) {
    forall p | Elsewhere(p, stage, backup) :: SameAt(a, b, p)
  }

  /** Earlier staging and later tidying make no difference. */
  lemma HandledAround(pre: Tree, mid: Tree, swapped: Tree, fs: Tree, handler: Handler, roots: map<string, Tree>,
                      stage: string, backup: string)
    requires Handled(mid, swapped, handler, roots, stage, backup)
    requires SameElsewhere(pre, mid, stage, backup) && SameElsewhere(swapped, fs, stage, backup)
    requires RootsKept(swapped, fs)
    ensures Handled(pre, fs, handler, roots, stage, backup)
  {
    hide SameElsewhere;
    var s: Tree :| HandledFrom(mid, swapped, handler, roots, stage, backup, s);
    ElsewhereTwice(pre, mid, s, stage, backup);
    ElsewhereTwice(handler(s).0, swapped, fs, stage, backup);
    assert HandledFrom(pre, fs, handler, roots, stage, backup, s);
  }

  lemma ElsewhereTwice(a: Tree, b: Tree, c: Tree, stage: string, backup: string)
    requires SameElsewhere(a, b, stage, backup) && SameElsewhere(b, c, stage, backup)
    ensures SameElsewhere(a, c, stage, backup)
  {
    hide Elsewhere;
    forall p | Elsewhere(p, stage, backup)
      ensures SameAt(a, c, p)
    {
      assert SameAt(a, b, p) && SameAt(b, c, p);
    }
  }

  lemma HandledNow(mid: Tree, swapped: Tree, handler: Handler, roots: map<string, Tree>, stage: string, backup: string,
                   files: seq<Path>)
    requires HasRoots(swapped, [], roots) && ExternalPromise(mid, swapped, stage, backup, files, true)
    requires handler(swapped).1
    ensures Handled(mid, handler(swapped).0, handler, roots, stage, backup)
  {
    hide Sub, IsRoot, HasRoots, Elsewhere;
    assert HandledFrom(mid, handler(swapped).0, handler, roots, stage, backup, swapped);
  }

  ghost predicate NeverRaises(handler: Handler) { forall fs :: handler(fs).1 }

  ghost function RecordedPoint(recorded: Installation, point: Option<ExternalState>): Option<Tree> {
    match point case None => None case Some(s) => Some(PointTree(recorded, s))
  }

  /** The swap, the handler and the final verification. */
  method Commit(disk: Disk, stage: string, backup: string, handler: Option<Handler>, ghost files: seq<Path>,
                ghost i: Installation, ghost others: map<string, Tree>, ghost recorded: Installation,
                ghost point: Option<ExternalState>, managed: Tree -> bool)
    returns (ok: bool, started: bool, movedExisting: seq<string>, movedNew: seq<string>)
    requires Prepared(disk.fs, stage, backup) && ExternalScope(files, stage, backup)
    requires forall n | IsRoot(n) :: Rooted(disk.fs, n) && Sub(disk.fs, [backup, n]) == map[]
    requires HasRoots(disk.fs, [stage], Roots(i, others, RecordedPoint(recorded, point)))
    requires handler.Some? ==> Disciplined(handler.value, files)
    modifies disk
    ensures CommitState(old(disk.fs), disk.fs, stage, backup, files, point, started, movedExisting, movedNew)
    ensures ok ==> movedNew == MANAGED_ROOTS && CarriesRecord(disk.fs, point)
    ensures ok && handler.None? ==> HasRoots(disk.fs, [], Roots(i, others, RecordedPoint(recorded, point)))
    ensures ok && handler.Some? ==>
      Handled(old(disk.fs), disk.fs, handler.value, Roots(i, others, RecordedPoint(recorded, point)), stage, backup)
    ensures started ==> handler.Some?
    ensures disk.reliable && NeverObjects(managed) && (handler.Some? ==> NeverRaises(handler.value)) ==> ok
  {
    forall n ensures IsRoot(n) <==> n in MANAGED_ROOTS { RootsList(n); }
    hide *;
    ghost var mid := disk.fs;
    started := false;
    StagedIsSwappable(mid, stage, i, others, RecordedPoint(recorded, point));
    ok, movedExisting, movedNew := SwapRoots(disk, stage, backup, false);
    ghost var swapped := disk.fs;
    SwapCommits(mid, swapped, stage, backup, files, i, others, recorded, point, movedExisting, movedNew);
    if !ok { return; }
    SwappedRoots(swapped, Roots(i, others, RecordedPoint(recorded, point)));
    if handler.Some? {
      started := true;
      var result := handler.value(disk.fs);
      disk.fs := result.0;
      ok := result.1;
      NeverRaisesAt(handler.value, swapped);
      HandlerCommits(mid, swapped, disk.fs, stage, backup, files, handler.value, point, movedExisting);
      if !ok { return; }
      SwapPromise(mid, swapped, stage, backup, files, point, movedExisting, movedNew);
      HandledNow(mid, swapped, handler.value, Roots(i, others, RecordedPoint(recorded, point)), stage, backup, files);
    }
    ok := managed(disk.fs);
    NeverObjectsAt(managed, disk.fs);
  }

  lemma SwapPromise(mid: Tree, fs: Tree, stage: string, backup: string, files: seq<Path>, point: Option<ExternalState>,
                    movedExisting: seq<string>, movedNew: seq<string>)
    requires CommitState(mid, fs, stage, backup, files, point, false, movedExisting, movedNew)
    ensures ExternalPromise(mid, fs, stage, backup, files, true)
  {
    hide BackupHolds, Rooted, Unique, CarriesRecord, KindsAreSafe, ExternalPromise;
  }

  lemma NeverRaisesAt(handler: Handler, fs: Tree)
    ensures NeverRaises(handler) ==> handler(fs).1
  {
  }

  lemma NeverObjectsAt(check: Tree -> bool, fs: Tree)
    ensures NeverObjects(check) ==> check(fs)
  {
  }

  lemma StagedIsSwappable(mid: Tree, stage: string, i: Installation, others: map<string, Tree>, point: Option<Tree>)
    requires HasRoots(mid, [stage], Roots(i, others, point))
    ensures Swappable(mid, stage, false)
  {
    hide Sub, Roots;
    StagedRootsExist(i, others, point);
    forall n | IsRoot(n)
      ensures [stage, n] in mid
    {
      assert n in MANAGED_ROOTS by { RootsList(n); }
      assert [stage] + [n] == [stage, n];
      TreeRoot(mid, [stage, n], Roots(i, others, point)[n]);
    }
  }

  lemma SwappedRoots(fs: Tree, roots: map<string, Tree>)
    requires forall n | n in MANAGED_ROOTS :: n in roots && Sub(fs, [n]) == roots[n]
    ensures HasRoots(fs, [], roots)
  {
    hide Sub;
    assert forall n: string :: [] + [n] == [n];
  }

  lemma HandlerCommits(mid: Tree, before: Tree, fs: Tree, stage: string, backup: string, files: seq<Path>,
                       handler: Handler, point: Option<ExternalState>, movedExisting: seq<string>)
    requires CommitState(mid, before, stage, backup, files, point, false, movedExisting, MANAGED_ROOTS)
    requires CarriesRecord(before, point) && ExternalScope(files, stage, backup) && Fresh(stage, backup)
    requires forall n | n in MANAGED_ROOTS :: [n] in before
    requires Disciplined(handler, files) && fs == handler(before).0
    ensures CommitState(mid, fs, stage, backup, files, point, true, movedExisting, MANAGED_ROOTS)
    ensures CarriesRecord(fs, point)
  {
    hide Sub, BackupHolds, CarriesRecord, KindsAreSafe, IsRoot;
    forall n ensures IsRoot(n) <==> n in MANAGED_ROOTS { RootsList(n); }
    assert HandlerChange(before, fs, files);
    HandlerKeepsBackup(mid, before, fs, files, stage, backup, movedExisting);
    forall p | InScope(files, p)
      ensures |p| > 0 && !IsRoot(p[0])
    {
      ScopeElsewhere(files, stage, backup, p);
    }
    HandlerKeepsRecord(before, fs, files, point);
    forall p | Elsewhere(p, stage, backup) && !InScope(files, p)
      ensures SameAt(mid, fs, p)
    {
      assert SameAt(mid, before, p) && SameAt(before, fs, p);
    }
  }

  ghost function Recorded(fs: Tree): Installation {
    if Readable(fs, InTarget([])) then Read(fs, InTarget([]))
    else Installation(Bytes([]), map[], map[], Bytes([]), Bytes([]), None)
  }

  lemma StagedRootsAre(pre: Tree, bundle: Bundle, point: Option<ExternalState>)
    requires point.Some? ==> Readable(pre, InTarget([]))
    ensures StagedRoots(pre, bundle, point) ==
      Roots(Result(bundle, pre), UserSkills(pre, bundle.skills.Keys), RecordedPoint(Recorded(pre), point))
  {
    hide Readable, Read, Roots, UserSkills, PointTree;
  }

  lemma NothingPromised(fs: Tree, stage: string, backup: string, files: seq<Path>, whole: bool)
    ensures ExternalPromise(fs, fs, stage, backup, files, whole)
  {
  }

  lemma ScopeAvoidsStage(files: seq<Path>, stage: string, backup: string)
    requires ExternalScope(files, stage, backup) && Fresh(stage, backup)
    ensures forall p | InScope(files, p) :: |p| > 0 && p[0] != stage
    ensures !IsRoot(stage)
  {
    hide IsRoot;
    forall p | InScope(files, p)
      ensures |p| > 0 && p[0] != stage
    {
      ScopeElsewhere(files, stage, backup, p);
    }
  }

  lemma ReadyMeans(pre: Tree, mid: Tree, stage: string, backup: string)
    requires ReadyToSwap(pre, mid, stage, backup)
    ensures Prepared(mid, stage, backup)
    ensures forall n | IsRoot(n) :: Rooted(mid, n) && Sub(mid, [backup, n]) == map[]
  {
    hide Sub, IsRoot, Rooted;
  }

  /** Staging that failed has changed nothing a recovery would have to bring back. */
  lemma UntouchedCommits(pre: Tree, mid: Tree, stage: string, backup: string, files: seq<Path>)
    requires ReadyToSwap(pre, mid, stage, backup)
    ensures CommitState(mid, mid, stage, backup, files, None, false, [], [])
  {
    hide Sub, IsRoot;
  }

  lemma StageKeepsExternal(pre: Tree, mid: Tree, stage: string, backup: string, files: seq<Path>)
    requires OnlyInside(pre, mid, stage) && ExternalScope(files, stage, backup)
    ensures ExternalPromise(pre, mid, stage, backup, files, true)
    ensures KindsAreSafe(pre, files) ==> KindsAreSafe(mid, files)
  {
    hide IsRoot;
    forall p | Elsewhere(p, stage, backup)
      ensures SameAt(pre, mid, p)
    {
      UnderHead([stage], p);
    }
    forall p | InScope(files, p)
      ensures SameAt(pre, mid, p)
    {
      ScopeElsewhere(files, stage, backup, p);
    }
    KindsFollow(pre, mid, files);
  }

  lemma PromisesCompose(a: Tree, b: Tree, c: Tree, stage: string, backup: string, files: seq<Path>, first: bool, second: bool)
    requires ExternalPromise(a, b, stage, backup, files, first) && ExternalPromise(b, c, stage, backup, files, second)
    ensures ExternalPromise(a, c, stage, backup, files, first && second)
  {
    hide InScope, Elsewhere;
    forall p | Elsewhere(p, stage, backup) && ((first && second) || !InScope(files, p))
      ensures SameAt(a, c, p)
    {
      assert SameAt(a, b, p) && SameAt(b, c, p);
    }
  }

  lemma AboutToRecover(disk: Disk, pre: Tree, mid: Tree, swapped: Tree, stage: string, backup: string, files: seq<Path>,
                       point: Option<ExternalState>, started: bool, movedExisting: seq<string>, movedNew: seq<string>)
    requires WellFormed(pre) && ReadyToSwap(pre, mid, stage, backup) && ExternalScope(files, stage, backup)
    requires CommitState(mid, swapped, stage, backup, files, point, started, movedExisting, movedNew)
    requires point.Some? ==> Describes(point.value, pre, files)
    ensures Unique(movedExisting) && Unique(movedNew)
    ensures BackupHolds(mid, swapped, backup, movedExisting, movedNew)
    ensures forall n | n in movedNew :: Rooted(swapped, n)
    ensures started ==> CarriesRecord(swapped, point) && UsableRecord(point, files)
    ensures disk.reliable && KindsAreSafe(pre, files) ==> Recoverables(disk, swapped, started, point, files, pre)
    ensures ExternalPromise(mid, swapped, stage, backup, files, !started)
  {
    hide Sub, IsRoot, BackupHolds, CarriesRecord, Covers, Matches, Rooted, KindsAreSafe, Unique, PrefixFree;
    StageKeepsExternal(pre, mid, stage, backup, files);
    if disk.reliable && KindsAreSafe(pre, files) && started && point.Some? {
      PromisesCompose(pre, mid, swapped, stage, backup, files, true, false);
      StillNear(pre, swapped, stage, backup, files);
    }
  }

  lemma StillNear(pre: Tree, fs: Tree, stage: string, backup: string, files: seq<Path>)
    requires WellFormed(pre) && ExternalScope(files, stage, backup)
    requires ExternalPromise(pre, fs, stage, backup, files, false) && KindsAreSafe(fs, files)
    ensures WellFormedNear(pre, files) && Confined(pre, fs, files)
  {
    hide KindsAreSafe, IsRoot;
    forall p | Near(files, p)
      ensures Elsewhere(p, stage, backup)
    {
      if p != [] {
        var f :| f in files && |f| > 0 && f[0] == p[0];
        assert Elsewhere(f, stage, backup);
      }
    }
  }

  /** Removing a working directory, whole or in part, touches nothing else. */
  lemma TidyKeeps(before: Tree, fs: Tree, name: string)
    requires PartlyRemoved(before, fs, [name])
    ensures forall p | p == [] || p[0] != name :: SameAt(before, fs, p)
    ensures forall o: Path | |o| > 0 && o[0] != name :: Sub(fs, o) == Sub(before, o)
  {
    hide Sub;
    forall p | p == [] || p[0] != name
      ensures SameAt(before, fs, p)
    {
      UnderHead([name], p);
    }
    forall o: Path | |o| > 0 && o[0] != name
      ensures Sub(fs, o) == Sub(before, o)
    {
      forall q
        ensures SameAt(before, fs, o + q)
      {
        assert (o + q)[0] == o[0];
      }
      SameSubtree(before, o, fs, o);
    }
  }

  ghost predicate RootsKept(before: Tree, fs: Tree) {
    forall n | IsRoot(n) :: Sub(fs, [n]) == Sub(before, [n])
  }

  lemma TidyKeepsRoots(before: Tree, fs: Tree, name: string, stage: string, backup: string, files: seq<Path>,
                       point: Option<ExternalState>, roots: map<string, Tree>)
    requires PartlyRemoved(before, fs, [name]) && Fresh(stage, backup) && (name == stage || name == backup)
    ensures RootsKept(before, fs)
    ensures ExternalPromise(before, fs, stage, backup, files, true)
    ensures CarriesRecord(before, point) ==> CarriesRecord(fs, point)
    ensures HasRoots(before, [], roots) ==> HasRoots(fs, [], roots)
    ensures name == stage ==> forall o: Path | |o| > 0 && o[0] == backup :: Sub(fs, o) == Sub(before, o)
    ensures name == stage && IsDirAt(before, [backup]) ==> IsDirAt(fs, [backup])
  {
    hide Sub, IsRoot, PartlyRemoved, HasRoots, CarriesRecord;
    TidyKeeps(before, fs, name);
    SameRecord(before, fs, name, point) by { RootsList(STATE); }
    if HasRoots(before, [], roots) { SameRoots(before, fs, roots); }
    if name == stage { assert SameAt(before, fs, [backup]); }
  }

  lemma SameRecord(before: Tree, fs: Tree, name: string, point: Option<ExternalState>)
    requires forall p | p == [] || p[0] != name :: SameAt(before, fs, p)
    requires name != STATE
    ensures CarriesRecord(before, point) ==> CarriesRecord(fs, point)
  {
    assert SameAt(before, fs, POINT) && SameAt(before, fs, POINT + [EXTERNAL_STATE]);
  }

  lemma SameRoots(before: Tree, fs: Tree, roots: map<string, Tree>)
    requires RootsKept(before, fs) && HasRoots(before, [], roots)
    ensures HasRoots(fs, [], roots)
  {
    hide Sub;
    forall n | n in MANAGED_ROOTS
      ensures Sub(fs, [] + [n]) == roots[n]
    {
      assert [] + [n] == [n] && IsRoot(n);
    }
  }

  lemma InstalledPromise(pre: Tree, mid: Tree, swapped: Tree, tidy: Tree, fs: Tree, stage: string, backup: string,
                         files: seq<Path>, point: Option<ExternalState>, started: bool, movedExisting: seq<string>,
                         movedNew: seq<string>, roots: map<string, Tree>, none: bool)
    requires ReadyToSwap(pre, mid, stage, backup) && ExternalScope(files, stage, backup)
    requires CommitState(mid, swapped, stage, backup, files, point, started, movedExisting, movedNew)
    requires CarriesRecord(swapped, point) && (started ==> !none)
    requires none ==> HasRoots(swapped, [], roots)
    requires PartlyRemoved(swapped, tidy, [stage]) && PartlyRemoved(tidy, fs, [backup])
    ensures CarriesRecord(fs, point) && (none ==> HasRoots(fs, [], roots))
    ensures ExternalPromise(pre, fs, stage, backup, files, none)
  {
    hide Sub, IsRoot, BackupHolds, CarriesRecord, HasRoots, Rooted, KindsAreSafe, Unique, PartlyRemoved, ExternalPromise;
    TidyKeepsRoots(swapped, tidy, stage, stage, backup, files, point, roots);
    TidyKeepsRoots(tidy, fs, backup, stage, backup, files, point, roots);
    StageKeepsExternal(pre, mid, stage, backup, files);
    PromisesCompose(pre, mid, swapped, stage, backup, files, true, !started);
    PromisesCompose(swapped, tidy, fs, stage, backup, files, true, true);
    PromisesCompose(pre, swapped, fs, stage, backup, files, !started, true);
    if started { PromiseWeakens(pre, fs, stage, backup, files, !started); } else { PromiseWeakens(pre, fs, stage, backup, files, true); }
  }

  /** Staging before and tidying after change neither the roots nor anything outside the working directories. */
  lemma TidyAround(pre: Tree, mid: Tree, swapped: Tree, tidy: Tree, fs: Tree, stage: string, backup: string, files: seq<Path>)
    requires ReadyToSwap(pre, mid, stage, backup) && ExternalScope(files, stage, backup)
    requires PartlyRemoved(swapped, tidy, [stage]) && PartlyRemoved(tidy, fs, [backup])
    ensures SameElsewhere(pre, mid, stage, backup) && SameElsewhere(swapped, fs, stage, backup)
    ensures RootsKept(swapped, fs)
  {
    hide Sub, IsRoot, PartlyRemoved, CarriesRecord, HasRoots, Elsewhere, InScope;
    StageKeepsExternal(pre, mid, stage, backup, files);
    TidyKeepsRoots(swapped, tidy, stage, stage, backup, files, None, map[]);
    TidyKeepsRoots(tidy, fs, backup, stage, backup, files, None, map[]);
    PromisesCompose(swapped, tidy, fs, stage, backup, files, true, true);
    PromiseMeans(pre, mid, stage, backup, files);
    PromiseMeans(swapped, fs, stage, backup, files);
  }

  lemma PromiseMeans(a: Tree, b: Tree, stage: string, backup: string, files: seq<Path>)
    requires ExternalPromise(a, b, stage, backup, files, true)
    ensures SameElsewhere(a, b, stage, backup)
  {
  }

  lemma PromiseWeakens(pre: Tree, fs: Tree, stage: string, backup: string, files: seq<Path>, whole: bool)
    requires ExternalPromise(pre, fs, stage, backup, files, whole)
    ensures ExternalPromise(pre, fs, stage, backup, files, false)
  {
  }

  lemma RecoveredRoots(pre: Tree, mid: Tree, recovered: Tree, tidy: Tree, stage: string, backup: string, files: seq<Path>,
                       point: Option<ExternalState>, clean: bool)
    requires ReadyToSwap(pre, mid, stage, backup)
    requires clean ==> RootsAreBack(mid, recovered)
    requires Conserved(mid, recovered, backup) && IsDirAt(recovered, [backup])
    requires PartlyRemoved(recovered, tidy, [stage])
    ensures clean ==> RootsAreBack(pre, tidy)
    ensures Conserved(pre, tidy, backup) && IsDirAt(tidy, [backup])
  {
    hide Sub, IsRoot, PartlyRemoved, CarriesRecord, HasRoots, ExternalPromise;
    TidyKeepsRoots(recovered, tidy, stage, stage, backup, files, point, map[]);
    forall n | IsRoot(n) && [n] in pre
      ensures Sub(tidy, [n]) == Sub(pre, [n]) || Sub(tidy, [backup, n]) == Sub(pre, [n])
    {
      TreeRootThere(pre, mid, n);
      assert [backup, n][0] == backup;
    }
  }

  /** The roots come back whether or not the external files do. */
  lemma RootsComeBack(pre: Tree, mid: Tree, recovered: Tree, tidy: Tree, stage: string, backup: string, files: seq<Path>,
                      reliable: bool)
    requires ReadyToSwap(pre, mid, stage, backup)
    requires reliable ==> RootsAreBack(mid, recovered)
    requires Conserved(mid, recovered, backup) && IsDirAt(recovered, [backup])
    requires PartlyRemoved(recovered, tidy, [stage])
    ensures reliable ==> RootsAreBack(pre, tidy)
  {
    hide *;
    RecoveredRoots(pre, mid, recovered, tidy, stage, backup, files, None, reliable);
  }

  lemma RecoveredExternal(pre: Tree, mid: Tree, swapped: Tree, recovered: Tree, stage: string, backup: string,
                          files: seq<Path>, point: Option<ExternalState>, started: bool, clean: bool)
    requires OnlyInside(pre, mid, stage) && ExternalScope(files, stage, backup)
    requires ExternalPromise(mid, swapped, stage, backup, files, !started)
    requires ExternalPromise(swapped, recovered, stage, backup, files, !started || point.None?)
    requires clean && started && point.Some? ==> Matches(recovered, point.value) && Describes(point.value, pre, files)
    ensures ExternalPromise(pre, recovered, stage, backup, files, !started || (clean && point.Some?))
  {
    hide IsRoot, Matches, Covers;
    StageKeepsExternal(pre, mid, stage, backup, files);
    PromisesCompose(pre, mid, swapped, stage, backup, files, true, !started);
    PromisesCompose(pre, swapped, recovered, stage, backup, files, !started, !started || point.None?);
    if clean && started && point.Some? { MatchingTreesAgree(point.value, pre, recovered, files); }
  }

  lemma RecoveredPromise(pre: Tree, mid: Tree, swapped: Tree, recovered: Tree, tidy: Tree, fs: Tree, stage: string,
                         backup: string, files: seq<Path>, point: Option<ExternalState>, started: bool, clean: bool,
                         persistent: bool, none: bool)
    requires ReadyToSwap(pre, mid, stage, backup) && ExternalScope(files, stage, backup)
    requires ExternalPromise(mid, swapped, stage, backup, files, !started)
    requires ExternalPromise(swapped, recovered, stage, backup, files, !started || point.None?)
    requires clean && started && point.Some? ==> Matches(recovered, point.value)
    requires point.Some? ==> Describes(point.value, pre, files)
    requires started ==> !none && (persistent <==> point.Some?)
    requires clean ==> RootsAreBack(mid, recovered)
    requires Conserved(mid, recovered, backup) && IsDirAt(recovered, [backup])
    requires PartlyRemoved(recovered, tidy, [stage])
    requires if clean then PartlyRemoved(tidy, fs, [backup]) else fs == tidy
    ensures clean ==> RootsAreBack(pre, fs)
    ensures !clean ==> Conserved(pre, fs, backup) && IsDirAt(fs, [backup])
    ensures ExternalPromise(pre, fs, stage, backup, files, none || (persistent && clean))
  {
    forall n ensures IsRoot(n) <==> n in MANAGED_ROOTS { RootsList(n); }
    hide Sub, IsRoot, PartlyRemoved, CarriesRecord, HasRoots, ExternalPromise, Matches, Describes, OnlyInside;
    RecoveredRoots(pre, mid, recovered, tidy, stage, backup, files, None, clean);
    RecoveredExternal(pre, mid, swapped, recovered, stage, backup, files, point, started, clean);
    TidyKeepsRoots(recovered, tidy, stage, stage, backup, files, None, map[]);
    if clean {
      TidyKeepsRoots(tidy, fs, backup, stage, backup, files, None, map[]);
      PromisesCompose(recovered, tidy, fs, stage, backup, files, true, true);
    }
    var whole := !started || (clean && point.Some?);
    PromisesCompose(pre, recovered, fs, stage, backup, files, whole, true);
    if !(none || (persistent && clean)) { PromiseWeakens(pre, fs, stage, backup, files, whole); }
  }

  /** `install_bundle` from the point where its two working directories exist.  Validation and the checks of
      approved identities may refuse; `handler` is `post_install`. */
  method InstallBundle(disk: Disk, bundle: Bundle, stage: string, backup: string, persistent: bool,
                       files: seq<Path>, handler: Option<Handler>, checks: Checks) returns (outcome: Outcome)
    requires WellFormed(disk.fs) && Prepared(disk.fs, stage, backup) && NothingBelow(disk.fs, [backup])
    requires ExternalScope(files, stage, backup)
    requires handler.Some? ==> Disciplined(handler.value, files)
    modifies disk
    ensures outcome.Refused? <==> !checks.approved || (POINT in old(disk.fs) && !persistent)
    ensures outcome.Refused? ==> disk.fs == old(disk.fs)
    ensures outcome.Installed? ==>
      && (persistent <==> outcome.point.Some?)
      && (persistent ==> Readable(old(disk.fs), InTarget([])) && Describes(outcome.point.value, old(disk.fs), files))
      && CarriesRecord(disk.fs, outcome.point)
    ensures outcome.Installed? && handler.None? ==>
      InstalledFiles(old(disk.fs), disk.fs, [], bundle, outcome.point)
    ensures outcome.Installed? && handler.Some? ==>
      HandledFiles(old(disk.fs), disk.fs, handler.value, bundle, outcome.point, stage, backup)
    ensures outcome.Failed? ==> RootsAreBack(old(disk.fs), disk.fs)
    ensures outcome.Incomplete? ==> Conserved(old(disk.fs), disk.fs, backup) && IsDirAt(disk.fs, [backup])
    ensures outcome.Incomplete? && disk.reliable ==> RootsAreBack(old(disk.fs), disk.fs)
    ensures ExternalPromise(old(disk.fs), disk.fs, stage, backup, files,
                            handler.None? || (persistent && outcome.Failed?))
    ensures disk.reliable && KindsAreSafe(old(disk.fs), files) ==> !outcome.Incomplete?
    ensures disk.reliable && NeverObjects(checks.staged) && NeverObjects(checks.managed) && !outcome.Refused? &&
            (persistent ==> Recordable(old(disk.fs), files)) && (handler.Some? ==> NeverRaises(handler.value)) ==>
              outcome.Installed?
  {
    ScopeAvoidsStage(files, stage, backup);
    hide *;
    ghost var pre := disk.fs;
    if !checks.approved || (POINT in disk.fs && !persistent) {
      NothingPromised(pre, stage, backup, files, handler.None?);
      return Refused;
    }
    var staged := BuildStage(disk, stage, bundle, persistent, files, checks.staged);
    ghost var mid := disk.fs;
    StagingIsReady(pre, mid, stage, backup);
    var ok, started := false, false;
    var movedExisting: seq<string>, movedNew: seq<string> := [], [];
    ghost var point: Option<ExternalState> := None;
    if staged.Staged? {
      point := staged.point;
      ReadyMeans(pre, mid, stage, backup);
      StagedRootsAre(pre, bundle, point);
      ok, started, movedExisting, movedNew := Commit(disk, stage, backup, handler, files, Result(bundle, pre),
        UserSkills(pre, bundle.skills.Keys), Recorded(pre), point, checks.managed);
    } else {
      UntouchedCommits(pre, mid, stage, backup, files);
    }
    ghost var swapped := disk.fs;
    if ok {
      var tidied := disk.Remove([stage]);
      ghost var tidy := disk.fs;
      var dropped := disk.Remove([backup]);
      outcome := Installed(staged.point);
      InstalledPromise(pre, mid, swapped, tidy, disk.fs, stage, backup, files, point, started, movedExisting, movedNew,
                       StagedRoots(pre, bundle, point), handler.None?);
      if handler.Some? {
        TidyAround(pre, mid, swapped, tidy, disk.fs, stage, backup, files);
        HandledAround(pre, mid, swapped, disk.fs, handler.value, StagedRoots(pre, bundle, point), stage, backup);
        HandledByPath(pre, disk.fs, handler.value, bundle, point, stage, backup);
      } else {
        InstalledByPath(pre, disk.fs, [], bundle, point);
      }
    } else {
      AboutToRecover(disk, pre, mid, swapped, stage, backup, files, point, started, movedExisting, movedNew);
      var clean := Recover(disk, stage, backup, movedExisting, movedNew, started, point, files, mid, pre);
      ghost var recovered := disk.fs;
      var tidied := disk.Remove([stage]);
      ghost var tidy := disk.fs;
      RootsComeBack(pre, mid, recovered, tidy, stage, backup, files, disk.reliable);
      if clean { var dropped := disk.Remove([backup]); }
      outcome := if clean then Failed else Incomplete;
      RecoveredPromise(pre, mid, swapped, recovered, tidy, disk.fs, stage, backup, files, point, started, clean,
                       persistent, handler.None?);
    }
  }
}
