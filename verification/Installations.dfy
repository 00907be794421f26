/** What an installation is made of, and where its pieces lie in the target and in a rollback point. */
module Installations {
  import opened Wrappers
  import opened FileSystem
  import opened External

  const AGENTS := "AGENTS.md"
  const SKILLS := "skills"
  const STATE := ".agent-skills"
  const SYSTEM := ".system"
  const PACKAGES := "packages"
  const INSTALL_LOCK := "install-lock.json"
  const PACKAGE_LOCK := "agent-skills.lock"
  const ACTIVATION_LOCK := "activation-lock.json"
  const ROLLBACK_POINT := "rollback-point"
  const EXTERNAL_STATE := "external-state.json"
  const OS_METADATA := ".DS_Store"

  const MANAGED_ROOTS: seq<string> := [AGENTS, SKILLS, STATE]

  // ---------------------------------------------------------------- trees

  function FileTree(content: Content): Tree { map[[] := File(content, MANAGED_FILE_MODE)] }

  /** A managed directory holding the named trees and nothing else. */
  function Directory(parts: map<string, Tree>): (t: Tree)
    ensures forall p {:trigger p in t} :: p in t <==> p == [] || (p[0] in parts && p[1..] in parts[p[0]])
    ensures forall p {:trigger t[p]} :: p in t ==>
      t[p] == if p == [] then Dir(MANAGED_DIRECTORY_MODE) else parts[p[0]][p[1..]]
  {
    var below := set n, q | n in parts && q in parts[n] :: [n] + q;
    assert forall p: Path | p != [] :: p == [p[0]] + p[1..];
    assert forall n: string, q: Path {:trigger [n] + q} :: ([n] + q)[0] == n && ([n] + q)[1..] == q;
    map p | p in {[]} + below :: if p == [] then Dir(MANAGED_DIRECTORY_MODE) else parts[p[0]][p[1..]]
  }

  lemma DirectoryPart(parts: map<string, Tree>, n: string)
    ensures Sub(Directory(parts), [n]) == if n in parts then parts[n] else map[]
  {
    var t := Sub(Directory(parts), [n]);
    forall q
      ensures q in t <==> n in parts && q in parts[n]
      ensures q in t ==> t[q] == parts[n][q]
    {
      assert ([n] + q)[0] == n && ([n] + q)[1..] == q;
    }
  }

  lemma GraftPart(parts: map<string, Tree>, n: string, t: Tree)
    ensures Graft(Directory(parts), [n], t) == Directory(parts[n := t])
  {
    var a, b := Graft(Directory(parts), [n], t), Directory(parts[n := t]);
    forall p
      ensures SameAt(a, b, p)
    {
      assert Under([n], p) <==> p != [] && p[0] == n;
    }
    SameEverywhere(a, b);
  }

  /** Placing a tree inside a root, seen from that root. */
  lemma GraftInside(fs: Tree, root: Path, q: Path, t: Tree)
    ensures Sub(Graft(fs, root + q, t), root) == Graft(Sub(fs, root), q, t)
  {
    hide Sub, Graft, Under;
    var a, b := Sub(Graft(fs, root + q, t), root), Graft(Sub(fs, root), q, t);
    forall s
      ensures SameAt(a, b, s)
    {
      UnderShared(root, q, s);
    }
    SameEverywhere(a, b);
  }

  /** A tree without the files the operating system drops into directories. */
  function Clean(t: Tree): Tree {
    map q | q in t && !IsOsMetadata(t, q) :: t[q]
  }

  predicate IsOsMetadata(t: Tree, q: Path)
    requires q in t
  {
    q != [] && q[|q| - 1] == OS_METADATA && t[q].File?
  }

  lemma CleanTwice(t: Tree)
    ensures Clean(Clean(t)) == Clean(t)
  {
  }

  /** A tree survives a rollback and its reverse whole exactly when it holds no such file. */
  lemma CleanIsWhole(t: Tree)
    ensures Clean(t) == t <==> forall q | q in t :: !IsOsMetadata(t, q)
  {
    if q :| q in t && IsOsMetadata(t, q) {
      assert q !in Clean(t);
    } else {
      assert Clean(t) == t;
    }
  }

  // ---------------------------------------------------------------- installations

  /** Everything a lock covers: the identity a rollback must bring back. */
  datatype Installation = Installation(
    agents: Content,
    skills: map<string, Tree>,
    packages: map<string, Tree>,
    installLock: Content,
    packageLock: Content,
    activation: Option<Content>)

  /** Where the pieces lie: below the target, or below a rollback point. */
  datatype Layout = Layout(agents: Path, skills: Path, meta: Path)

  function InTarget(base: Path): Layout { Layout(base + [AGENTS], base + [SKILLS], base + [STATE]) }

  function InPoint(point: Path): Layout { Layout(point + [AGENTS], point + [SKILLS], point) }

  predicate IsManagedFile(fs: Tree, p: Path) { p in fs && fs[p].File? && fs[p].mode == MANAGED_FILE_MODE }

  predicate IsManagedDirectory(fs: Tree, p: Path) { p in fs && fs[p] == Dir(MANAGED_DIRECTORY_MODE) }

  /** The pieces an installation needs are there, of the right kind and mode. */
  predicate Readable(fs: Tree, l: Layout) {
    && IsManagedFile(fs, l.agents)
    && IsManagedDirectory(fs, l.skills)
    && IsManagedDirectory(fs, l.meta)
    && IsManagedDirectory(fs, l.meta + [PACKAGES])
    && IsManagedFile(fs, l.meta + [INSTALL_LOCK]) && fs[l.meta + [INSTALL_LOCK]].content.InstallLock?
    && SYSTEM !in fs[l.meta + [INSTALL_LOCK]].content.skills
    && IsManagedFile(fs, l.meta + [PACKAGE_LOCK])
    && (l.meta + [ACTIVATION_LOCK] in fs ==> IsManagedFile(fs, l.meta + [ACTIVATION_LOCK]))
    && (forall n | n in fs[l.meta + [INSTALL_LOCK]].content.skills :: IsDirAt(fs, l.skills + [n]))
    && (forall n | n in fs[l.meta + [INSTALL_LOCK]].content.packages :: IsDirAt(fs, l.meta + [PACKAGES] + [n]))
  }

  function Read(fs: Tree, l: Layout): Installation
    requires Readable(fs, l)
  {
    var lock := fs[l.meta + [INSTALL_LOCK]].content;
    Installation(
      fs[l.agents].content,
      map n | n in lock.skills :: Clean(Sub(fs, l.skills + [n])),
      map n | n in lock.packages :: Clean(Sub(fs, l.meta + [PACKAGES] + [n])),
      lock,
      fs[l.meta + [PACKAGE_LOCK]].content,
      if l.meta + [ACTIVATION_LOCK] in fs then Some(fs[l.meta + [ACTIVATION_LOCK]].content) else None)
  }

  /** What plan validation guarantees: the lock names exactly the Skills and packages. */
  ghost predicate Coherent(i: Installation) {
    && i.installLock.InstallLock?
    && i.skills.Keys == i.installLock.skills && SYSTEM !in i.skills
    && i.packages.Keys == i.installLock.packages
    && (forall n | n in i.skills :: IsDirAt(i.skills[n], []) && Clean(i.skills[n]) == i.skills[n])
    && (forall n | n in i.packages :: IsDirAt(i.packages[n], []) && Clean(i.packages[n]) == i.packages[n])
  }

  lemma ReadIsCoherent(fs: Tree, l: Layout)
    requires Readable(fs, l)
    ensures Coherent(Read(fs, l))
  {
    var i, lock := Read(fs, l), fs[l.meta + [INSTALL_LOCK]].content;
    forall n | n in i.skills
      ensures IsDirAt(i.skills[n], []) && Clean(i.skills[n]) == i.skills[n]
    {
      CleanTwice(Sub(fs, l.skills + [n]));
      assert l.skills + [n] + [] == l.skills + [n];
    }
    forall n | n in i.packages
      ensures IsDirAt(i.packages[n], []) && Clean(i.packages[n]) == i.packages[n]
    {
      CleanTwice(Sub(fs, l.meta + [PACKAGES] + [n]));
      assert l.meta + [PACKAGES] + [n] + [] == l.meta + [PACKAGES] + [n];
    }
  }

  /** The files both layouts keep in their metadata directory. */
  function MetaParts(i: Installation): map<string, Tree> {
    var required := map[
      PACKAGES := Directory(i.packages),
      INSTALL_LOCK := FileTree(i.installLock),
      PACKAGE_LOCK := FileTree(i.packageLock)];
    match i.activation
    case None => required
    case Some(a) => required[ACTIVATION_LOCK := FileTree(a)]
  }

  /** A rollback point: an installation and the record of the external files. */
  function PointTree(i: Installation, state: ExternalState): Tree {
    Directory(PointParts(i, state))
  }

  /** The managed directory of an installation, with its rollback point if it has one. */
  function StateTree(i: Installation, point: Option<Tree>): Tree {
    match point
    case None => Directory(MetaParts(i))
    case Some(t) => Directory(MetaParts(i)[ROLLBACK_POINT := t])
  }

  /** The managed roots of an installation that keeps the Skills `others` of its user. */
  function Roots(i: Installation, others: map<string, Tree>, point: Option<Tree>): map<string, Tree> {
    map[AGENTS := FileTree(i.agents), SKILLS := Directory(others + i.skills), STATE := StateTree(i, point)]
  }

  ghost predicate HasRoots(fs: Tree, base: Path, roots: map<string, Tree>) {
    forall n | n in MANAGED_ROOTS :: n in roots && Sub(fs, base + [n]) == roots[n]
  }

  ghost predicate IsFileWith(fs: Tree, p: Path, content: Content) {
    p in fs && fs[p] == File(content, MANAGED_FILE_MODE)
  }

  ghost predicate HoldsTrees(fs: Tree, root: Path, trees: map<string, Tree>) {
    IsManagedDirectory(fs, root) && forall n | n in trees :: Sub(fs, root + [n]) == trees[n]
  }

  /** The pieces of `i` lie where the layout says. */
  ghost predicate Holds(fs: Tree, l: Layout, i: Installation) {
    && IsFileWith(fs, l.agents, i.agents)
    && HoldsTrees(fs, l.skills, i.skills)
    && HoldsMeta(fs, l.meta, i)
  }

  ghost predicate HoldsMeta(fs: Tree, root: Path, i: Installation) {
    && IsManagedDirectory(fs, root)
    && HoldsTrees(fs, root + [PACKAGES], i.packages)
    && IsFileWith(fs, root + [INSTALL_LOCK], i.installLock)
    && IsFileWith(fs, root + [PACKAGE_LOCK], i.packageLock)
    && (root + [ACTIVATION_LOCK] in fs <==> i.activation.Some?)
    && (i.activation.Some? ==> IsFileWith(fs, root + [ACTIVATION_LOCK], i.activation.value))
  }

  lemma TreeRoot(fs: Tree, p: Path, t: Tree)
    requires Sub(fs, p) == t
    ensures [] in t <==> p in fs
    ensures [] in t ==> t[[]] == fs[p]
  {
    assert p + [] == p;
    assert [] in Sub(fs, p) <==> p in fs;
  }

  lemma HeldTreesAreRead(fs: Tree, root: Path, trees: map<string, Tree>)
    requires HoldsTrees(fs, root, trees)
    requires forall n | n in trees :: IsDirAt(trees[n], []) && Clean(trees[n]) == trees[n]
    ensures forall n | n in trees :: IsDirAt(fs, root + [n])
    ensures (map n | n in trees.Keys :: Clean(Sub(fs, root + [n]))) == trees
  {
    forall n | n in trees
      ensures IsDirAt(fs, root + [n])
    {
      TreeRoot(fs, root + [n], trees[n]);
    }
  }

  lemma HeldIsRead(fs: Tree, l: Layout, i: Installation)
    requires Holds(fs, l, i) && Coherent(i)
    ensures Readable(fs, l) && Read(fs, l) == i
  {
    HeldTreesAreRead(fs, l.skills, i.skills);
    HeldTreesAreRead(fs, l.meta + [PACKAGES], i.packages);
  }

  /** Reading back the roots of an installation gives the installation. */
  lemma ReadRoots(fs: Tree, i: Installation, others: map<string, Tree>, point: Option<Tree>)
    requires HasRoots(fs, [], Roots(i, others, point)) && Coherent(i)
    ensures Readable(fs, InTarget([])) && Read(fs, InTarget([])) == i
  {
    hide Directory, Sub, HoldsMeta, HoldsTrees;
    var roots := Roots(i, others, point);
    assert [] + [AGENTS] == [AGENTS] && [] + [SKILLS] == [SKILLS] && [] + [STATE] == [STATE];
    assert AGENTS in MANAGED_ROOTS && SKILLS in MANAGED_ROOTS && STATE in MANAGED_ROOTS;
    TreeRoot(fs, [AGENTS], FileTree(i.agents));
    HeldSkills(fs, [SKILLS], others, i.skills);
    HeldState(fs, i, point);
    HeldIsRead(fs, InTarget([]), i);
  }

  lemma HeldState(fs: Tree, i: Installation, point: Option<Tree>)
    requires Sub(fs, [STATE]) == StateTree(i, point)
    ensures HoldsMeta(fs, [STATE], i)
  {
    hide Directory, Sub, HoldsMeta;
    match point
    case None => HeldMeta(fs, [STATE], MetaParts(i), i);
    case Some(t) => HeldMeta(fs, [STATE], MetaParts(i)[ROLLBACK_POINT := t], i);
  }

  lemma HeldSkills(fs: Tree, root: Path, others: map<string, Tree>, skills: map<string, Tree>)
    requires Sub(fs, root) == Directory(others + skills)
    ensures HoldsTrees(fs, root, skills)
  {
    TreeRoot(fs, root, Directory(others + skills));
    forall n | n in skills
      ensures Sub(fs, root + [n]) == skills[n]
    {
      ReadPart(fs, root, others + skills, n);
    }
  }

  /** The pieces of a metadata directory, read one by one. */
  lemma HeldMeta(fs: Tree, root: Path, parts: map<string, Tree>, i: Installation)
    requires Sub(fs, root) == Directory(parts)
    requires forall n | n in MetaParts(i) :: n in parts && parts[n] == MetaParts(i)[n]
    requires ACTIVATION_LOCK in parts ==> i.activation.Some?
    ensures HoldsMeta(fs, root, i)
  {
    MetaPartsAre(i);
    hide MetaParts, Directory, Sub;
    TreeRoot(fs, root, Directory(parts));
    ReadPart(fs, root, parts, PACKAGES);
    assert map[] + i.packages == i.packages;
    HeldSkills(fs, root + [PACKAGES], map[], i.packages);
    ReadFile(fs, root, parts, INSTALL_LOCK, i.installLock);
    ReadFile(fs, root, parts, PACKAGE_LOCK, i.packageLock);
    HeldActivation(fs, root, parts, i);
  }

  lemma MetaPartsAre(i: Installation)
    ensures PACKAGES in MetaParts(i) && MetaParts(i)[PACKAGES] == Directory(i.packages)
    ensures INSTALL_LOCK in MetaParts(i) && MetaParts(i)[INSTALL_LOCK] == FileTree(i.installLock)
    ensures PACKAGE_LOCK in MetaParts(i) && MetaParts(i)[PACKAGE_LOCK] == FileTree(i.packageLock)
    ensures i.activation.Some? ==> ACTIVATION_LOCK in MetaParts(i) && MetaParts(i)[ACTIVATION_LOCK] == FileTree(i.activation.value)
  {
  }

  lemma HeldActivation(fs: Tree, root: Path, parts: map<string, Tree>, i: Installation)
    requires Sub(fs, root) == Directory(parts)
    requires i.activation.Some? ==> ACTIVATION_LOCK in parts && parts[ACTIVATION_LOCK] == FileTree(i.activation.value)
    requires ACTIVATION_LOCK in parts ==> i.activation.Some?
    ensures root + [ACTIVATION_LOCK] in fs <==> i.activation.Some?
    ensures i.activation.Some? ==> IsFileWith(fs, root + [ACTIVATION_LOCK], i.activation.value)
  {
    ReadPart(fs, root, parts, ACTIVATION_LOCK);
    TreeRoot(fs, root + [ACTIVATION_LOCK], Sub(fs, root + [ACTIVATION_LOCK]));
  }

  lemma ReadPart(fs: Tree, root: Path, parts: map<string, Tree>, n: string)
    requires Sub(fs, root) == Directory(parts)
    ensures Sub(fs, root + [n]) == if n in parts then parts[n] else map[]
  {
    SubOfSub(fs, root, [n]);
    DirectoryPart(parts, n);
  }

  lemma ReadFile(fs: Tree, root: Path, parts: map<string, Tree>, n: string, content: Content)
    requires Sub(fs, root) == Directory(parts) && n in parts && parts[n] == FileTree(content)
    ensures IsFileWith(fs, root + [n], content)
  {
    ReadPart(fs, root, parts, n);
    TreeRoot(fs, root + [n], FileTree(content));
  }

  function PointParts(i: Installation, state: ExternalState): map<string, Tree> {
    MetaParts(i)[AGENTS := FileTree(i.agents)][SKILLS := Directory(i.skills)]
    [EXTERNAL_STATE := FileTree(ExternalRecord(state))]
  }

  lemma PointPartsAt(i: Installation, state: ExternalState)
    ensures forall n | n in MetaParts(i) :: n in PointParts(i, state) && PointParts(i, state)[n] == MetaParts(i)[n]
    ensures AGENTS in PointParts(i, state) && PointParts(i, state)[AGENTS] == FileTree(i.agents)
    ensures SKILLS in PointParts(i, state) && PointParts(i, state)[SKILLS] == Directory(i.skills)
    ensures EXTERNAL_STATE in PointParts(i, state)
    ensures PointParts(i, state)[EXTERNAL_STATE] == FileTree(ExternalRecord(state))
    ensures ACTIVATION_LOCK in PointParts(i, state) ==> i.activation.Some?
  {
    hide Directory, FileTree;
    assert |AGENTS| == 9 && |SKILLS| == 6 && |PACKAGES| == 8 && |EXTERNAL_STATE| == 19;
    assert |INSTALL_LOCK| == 17 && |PACKAGE_LOCK| == 17 && |ACTIVATION_LOCK| == 20;
  }

  /** Reading back a rollback point gives the installation that was recorded. */
  lemma ReadPoint(fs: Tree, q: Path, i: Installation, state: ExternalState)
    requires Sub(fs, q) == PointTree(i, state) && Coherent(i)
    ensures Readable(fs, InPoint(q)) && Read(fs, InPoint(q)) == i
    ensures IsFileWith(fs, q + [EXTERNAL_STATE], ExternalRecord(state))
  {
    hide Directory, Sub, HoldsMeta, HoldsTrees, MetaParts, PointParts, Readable, Read;
    var parts := PointParts(i, state);
    PointPartsAt(i, state);
    HeldMeta(fs, q, parts, i);
    ReadFile(fs, q, parts, AGENTS, i.agents);
    ReadFile(fs, q, parts, EXTERNAL_STATE, ExternalRecord(state));
    ReadPart(fs, q, parts, SKILLS);
    assert map[] + i.skills == i.skills;
    HeldSkills(fs, q + [SKILLS], map[], i.skills);
    HeldIsRead(fs, InPoint(q), i);
  }

  /** The Skills of the user that a lock does not name. */
  function UserSkills(fs: Tree, managed: set<string>): map<string, Tree> {
    var names := set p | p in fs && |p| == 2 && p[0] == SKILLS && fs[p].Dir? :: p[1];
    map n | n in names && n !in managed :: Sub(fs, [SKILLS] + [n])
  }

  /** `.system` is the only one a rollback carries over. */
  function SystemSkills(fs: Tree): map<string, Tree> {
    if IsDirAt(fs, [SKILLS, SYSTEM]) then map[SYSTEM := Sub(fs, [SKILLS] + [SYSTEM])] else map[]
  }

  lemma SystemIsKept(fs: Tree, i: Installation, others: map<string, Tree>, point: Option<Tree>)
    requires HasRoots(fs, [], Roots(i, others, point)) && Coherent(i)
    requires others.Keys <= {SYSTEM}
    requires SYSTEM in others ==> IsDirAt(others[SYSTEM], [])
    ensures SystemSkills(fs) == others
  {
    hide Directory, Sub;
    assert [] + [SKILLS] == [SKILLS] && SKILLS in MANAGED_ROOTS;
    ReadPart(fs, [SKILLS], others + i.skills, SYSTEM);
    assert [SKILLS] + [SYSTEM] == [SKILLS, SYSTEM];
    TreeRoot(fs, [SKILLS, SYSTEM], Sub(fs, [SKILLS, SYSTEM]));
    if SYSTEM in others {
      assert others.Keys == {SYSTEM};
      assert others == map[SYSTEM := others[SYSTEM]];
    } else {
      assert others.Keys == {};
    }
  }
}
