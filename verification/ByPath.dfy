/** Managed trees told path by path: which file lies where, with what content and mode, and that nothing else does. */
module ByPath {
  import opened Wrappers
  import opened FileSystem
  import opened External
  import opened Installations

  /** A managed file, and nothing below it. */
  ghost predicate OnlyFile(fs: Tree, p: Path, content: Content) {
    p in fs && fs[p] == File(content, MANAGED_FILE_MODE) && forall q: Path | q != [] :: p + q !in fs
  }

  ghost predicate Nothing(fs: Tree, p: Path) { forall q: Path :: p + q !in fs }

  /** Below `p` lies what lies below `from` in `pre`. */
  ghost predicate SameTree(pre: Tree, from: Path, fs: Tree, p: Path) {
    forall q: Path :: (p + q in fs <==> from + q in pre) && (from + q in pre ==> fs[p + q] == pre[from + q])
  }

  /** The same, but files of the name that the operating system uses for its own notes are not copied. */
  ghost predicate CopiedTree(pre: Tree, from: Path, fs: Tree, p: Path) {
    forall q: Path :: (p + q in fs <==> Copies(pre, from, q)) && (p + q in fs ==> fs[p + q] == pre[from + q])
  }

  ghost predicate Copies(pre: Tree, from: Path, q: Path)
    ensures Copies(pre, from, q) ==> from + q in pre
  {
    from + q in pre && !(q != [] && q[|q| - 1] == ".DS_Store" && pre[from + q].File?)
  }

  /** `p` holds the tree `t`. */
  ghost predicate Holding(fs: Tree, p: Path, t: Tree) {
    forall q: Path :: (p + q in fs <==> q in t) && (q in t ==> fs[p + q] == t[q])
  }

  // ---------------------------------------------------------------- the builders

  lemma SubByPath(fs: Tree, p: Path, t: Tree)
    ensures Sub(fs, p) == t <==> Holding(fs, p, t)
  {
    if Holding(fs, p, t) {
      forall q
        ensures SameAt(Sub(fs, p), t, q)
      {
        assert p + q in fs <==> q in t;
      }
      SameEverywhere(Sub(fs, p), t);
    }
  }

  lemma FileByPath(fs: Tree, p: Path, content: Content)
    ensures Sub(fs, p) == FileTree(content) <==> OnlyFile(fs, p, content)
  {
    SubByPath(fs, p, FileTree(content));
    assert p + [] == p;
    if Holding(fs, p, FileTree(content)) {
      assert p + [] in fs;
      forall q: Path | q != []
        ensures p + q !in fs
      {
        assert p + q in fs <==> q in FileTree(content);
      }
    }
    if OnlyFile(fs, p, content) {
      forall q: Path
        ensures (p + q in fs <==> q in FileTree(content)) && (q in FileTree(content) ==> fs[p + q] == FileTree(content)[q])
      {
        if q == [] { assert p + q == p; }
      }
    }
  }

  lemma NothingByPath(fs: Tree, p: Path)
    ensures Sub(fs, p) == map[] <==> Nothing(fs, p)
  {
    SubByPath(fs, p, map[]);
    if Holding(fs, p, map[]) {
      forall q: Path
        ensures p + q !in fs
      {
        var none: Tree := map[];
        assert p + q in fs <==> q in none;
      }
    }
    if Nothing(fs, p) { assert Holding(fs, p, map[]); }
  }

  lemma SameTreeByPath(pre: Tree, from: Path, fs: Tree, p: Path)
    ensures Sub(fs, p) == Sub(pre, from) <==> SameTree(pre, from, fs, p)
  {
    SubByPath(fs, p, Sub(pre, from));
    if Holding(fs, p, Sub(pre, from)) {
      forall q: Path
        ensures (p + q in fs <==> from + q in pre) && (from + q in pre ==> fs[p + q] == pre[from + q])
      {
        assert p + q in fs <==> q in Sub(pre, from);
      }
    }
  }

  lemma CopiedTreeByPath(pre: Tree, from: Path, fs: Tree, p: Path)
    ensures Sub(fs, p) == Clean(Sub(pre, from)) <==> CopiedTree(pre, from, fs, p)
  {
    var t := Clean(Sub(pre, from));
    CleanByPath(pre, from);
    SubByPath(fs, p, t);
    hide Clean, Sub, Copies;
    if Holding(fs, p, t) {
      forall q: Path
        ensures (p + q in fs <==> Copies(pre, from, q)) && (p + q in fs ==> fs[p + q] == pre[from + q])
      {
        assert p + q in fs <==> q in t;
      }
    }
    if CopiedTree(pre, from, fs, p) {
      forall q: Path
        ensures (p + q in fs <==> q in t) && (q in t ==> fs[p + q] == t[q])
      {
        assert p + q in fs <==> Copies(pre, from, q);
      }
    }
  }

  lemma CleanByPath(pre: Tree, from: Path)
    ensures forall q :: q in Clean(Sub(pre, from)) <==> Copies(pre, from, q)
    ensures forall q | q in Clean(Sub(pre, from)) :: Clean(Sub(pre, from))[q] == pre[from + q]
  {
  }

  /** A managed directory with exactly these entries. */
  ghost predicate Listing(fs: Tree, root: Path, parts: map<string, Tree>) {
    IsManagedDirectory(fs, root) && forall n: string :: Sub(fs, root + [n]) == if n in parts then parts[n] else map[]
  }

  lemma DirectoryByPath(fs: Tree, root: Path, parts: map<string, Tree>)
    ensures Sub(fs, root) == Directory(parts) <==> Listing(fs, root, parts)
  {
    if Sub(fs, root) == Directory(parts) {
      TreeRoot(fs, root, Directory(parts));
      forall n: string
        ensures Sub(fs, root + [n]) == if n in parts then parts[n] else map[]
      {
        ReadPart(fs, root, parts, n);
      }
    }
    if Listing(fs, root, parts) { ListingIsDirectory(fs, root, parts); }
  }

  lemma ListingIsDirectory(fs: Tree, root: Path, parts: map<string, Tree>)
    requires Listing(fs, root, parts)
    ensures Sub(fs, root) == Directory(parts)
  {
    var t := Directory(parts);
    hide Sub, Directory, IsManagedDirectory;
    forall q: Path
      ensures (root + q in fs <==> q in t) && (q in t ==> fs[root + q] == t[q])
    {
      if q == [] { ListingRoot(fs, root, parts); } else { ListingEntry(fs, root, parts, q[0], q[1..]); }
      assert q != [] ==> root + q == root + [q[0]] + q[1..] && q == [q[0]] + q[1..];
    }
    SubByPath(fs, root, t);
  }

  lemma ListingRoot(fs: Tree, root: Path, parts: map<string, Tree>)
    requires Listing(fs, root, parts)
    ensures root + [] in fs && [] in Directory(parts) && fs[root + []] == Directory(parts)[[]]
  {
    assert root + [] == root;
  }

  lemma ListingEntry(fs: Tree, root: Path, parts: map<string, Tree>, n: string, r: Path)
    requires Sub(fs, root + [n]) == if n in parts then parts[n] else map[]
    ensures root + [n] + r in fs <==> [n] + r in Directory(parts)
    ensures root + [n] + r in fs ==> fs[root + [n] + r] == Directory(parts)[[n] + r]
  {
    var part, q := Sub(fs, root + [n]), [n] + r;
    assert q[0] == n && q[1..] == r;
    assert root + [n] + r in fs <==> r in part;
    hide Sub;
  }

  // ---------------------------------------------------------------- rollback points

  /** Each named tree is copied without the notes of the operating system, and nothing else is there. */
  ghost predicate Copied(pre: Tree, from: Path, names: set<string>, fs: Tree, root: Path) {
    && IsManagedDirectory(fs, root)
    && forall n: string :: if n in names then CopiedTree(pre, from + [n], fs, root + [n]) else Nothing(fs, root + [n])
  }

  /** `point` is a rollback point of the installation in `pre` whose pieces lie at the given paths. */
  ghost predicate PointRecords(pre: Tree, agents: Path, skills: Path, meta: Path, fs: Tree, point: Path, state: ExternalState) {
    && Locked(pre, agents, meta)
    && var lock, activation := pre[meta + ["install-lock.json"]].content, meta + ["activation-lock.json"];
    && IsManagedDirectory(fs, point)
    && OnlyFile(fs, point + ["AGENTS.md"], pre[agents].content)
    && Copied(pre, skills, lock.skills, fs, point + ["skills"])
    && Copied(pre, meta + ["packages"], lock.packages, fs, point + ["packages"])
    && OnlyFile(fs, point + ["install-lock.json"], lock)
    && OnlyFile(fs, point + ["agent-skills.lock"], pre[meta + ["agent-skills.lock"]].content)
    && (if activation in pre then OnlyFile(fs, point + ["activation-lock.json"], pre[activation].content)
        else Nothing(fs, point + ["activation-lock.json"]))
    && OnlyFile(fs, point + ["external-state.json"], ExternalRecord(state))
    && forall n: string | n !in PointNames() :: Nothing(fs, point + [n])
  }

  ghost predicate Locked(pre: Tree, agents: Path, meta: Path) {
    && IsFileAt(pre, agents)
    && IsFileAt(pre, meta + ["install-lock.json"]) && pre[meta + ["install-lock.json"]].content.InstallLock?
    && IsFileAt(pre, meta + ["agent-skills.lock"])
    && (meta + ["activation-lock.json"] in pre ==> IsFileAt(pre, meta + ["activation-lock.json"]))
  }

  ghost function PointNames(): set<string> {
    {"AGENTS.md", "skills", "packages", "install-lock.json", "agent-skills.lock", "activation-lock.json",
     "external-state.json"}
  }

  lemma CopiedByPath(pre: Tree, from: Path, names: set<string>, fs: Tree, root: Path)
    ensures Sub(fs, root) == Directory(map n | n in names :: Clean(Sub(pre, from + [n]))) <==>
            Copied(pre, from, names, fs, root)
  {
    hide Sub, Directory, Clean, CopiedTree, Nothing, IsManagedDirectory;
    var parts := map n | n in names :: Clean(Sub(pre, from + [n]));
    DirectoryByPath(fs, root, parts);
    forall n: string
      ensures (Sub(fs, root + [n]) == if n in parts then parts[n] else map[]) <==>
              if n in names then CopiedTree(pre, from + [n], fs, root + [n]) else Nothing(fs, root + [n])
    {
      CopiedTreeByPath(pre, from + [n], fs, root + [n]);
      NothingByPath(fs, root + [n]);
    }
    if Listing(fs, root, parts) {
      forall n: string
        ensures if n in names then CopiedTree(pre, from + [n], fs, root + [n]) else Nothing(fs, root + [n])
      {
        assert Sub(fs, root + [n]) == if n in parts then parts[n] else map[];
      }
    }
  }

  /** A rollback point is what it is said to be, path by path. */
  lemma PointByPath(pre: Tree, l: Layout, fs: Tree, point: Path, state: ExternalState)
    requires Readable(pre, l)
    ensures Sub(fs, point) == PointTree(Read(pre, l), state) <==>
            PointRecords(pre, l.agents, l.skills, l.meta, fs, point, state)
  {
    hide *;
    ReadInFull(pre, l);
    PointInFull(fs, point, Read(pre, l), state);
    EntriesAreRecords(pre, l.agents, l.skills, l.meta, fs, point, state, Read(pre, l));
  }

  ghost predicate IsReading(pre: Tree, agents: Path, skills: Path, meta: Path, i: Installation)
    requires Locked(pre, agents, meta)
  {
    var lock, activation := pre[meta + ["install-lock.json"]].content, meta + ["activation-lock.json"];
    && i.installLock == lock && i.agents == pre[agents].content
    && i.packageLock == pre[meta + ["agent-skills.lock"]].content
    && i.skills == (map n | n in lock.skills :: Clean(Sub(pre, skills + [n])))
    && i.packages == (map n | n in lock.packages :: Clean(Sub(pre, meta + ["packages"] + [n])))
    && i.activation == if activation in pre then Some(pre[activation].content) else None
  }

  lemma EntriesAreRecords(pre: Tree, agents: Path, skills: Path, meta: Path, fs: Tree, point: Path, state: ExternalState,
                          i: Installation)
    requires Locked(pre, agents, meta) && IsReading(pre, agents, skills, meta, i)
    ensures PointEntries(fs, point, i, state) <==> PointRecords(pre, agents, skills, meta, fs, point, state)
  {
    var lock := pre[meta + ["install-lock.json"]].content;
    CopiedByPath(pre, skills, lock.skills, fs, point + ["skills"]);
    CopiedByPath(pre, meta + ["packages"], lock.packages, fs, point + ["packages"]);
    hide Sub, Directory, Clean, Copied, Nothing, OnlyFile, IsManagedDirectory, PointNames;
  }

  lemma ReadInFull(pre: Tree, l: Layout)
    requires Readable(pre, l)
    ensures Locked(pre, l.agents, l.meta) && IsReading(pre, l.agents, l.skills, l.meta, Read(pre, l))
  {
    hide Sub, Clean;
    assert PACKAGES == "packages" && INSTALL_LOCK == "install-lock.json" && PACKAGE_LOCK == "agent-skills.lock";
    assert ACTIVATION_LOCK == "activation-lock.json";
  }

  /** The entries of a rollback point. */
  ghost predicate PointEntries(fs: Tree, point: Path, i: Installation, state: ExternalState) {
    && IsManagedDirectory(fs, point)
    && OnlyFile(fs, point + ["AGENTS.md"], i.agents)
    && Sub(fs, point + ["skills"]) == Directory(i.skills)
    && Sub(fs, point + ["packages"]) == Directory(i.packages)
    && OnlyFile(fs, point + ["install-lock.json"], i.installLock)
    && OnlyFile(fs, point + ["agent-skills.lock"], i.packageLock)
    && (if i.activation.Some? then OnlyFile(fs, point + ["activation-lock.json"], i.activation.value)
        else Nothing(fs, point + ["activation-lock.json"]))
    && OnlyFile(fs, point + ["external-state.json"], ExternalRecord(state))
    && forall n: string | n !in PointNames() :: Nothing(fs, point + [n])
  }

  lemma PointInFull(fs: Tree, point: Path, i: Installation, state: ExternalState)
    ensures Sub(fs, point) == PointTree(i, state) <==> PointEntries(fs, point, i, state)
  {
    hide Sub, Directory, Nothing, OnlyFile, FileTree, IsManagedDirectory, Named, Unnamed, PointParts;
    var parts := PointParts(i, state);
    DirectoryByPath(fs, point, parts);
    PointPartsListed(i, state);
    ListingInFull(fs, point, parts, PointNames());
    hide Listing;
    PointNamed(fs, point, i, state, parts);
    UnnamedByPath(fs, point, PointNames());
    hide PointNames;
  }

  ghost predicate Named(fs: Tree, root: Path, parts: map<string, Tree>, names: set<string>) {
    forall n | n in names :: NamedOne(fs, root, parts, n)
  }

  ghost predicate Unnamed(fs: Tree, root: Path, names: set<string>) {
    forall n: string | n !in names :: Sub(fs, root + [n]) == map[]
  }

  lemma UnnamedByPath(fs: Tree, root: Path, names: set<string>)
    ensures Unnamed(fs, root, names) <==> forall n: string | n !in names :: Nothing(fs, root + [n])
  {
    hide Sub, Nothing;
    forall n: string
      ensures Sub(fs, root + [n]) == map[] <==> Nothing(fs, root + [n])
    {
      NothingByPath(fs, root + [n]);
    }
  }

  lemma ListingInFull(fs: Tree, root: Path, parts: map<string, Tree>, names: set<string>)
    requires parts.Keys <= names
    ensures Listing(fs, root, parts) <==>
            IsManagedDirectory(fs, root) && Named(fs, root, parts, names) && Unnamed(fs, root, names)
  {
    hide Sub, IsManagedDirectory;
  }

  lemma PointNamed(fs: Tree, point: Path, i: Installation, state: ExternalState, parts: map<string, Tree>)
    requires parts == PointParts(i, state)
    ensures Named(fs, point, parts, PointNames()) <==>
      && OnlyFile(fs, point + ["AGENTS.md"], i.agents)
      && Sub(fs, point + ["skills"]) == Directory(i.skills)
      && Sub(fs, point + ["packages"]) == Directory(i.packages)
      && OnlyFile(fs, point + ["install-lock.json"], i.installLock)
      && OnlyFile(fs, point + ["agent-skills.lock"], i.packageLock)
      && (if i.activation.Some? then OnlyFile(fs, point + ["activation-lock.json"], i.activation.value)
          else Nothing(fs, point + ["activation-lock.json"]))
      && OnlyFile(fs, point + ["external-state.json"], ExternalRecord(state))
  {
    hide Sub, Directory, Nothing, OnlyFile, FileTree;
    PointPartsListed(i, state);
    hide PointParts;
    FileByPath(fs, point + ["AGENTS.md"], i.agents);
    FileByPath(fs, point + ["install-lock.json"], i.installLock);
    FileByPath(fs, point + ["agent-skills.lock"], i.packageLock);
    if i.activation.Some? { FileByPath(fs, point + ["activation-lock.json"], i.activation.value); }
    NothingByPath(fs, point + ["activation-lock.json"]);
    FileByPath(fs, point + ["external-state.json"], ExternalRecord(state));
    assert "activation-lock.json" in parts <==> i.activation.Some?;
    SevenNames(fs, point, parts, "AGENTS.md", "skills", "packages", "install-lock.json", "agent-skills.lock",
               "activation-lock.json", "external-state.json");
    hide Named;
  }

  ghost predicate NamedOne(fs: Tree, root: Path, parts: map<string, Tree>, n: string) {
    Sub(fs, root + [n]) == if n in parts then parts[n] else map[]
  }

  lemma SevenNames(fs: Tree, root: Path, parts: map<string, Tree>, a: string, s: string, p: string, l: string,
                   k: string, c: string, x: string)
    ensures Named(fs, root, parts, {a, s, p, l, k, c, x}) <==>
      && NamedOne(fs, root, parts, a) && NamedOne(fs, root, parts, s) && NamedOne(fs, root, parts, p)
      && NamedOne(fs, root, parts, l) && NamedOne(fs, root, parts, k) && NamedOne(fs, root, parts, c)
      && NamedOne(fs, root, parts, x)
  {
    hide NamedOne;
  }

  lemma PointPartsListed(i: Installation, state: ExternalState)
    ensures PointParts(i, state).Keys ==
      if i.activation.Some? then PointNames() else PointNames() - {"activation-lock.json"}
    ensures var parts := PointParts(i, state);
            && parts["AGENTS.md"] == FileTree(i.agents)
            && parts["skills"] == Directory(i.skills)
            && parts["packages"] == Directory(i.packages)
            && parts["install-lock.json"] == FileTree(i.installLock)
            && parts["agent-skills.lock"] == FileTree(i.packageLock)
            && (i.activation.Some? ==> parts["activation-lock.json"] == FileTree(i.activation.value))
            && parts["external-state.json"] == FileTree(ExternalRecord(state))
  {
    hide Directory, FileTree;
    PointPartsAt(i, state);
    MetaPartsAre(i);
    assert PACKAGES == "packages" && INSTALL_LOCK == "install-lock.json" && PACKAGE_LOCK == "agent-skills.lock";
  }

  /** What must be there to be read: three files and three directories of the managed modes, an activation lock of
      that mode if there is one, and a directory for each Skill and package that the lock names, `.system` apart. */
  ghost predicate Complete(fs: Tree, agents: Path, skills: Path, meta: Path) {
    && (forall p | p in {agents, meta + ["install-lock.json"], meta + ["agent-skills.lock"]} ::
          p in fs && fs[p].File? && fs[p].mode == 0x1A4)
    && (forall p | p in {skills, meta, meta + ["packages"]} :: p in fs && fs[p] == Dir(0x1ED))
    && (meta + ["activation-lock.json"] in fs ==>
          fs[meta + ["activation-lock.json"]].File? && fs[meta + ["activation-lock.json"]].mode == 0x1A4)
    && var lock := fs[meta + ["install-lock.json"]].content;
    && lock.InstallLock? && ".system" !in lock.skills
    && (forall n | n in lock.skills :: IsDirAt(fs, skills + [n]))
    && (forall n | n in lock.packages :: IsDirAt(fs, meta + ["packages"] + [n]))
  }

  lemma ReadableIsComplete(fs: Tree, l: Layout)
    ensures Readable(fs, l) <==> Complete(fs, l.agents, l.skills, l.meta)
  {
    assert PACKAGES == "packages" && INSTALL_LOCK == "install-lock.json" && PACKAGE_LOCK == "agent-skills.lock";
    assert ACTIVATION_LOCK == "activation-lock.json" && SYSTEM == ".system";
    var files := {l.agents, l.meta + [INSTALL_LOCK], l.meta + [PACKAGE_LOCK]};
    var directories := {l.skills, l.meta, l.meta + [PACKAGES]};
    assert l.agents in files && l.meta + [INSTALL_LOCK] in files && l.meta + [PACKAGE_LOCK] in files;
    assert l.skills in directories && l.meta in directories && l.meta + [PACKAGES] in directories;
  }

  // ---------------------------------------------------------------- managed roots

  ghost function StateNames(): set<string> {
    {"packages", "install-lock.json", "agent-skills.lock", "activation-lock.json", "rollback-point"}
  }

  /** The entries of the managed directory. */
  ghost predicate StateEntries(fs: Tree, root: Path, i: Installation, point: Option<Tree>) {
    && IsManagedDirectory(fs, root)
    && Listing(fs, root + ["packages"], i.packages)
    && OnlyFile(fs, root + ["install-lock.json"], i.installLock)
    && OnlyFile(fs, root + ["agent-skills.lock"], i.packageLock)
    && (if i.activation.Some? then OnlyFile(fs, root + ["activation-lock.json"], i.activation.value)
        else Nothing(fs, root + ["activation-lock.json"]))
    && (if point.Some? then Sub(fs, root + ["rollback-point"]) == point.value else Nothing(fs, root + ["rollback-point"]))
    && forall n: string | n !in StateNames() :: Nothing(fs, root + [n])
  }

  /** The managed roots of an installation, path by path. */
  lemma RootsByPath(fs: Tree, base: Path, i: Installation, others: map<string, Tree>, point: Option<Tree>)
    ensures HasRoots(fs, base, Roots(i, others, point)) <==>
      && OnlyFile(fs, base + ["AGENTS.md"], i.agents)
      && Listing(fs, base + ["skills"], others + i.skills)
      && StateEntries(fs, base + [".agent-skills"], i, point)
  {
    hide Sub, Directory, OnlyFile, FileTree, Listing, StateEntries, StateTree;
    FileByPath(fs, base + [AGENTS], i.agents);
    DirectoryByPath(fs, base + [SKILLS], others + i.skills);
    StateInFull(fs, base + [STATE], i, point);
    var roots := Roots(i, others, point);
    assert AGENTS in MANAGED_ROOTS && SKILLS in MANAGED_ROOTS && STATE in MANAGED_ROOTS;
    assert roots[AGENTS] == FileTree(i.agents) && roots[SKILLS] == Directory(others + i.skills);
    assert roots[STATE] == StateTree(i, point);
  }

  lemma StateInFull(fs: Tree, root: Path, i: Installation, point: Option<Tree>)
    ensures Sub(fs, root) == StateTree(i, point) <==> StateEntries(fs, root, i, point)
  {
    var parts := if point.Some? then MetaParts(i)[ROLLBACK_POINT := point.value] else MetaParts(i);
    assert StateTree(i, point) == Directory(parts);
    hide Sub, Directory, Nothing, OnlyFile, FileTree, IsManagedDirectory, Named, Unnamed, StateTree;
    DirectoryByPath(fs, root, parts);
    StatePartsAre(i, point, parts);
    hide MetaParts;
    ListingInFull(fs, root, parts, StateNames());
    StateNamed(fs, root, i, point, parts);
    UnnamedByPath(fs, root, StateNames());
    hide StateNames;
    DirectoryByPath(fs, root + ["packages"], i.packages);
    hide Listing;
  }

  lemma StatePartsAre(i: Installation, point: Option<Tree>, parts: map<string, Tree>)
    requires parts == if point.Some? then MetaParts(i)[ROLLBACK_POINT := point.value] else MetaParts(i)
    ensures parts.Keys <= StateNames()
    ensures "packages" in parts && parts["packages"] == Directory(i.packages)
    ensures "install-lock.json" in parts && parts["install-lock.json"] == FileTree(i.installLock)
    ensures "agent-skills.lock" in parts && parts["agent-skills.lock"] == FileTree(i.packageLock)
    ensures "activation-lock.json" in parts <==> i.activation.Some?
    ensures i.activation.Some? ==> parts["activation-lock.json"] == FileTree(i.activation.value)
    ensures "rollback-point" in parts <==> point.Some?
    ensures point.Some? ==> parts["rollback-point"] == point.value
  {
    hide Directory, FileTree;
    MetaPartsAre(i);
    assert PACKAGES == "packages" && INSTALL_LOCK == "install-lock.json" && PACKAGE_LOCK == "agent-skills.lock";
    assert ACTIVATION_LOCK == "activation-lock.json" && ROLLBACK_POINT == "rollback-point";
    assert |"rollback-point"| == 14 && |"install-lock.json"| == 17 && |"agent-skills.lock"| == 17;
    assert |"packages"| == 8 && |"activation-lock.json"| == 20;
  }

  lemma StateNamed(fs: Tree, root: Path, i: Installation, point: Option<Tree>, parts: map<string, Tree>)
    requires parts == if point.Some? then MetaParts(i)[ROLLBACK_POINT := point.value] else MetaParts(i)
    ensures Named(fs, root, parts, StateNames()) <==>
      && Sub(fs, root + ["packages"]) == Directory(i.packages)
      && OnlyFile(fs, root + ["install-lock.json"], i.installLock)
      && OnlyFile(fs, root + ["agent-skills.lock"], i.packageLock)
      && (if i.activation.Some? then OnlyFile(fs, root + ["activation-lock.json"], i.activation.value)
          else Nothing(fs, root + ["activation-lock.json"]))
      && (if point.Some? then Sub(fs, root + ["rollback-point"]) == point.value else Nothing(fs, root + ["rollback-point"]))
  {
    hide Sub, Directory, Nothing, OnlyFile, FileTree, Named;
    StatePartsAre(i, point, parts);
    hide MetaParts;
    FileByPath(fs, root + ["install-lock.json"], i.installLock);
    FileByPath(fs, root + ["agent-skills.lock"], i.packageLock);
    if i.activation.Some? { FileByPath(fs, root + ["activation-lock.json"], i.activation.value); }
    NothingByPath(fs, root + ["activation-lock.json"]);
    NothingByPath(fs, root + ["rollback-point"]);
    FiveNames(fs, root, parts, "packages", "install-lock.json", "agent-skills.lock", "activation-lock.json",
              "rollback-point");
  }

  lemma FiveNames(fs: Tree, root: Path, parts: map<string, Tree>, p: string, l: string, k: string, c: string, r: string)
    ensures Named(fs, root, parts, {p, l, k, c, r}) <==>
      && NamedOne(fs, root, parts, p) && NamedOne(fs, root, parts, l) && NamedOne(fs, root, parts, k)
      && NamedOne(fs, root, parts, c) && NamedOne(fs, root, parts, r)
  {
    hide NamedOne;
  }
}
