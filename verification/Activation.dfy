/** The trusted post-install handlers: source activation and deactivation.

    The activation lock's records and the bytes of the installed assets are parameters; a missing asset and a
    failing configuration script are `None`.  Digests are compared by the content they identify. */
module Activation {
  import opened Wrappers
  import opened FileSystem
  import opened Order
  import opened External
  import opened Installations
  import opened Transactions
  import opened RollbackPoints
  import opened Recovery

  datatype Record = Record(path: Path, content: Content, mode: nat)
  datatype Asset = Asset(destination: Path, content: Option<Content>, mode: nat)

  const CONFIG: Path := ["config.toml"]
  const LOCK: Path := [STATE, ACTIVATION_LOCK]

  function RecordPaths(records: seq<Record>): set<Path> { set r | r in records :: r.path }

  function Destinations(assets: seq<Asset>): set<Path> { set a | a in assets :: a.destination }

  /** `external_paths` / `deactivation_external_paths` as sets: what a handler may touch outside the roots. */
  function ActivationPaths(records: seq<Record>, assets: seq<Asset>, profiles: seq<Asset>): set<Path> {
    RecordPaths(records) + Destinations(assets) + Destinations(profiles) + {CONFIG}
  }

  function DeactivationPaths(records: seq<Record>): set<Path> { RecordPaths(records) + {CONFIG} }

  /** The handler's scope, as declared to the snapshot that protects it. */
  ghost predicate Declared(files: seq<Path>, paths: set<Path>) {
    && PrefixFree(files)
    && (forall p | p in paths :: p in files)
    && (forall f | f in files :: |f| > 0 && !IsRoot(f[0]))
  }

  predicate MatchesRecord(fs: Tree, p: Path, content: Content, mode: nat) {
    p in fs && fs[p] == File(content, mode)
  }

  lemma ChangeIsReflexive(fs: Tree, files: seq<Path>)
    ensures HandlerChange(fs, fs, files)
  {
  }

  lemma ChangesAddUp(a: Tree, b: Tree, c: Tree, files: seq<Path>)
    requires HandlerChange(a, b, files) && HandlerChange(b, c, files)
    ensures HandlerChange(a, c, files)
  {
    hide InScope, HandlerMayTouch, KindsAreSafe, IsRoot;
    forall p
      ensures SameAt(a, c, p) || InScope(files, p) || HandlerMayTouch(p)
    {
      assert SameAt(a, b, p) || InScope(files, p) || HandlerMayTouch(p);
      assert SameAt(b, c, p) || InScope(files, p) || HandlerMayTouch(p);
    }
  }

  lemma RemovalIsAChange(before: Tree, fs: Tree, files: seq<Path>, f: Path)
    requires PrefixFree(files) && f in files && !IsRoot(f[0]) && fs == before - {f}
    ensures HandlerChange(before, fs, files)
  {
    forall p
      ensures SameAt(before, fs, p) || InScope(files, p)
    {
      assert p != f ==> SameAt(before, fs, p);
    }
  }

  lemma ScopedStepIsAChange(before: Tree, fs: Tree, files: seq<Path>)
    requires RestoreStep(before, fs, files) && PrefixFree(files) && forall f | f in files :: |f| > 0 && !IsRoot(f[0])
    ensures HandlerChange(before, fs, files)
  {
    hide IsRoot;
    forall n | IsRoot(n) && [n] in before
      ensures [n] in fs
    {
      ScopeIsNoRoot(files, [n]);
      assert SameAt(before, fs, [n]);
    }
  }

  lemma ScopeIsNoRoot(files: seq<Path>, p: Path)
    requires forall f | f in files :: |f| > 0 && !IsRoot(f[0])
    ensures InScope(files, p) ==> |p| > 0 && !IsRoot(p[0])
  {
    hide IsRoot;
    if ScopeDirectory(files, p) {
      var f :| f in files && Ancestor(p, f);
      assert f[0] == p[0];
    }
  }

  /** Nothing stands in the way of writing declared files. */
  ghost predicate Writable(fs: Tree, files: seq<Path>) { IsDirAt(fs, []) && KindsAreSafe(fs, files) }

  /** The managed roots are as they were. */
  ghost predicate RootsUntouched(before: Tree, fs: Tree) {
    forall p: Path | p != [] && IsRoot(p[0]) :: SameAt(before, fs, p)
  }

  lemma RootsStayUntouched(a: Tree, b: Tree, c: Tree)
    requires RootsUntouched(a, b) && RootsUntouched(b, c)
    ensures RootsUntouched(a, c)
  {
    forall p: Path | p != [] && IsRoot(p[0])
      ensures SameAt(a, c, p)
    {
      assert SameAt(a, b, p) && SameAt(b, c, p);
    }
  }

  lemma NothingTouched(fs: Tree)
    ensures RootsUntouched(fs, fs)
  {
  }

  lemma WritableIsFile(fs: Tree, files: seq<Path>, f: Path)
    requires f in files && f in fs
    ensures Writable(fs, files) ==> IsFileAt(fs, f)
  {
  }

  lemma StaysWritable(before: Tree, fs: Tree, files: seq<Path>)
    requires HandlerChange(before, fs, files) && forall f | f in files :: |f| > 0
    ensures Writable(before, files) ==> Writable(fs, files)
  {
    hide KindsAreSafe, IsRoot;
    assert SameAt(before, fs, []);
  }

  lemma StepLeavesRoots(before: Tree, fs: Tree, files: seq<Path>, f: Path)
    requires FileStep(before, fs, files, f) && f in files && forall g | g in files :: |g| > 0 && !IsRoot(g[0])
    ensures RootsUntouched(before, fs)
  {
    hide IsRoot;
    forall p: Path | p != [] && IsRoot(p[0])
      ensures SameAt(before, fs, p)
    {
      ScopeIsNoRoot(files, p);
    }
  }

  /** `_atomic_write` of a declared file: missing directories are made, then the file replaces what was there. */
  method AtomicWrite(disk: Disk, f: Path, content: Content, mode: nat, ghost files: seq<Path>) returns (ok: bool)
    requires PrefixFree(files) && f in files && forall g | g in files :: !IsRoot(g[0])
    modifies disk
    ensures HandlerChange(old(disk.fs), disk.fs, files)
    ensures FileStep(old(disk.fs), disk.fs, files, f)
    ensures ok ==> MatchesRecord(disk.fs, f, content, mode)
    ensures disk.reliable && Writable(old(disk.fs), files) ==> ok
  {
    hide IsRoot;
    ghost var before := disk.fs;
    ok := true;
    var parent := f[..|f| - 1];
    if parent !in disk.fs {
      ParentOnTheWay(files, f);
      ok := MkdirParents(disk, parent);
      assert parent != [] ==> parent[..|parent|] == parent;
      if ok && parent != [] { ok := ChmodAll(disk, [parent], MANAGED_DIRECTORY_MODE, files); }
    }
    ghost var ready := disk.fs;
    if ok && !IsDirAt(disk.fs, f) {
      ok := disk.WriteFile(f, content, mode);
    } else {
      ok := false;
    }
    WriteStep(before, ready, disk.fs, files, f);
  }

  lemma WriteStep(before: Tree, ready: Tree, fs: Tree, files: seq<Path>, f: Path)
    requires PrefixFree(files) && f in files && forall g | g in files :: !IsRoot(g[0])
    requires forall q :: SameAt(before, ready, q) || (ScopeDirectory(files, q) && IsDirAt(ready, q))
    requires forall d | IsDirAt(before, d) :: IsDirAt(ready, d)
    requires fs == ready || (!IsDirAt(ready, f) && exists c, m :: fs == ready[f := File(c, m)])
    ensures FileStep(before, fs, files, f)
    ensures HandlerChange(before, fs, files)
  {
    hide IsRoot;
    var n :| 0 <= n < |files| && files[n] == f;
    if fs == ready {
      forall q ensures SameAt(before, fs, q) || (ScopeDirectory(files, q) && IsDirAt(fs, q)) {}
    } else {
      WriteIsFileStep(before, ready, fs, files, f);
    }
    assert RestoreStep(before, before, files);
    StepAtFile(before, before, fs, files, n);
    ScopedStepIsAChange(before, fs, files);
  }

  lemma OtherFilesKept(mid: Tree, fs: Tree, files: seq<Path>, f: Path)
    requires PrefixFree(files) && FileStep(mid, fs, files, f)
    ensures forall g | g in files && g != f :: SameAt(mid, fs, g)
  {
  }

  /** One declared file among others. */
  method WriteDeclared(disk: Disk, f: Path, content: Content, mode: nat, ghost files: seq<Path>, ghost before: Tree)
    returns (ok: bool)
    requires PrefixFree(files) && f in files && forall g | g in files :: |g| > 0 && !IsRoot(g[0])
    requires HandlerChange(before, disk.fs, files) && RootsUntouched(before, disk.fs)
    modifies disk
    ensures HandlerChange(before, disk.fs, files) && RootsUntouched(before, disk.fs)
    ensures forall g | g in files && g != f :: SameAt(old(disk.fs), disk.fs, g)
    ensures ok ==> MatchesRecord(disk.fs, f, content, mode)
    ensures disk.reliable && Writable(before, files) ==> ok
  {
    hide HandlerChange, IsRoot, FileStep, PrefixFree, RootsUntouched, Writable;
    ghost var mid := disk.fs;
    StaysWritable(before, mid, files);
    ok := AtomicWrite(disk, f, content, mode, files);
    StepLeavesRoots(mid, disk.fs, files, f);
    RootsStayUntouched(before, mid, disk.fs);
    ChangesAddUp(before, mid, disk.fs, files);
    OtherFilesKept(mid, disk.fs, files, f);
  }

  // ---------------------------------------------------------------- activation

  predicate Recorded(records: seq<Record>, p: Path) { exists r | r in records :: r.path == p }

  /** An asset may be written: its bytes are there, and its destination holds what the lock recorded, or,
      unrecorded, is free or holds the asset already. */
  predicate MayActivate(fs: Tree, records: seq<Record>, a: Asset) {
    && a.content.Some?
    && (forall r | r in records && r.path == a.destination :: MatchesRecord(fs, r.path, r.content, r.mode))
    && (!Recorded(records, a.destination) && a.destination in fs ==>
          MatchesRecord(fs, a.destination, a.content.value, a.mode))
  }

  /** What stands in the way of an asset: its bytes are missing, the file that the lock records is gone or was
      changed, or some file that nobody recorded is in its place. */
  ghost predicate Obstructed(fs: Tree, records: seq<Record>, a: Asset) {
    || a.content.None?
    || (exists r | r in records :: r.path == a.destination && !(r.path in fs && fs[r.path] == File(r.content, r.mode)))
    || ((forall r | r in records :: r.path != a.destination) &&
        a.destination in fs && fs[a.destination] != File(a.content.value, a.mode))
  }

  lemma ActivatableIsClear(fs: Tree, records: seq<Record>, a: Asset)
    ensures MayActivate(fs, records, a) <==> !Obstructed(fs, records, a)
  {
  }

  /** The first loop of `apply_source_activation`. */
  method CheckDestinations(disk: Disk, records: seq<Record>, assets: seq<Asset>) returns (ok: bool)
    ensures ok <==> forall a | a in assets :: !Obstructed(disk.fs, records, a)
    ensures ok <==> forall a | a in assets :: MayActivate(disk.fs, records, a)
  {
    forall a { ActivatableIsClear(disk.fs, records, a); }
    hide Obstructed;
    for n := 0 to |assets|
      invariant forall i | 0 <= i < n :: MayActivate(disk.fs, records, assets[i])
    {
      if !MayActivate(disk.fs, records, assets[n]) {
        assert assets[n] in assets;
        return false;
      }
    }
    return true;
  }

  /** The recorded paths that are no longer the destination of an asset. */
  function Retired(records: seq<Record>, assets: seq<Asset>): set<Path> { RecordPaths(records) - Destinations(assets) }

  ghost predicate PathsDiffer(records: seq<Record>) {
    forall i, j | 0 <= i < j < |records| :: records[i].path != records[j].path
  }

  /** The files to be retired hold what the lock recorded. */
  ghost predicate MayRetire(fs: Tree, records: seq<Record>, assets: seq<Asset>) {
    && PathsDiffer(records)
    && forall r | r in records && r.path in Retired(records, assets) :: MatchesRecord(fs, r.path, r.content, r.mode)
  }

  method RetireOne(disk: Disk, r: Record, ghost files: seq<Path>, ghost before: Tree) returns (ok: bool)
    requires PrefixFree(files) && r.path in files && (forall g | g in files :: |g| > 0 && !IsRoot(g[0]))
    requires HandlerChange(before, disk.fs, files)
    modifies disk
    ensures HandlerChange(before, disk.fs, files)
    ensures disk.fs == if ok then old(disk.fs) - {r.path} else old(disk.fs)
    ensures disk.reliable && MatchesRecord(old(disk.fs), r.path, r.content, r.mode) ==> ok
  {
    hide HandlerChange, IsRoot, PrefixFree;
    if !MatchesRecord(disk.fs, r.path, r.content, r.mode) { return false; }
    ghost var mid := disk.fs;
    ok := disk.Unlink(r.path);
    if !ok { return; }
    RemovalIsAChange(mid, disk.fs, files, r.path);
    ChangesAddUp(before, mid, disk.fs, files);
  }

  /** Files that are recorded but no longer among the assets are checked and removed. */
  method Retire(disk: Disk, records: seq<Record>, assets: seq<Asset>, ghost files: seq<Path>) returns (ok: bool)
    requires Declared(files, RecordPaths(records))
    modifies disk
    ensures HandlerChange(old(disk.fs), disk.fs, files)
    ensures ok ==> forall r | r in records && r.path !in Destinations(assets) :: r.path !in disk.fs
    ensures forall p | p !in Retired(records, assets) :: SameAt(old(disk.fs), disk.fs, p)
    ensures disk.reliable && MayRetire(old(disk.fs), records, assets) ==> ok
  {
    hide HandlerChange, IsRoot, PrefixFree;
    ghost var before := disk.fs;
    ChangeIsReflexive(before, files);
    for n := 0 to |records|
      invariant HandlerChange(before, disk.fs, files)
      invariant forall i | 0 <= i < n && records[i].path !in Destinations(assets) :: records[i].path !in disk.fs
      invariant forall p | p !in Retired(records, assets) :: SameAt(before, disk.fs, p)
      invariant MayRetire(before, records, assets) ==> forall i | n <= i < |records| :: SameAt(before, disk.fs, records[i].path)
    {
      var r := records[n];
      assert SameAt(before, disk.fs, r.path) || !MayRetire(before, records, assets);
      assert r in records && r.path in RecordPaths(records);
      if r.path !in Destinations(assets) {
        ok := RetireOne(disk, r, files, before);
        if !ok { return; }
      }
    }
    ok := true;
  }

  /** Every asset is written unless it is already there. */
  method WriteAssets(disk: Disk, assets: seq<Asset>, ghost files: seq<Path>) returns (ok: bool)
    requires Declared(files, Destinations(assets)) && forall a | a in assets :: a.content.Some?
    requires forall i, j | 0 <= i < j < |assets| :: assets[i].destination != assets[j].destination
    modifies disk
    ensures HandlerChange(old(disk.fs), disk.fs, files)
    ensures forall g | g in files && g !in Destinations(assets) :: SameAt(old(disk.fs), disk.fs, g)
    ensures ok ==> forall a | a in assets :: MatchesRecord(disk.fs, a.destination, a.content.value, a.mode)
    ensures RootsUntouched(old(disk.fs), disk.fs)
    ensures disk.reliable && Writable(old(disk.fs), files) ==> ok
  {
    DeclaredFiles(files, Destinations(assets));
    hide HandlerChange, IsRoot, FileStep, PrefixFree, RootsUntouched, Writable;
    ghost var before := disk.fs;
    ChangeIsReflexive(before, files);
    NothingTouched(before);
    for n := 0 to |assets|
      invariant HandlerChange(before, disk.fs, files)
      invariant RootsUntouched(before, disk.fs)
      invariant forall g | g in files && g !in Destinations(assets) :: SameAt(before, disk.fs, g)
      invariant forall i | 0 <= i < n ::
        MatchesRecord(disk.fs, assets[i].destination, assets[i].content.value, assets[i].mode)
    {
      var a := assets[n];
      assert a in assets && a.destination in Destinations(assets) && a.destination in files;
      if !MatchesRecord(disk.fs, a.destination, a.content.value, a.mode) {
        ghost var mid := disk.fs;
        ok := WriteDeclared(disk, a.destination, a.content.value, a.mode, files, before);
        forall g | g in files && g !in Destinations(assets)
          ensures SameAt(before, disk.fs, g)
        {
          assert SameAt(before, mid, g) && SameAt(mid, disk.fs, g);
        }
        if !ok { return; }
        forall i | 0 <= i < n
          ensures MatchesRecord(disk.fs, assets[i].destination, assets[i].content.value, assets[i].mode)
        {
          assert assets[i] in assets && assets[i].destination in Destinations(assets);
          assert SameAt(mid, disk.fs, assets[i].destination);
        }
      }
    }
    ok := true;
  }

  /** No earlier profile has the destination of this one. */
  predicate FirstListed(profiles: seq<Asset>, i: nat)
    requires i < |profiles|
  {
    forall j | 0 <= j < i :: profiles[j].destination != profiles[i].destination
  }

  /** A profile that was missing holds its content, with its mode. */
  ghost predicate ProfilesMade(before: Tree, fs: Tree, profiles: seq<Asset>, count: nat)
    requires count <= |profiles|
  {
    forall i | 0 <= i < count && profiles[i].destination !in before && FirstListed(profiles, i) ::
      profiles[i].content.Some? && MatchesRecord(fs, profiles[i].destination, profiles[i].content.value, profiles[i].mode)
  }

  lemma OneMoreProfile(before: Tree, mid: Tree, fs: Tree, profiles: seq<Asset>, n: nat, files: seq<Path>)
    requires n < |profiles| && ProfilesMade(before, mid, profiles, n)
    requires forall a | a in profiles :: a.destination in files
    requires profiles[n].destination !in mid
    requires forall g | g in files && g != profiles[n].destination :: SameAt(mid, fs, g)
    requires profiles[n].content.Some?
    requires MatchesRecord(fs, profiles[n].destination, profiles[n].content.value, profiles[n].mode)
    ensures ProfilesMade(before, fs, profiles, n + 1)
  {
    forall i | 0 <= i < n && profiles[i].destination !in before && FirstListed(profiles, i)
      ensures profiles[i].content.Some? && MatchesRecord(fs, profiles[i].destination, profiles[i].content.value, profiles[i].mode)
    {
      assert profiles[i] in profiles && SameAt(mid, fs, profiles[i].destination);
    }
  }

  lemma ProfileIsThere(before: Tree, fs: Tree, profiles: seq<Asset>, n: nat, files: seq<Path>)
    requires n < |profiles| && ProfilesMade(before, fs, profiles, n) && profiles[n].destination in fs
    requires profiles[n].destination in files
    requires forall g | g in files && g !in before && g in fs :: Earlier(profiles, n, g)
    ensures ProfilesMade(before, fs, profiles, n + 1)
  {
  }

  lemma NoneMade(before: Tree, profiles: seq<Asset>, files: seq<Path>)
    ensures ProfileState(before, before, profiles, 0, files)
  {
  }

  predicate Earlier(profiles: seq<Asset>, n: nat, g: Path)
    requires n <= |profiles|
  {
    exists j | 0 <= j < n :: profiles[j].destination == g
  }

  /** Profiles are created where they are missing and never overwritten. */
  method CreateProfiles(disk: Disk, profiles: seq<Asset>, ghost files: seq<Path>) returns (ok: bool)
    requires Declared(files, Destinations(profiles))
    modifies disk
    ensures HandlerChange(old(disk.fs), disk.fs, files)
    ensures ProfilesUntouched(old(disk.fs), disk.fs, profiles, files)
    ensures ok ==> forall a | a in profiles :: IsFileAt(disk.fs, a.destination)
    ensures ok ==> ProfilesMade(old(disk.fs), disk.fs, profiles, |profiles|)
    ensures RootsUntouched(old(disk.fs), disk.fs)
    ensures disk.reliable && Writable(old(disk.fs), files) && (forall a | a in profiles :: a.content.Some?) ==> ok
  {
    DeclaredFiles(files, Destinations(profiles));
    AllDeclared(profiles, files);
    hide HandlerChange, IsRoot, FileStep, PrefixFree, RootsUntouched, Writable, ProfileState, ProfilesUntouched, ProfilesMade;
    ghost var before := disk.fs;
    ChangeIsReflexive(before, files);
    NothingTouched(before);
    NoneMade(before, profiles, files);
    for n := 0 to |profiles|
      invariant HandlerChange(before, disk.fs, files)
      invariant RootsUntouched(before, disk.fs)
      invariant ProfileState(before, disk.fs, profiles, n, files)
    {
      var a := profiles[n];
      assert a in profiles && a.destination in files;
      if a.destination !in disk.fs {
        if a.content.None? { return false; }
        ghost var mid := disk.fs;
        ok := WriteDeclared(disk, a.destination, a.content.value, a.mode, files, before);
        ProfileWritten(before, mid, disk.fs, profiles, n, files, ok);
        if !ok { return; }
      } else if !IsFileAt(disk.fs, a.destination) {
        StaysWritable(before, disk.fs, files);
        WritableIsFile(disk.fs, files, a.destination);
        ProfileStateMeans(before, disk.fs, profiles, n, files);
        return false;
      } else {
        ProfileKept(before, disk.fs, profiles, n, files);
      }
    }
    ProfileStateMeans(before, disk.fs, profiles, |profiles|, files);
    ok := true;
  }

  /** The first `n` profiles are there, those that were missing as listed first, and nothing else was changed. */
  ghost predicate ProfileState(before: Tree, fs: Tree, profiles: seq<Asset>, n: int, files: seq<Path>) {
    && 0 <= n <= |profiles| && ProfilesUntouched(before, fs, profiles, files)
    && (forall i | 0 <= i < n :: IsFileAt(fs, profiles[i].destination))
    && ProfilesMade(before, fs, profiles, n)
    && (forall g | g in files && g !in before && g in fs :: Earlier(profiles, n, g))
  }

  ghost predicate ProfilesUntouched(before: Tree, fs: Tree, profiles: seq<Asset>, files: seq<Path>) {
    forall g | g in files && (g in before || g !in Destinations(profiles)) :: SameAt(before, fs, g)
  }

  lemma ProfileStateMeans(before: Tree, fs: Tree, profiles: seq<Asset>, n: int, files: seq<Path>)
    requires ProfileState(before, fs, profiles, n, files)
    ensures ProfilesUntouched(before, fs, profiles, files)
    ensures n == |profiles| ==> ProfilesMade(before, fs, profiles, n) && forall a | a in profiles :: IsFileAt(fs, a.destination)
  {
  }

  lemma ProfileWritten(before: Tree, mid: Tree, fs: Tree, profiles: seq<Asset>, n: nat, files: seq<Path>, ok: bool)
    requires n < |profiles| && ProfileState(before, mid, profiles, n, files) && profiles[n].destination !in mid
    requires forall a | a in profiles :: a.destination in files
    requires forall g | g in files && g != profiles[n].destination :: SameAt(mid, fs, g)
    requires profiles[n].content.Some?
    requires ok ==> MatchesRecord(fs, profiles[n].destination, profiles[n].content.value, profiles[n].mode)
    ensures ProfilesUntouched(before, fs, profiles, files)
    ensures ok ==> ProfileState(before, fs, profiles, n + 1, files)
  {
    hide ProfilesMade, Earlier;
    OthersStay(before, mid, fs, profiles, n, files);
    if ok {
      EarlierAreThere(mid, fs, profiles, n, files);
      OneMoreProfile(before, mid, fs, profiles, n, files);
      MadeEarlier(before, mid, fs, profiles, n, files);
    }
  }

  lemma ProfileKept(before: Tree, fs: Tree, profiles: seq<Asset>, n: nat, files: seq<Path>)
    requires n < |profiles| && ProfileState(before, fs, profiles, n, files) && IsFileAt(fs, profiles[n].destination)
    requires profiles[n].destination in files
    ensures ProfileState(before, fs, profiles, n + 1, files)
  {
    hide ProfilesMade, Earlier;
    ProfileIsThere(before, fs, profiles, n, files);
    MadeEarlier(before, fs, fs, profiles, n, files);
  }

  /** Writing a profile that was missing leaves alone what was there and what is no profile. */
  lemma OthersStay(before: Tree, mid: Tree, fs: Tree, profiles: seq<Asset>, n: nat, files: seq<Path>)
    requires n < |profiles| && profiles[n].destination !in mid
    requires forall g | g in files && (g in before || g !in Destinations(profiles)) :: SameAt(before, mid, g)
    requires forall g | g in files && g != profiles[n].destination :: SameAt(mid, fs, g)
    ensures forall g | g in files && (g in before || g !in Destinations(profiles)) :: SameAt(before, fs, g)
  {
    assert profiles[n] in profiles;
    forall g | g in files && (g in before || g !in Destinations(profiles))
      ensures SameAt(before, fs, g)
    {
      assert SameAt(before, mid, g) && SameAt(mid, fs, g);
    }
  }

  lemma EarlierAreThere(mid: Tree, fs: Tree, profiles: seq<Asset>, n: nat, files: seq<Path>)
    requires n < |profiles| && forall a | a in profiles :: a.destination in files
    requires forall i | 0 <= i < n :: IsFileAt(mid, profiles[i].destination)
    requires forall g | g in files && g != profiles[n].destination :: SameAt(mid, fs, g)
    requires IsFileAt(fs, profiles[n].destination)
    ensures forall i | 0 <= i <= n :: IsFileAt(fs, profiles[i].destination)
  {
    forall i | 0 <= i <= n
      ensures IsFileAt(fs, profiles[i].destination)
    {
      assert profiles[i] in profiles;
      assert profiles[i].destination != profiles[n].destination ==> SameAt(mid, fs, profiles[i].destination);
    }
  }

  lemma AllDeclared(profiles: seq<Asset>, files: seq<Path>)
    requires forall p | p in Destinations(profiles) :: p in files
    ensures forall a | a in profiles :: a.destination in files
  {
    forall a | a in profiles
      ensures a.destination in files
    {
      assert a.destination in Destinations(profiles);
    }
  }

  lemma MadeEarlier(before: Tree, mid: Tree, fs: Tree, profiles: seq<Asset>, n: nat, files: seq<Path>)
    requires n < |profiles| && forall g | g in files && g !in before && g in mid :: Earlier(profiles, n, g)
    requires forall g | g in files && g != profiles[n].destination :: SameAt(mid, fs, g)
    ensures forall g | g in files && g !in before && g in fs :: Earlier(profiles, n + 1, g)
  {
    forall g | g in files && g !in before && g in fs
      ensures Earlier(profiles, n + 1, g)
    {
      if g == profiles[n].destination { assert profiles[n].destination == g; }
    }
  }

  /** The activation lock the handler started from. */
  predicate HasLock(fs: Tree) { IsDirAt(fs, [STATE]) && IsFileAt(fs, LOCK) }

  /** The activation lock lives in a managed root, next to the rollback point. */
  method WriteLock(disk: Disk, content: Content, ghost files: seq<Path>) returns (ok: bool)
    requires forall f | f in files :: |f| > 0 && !IsRoot(f[0])
    modifies disk
    ensures HandlerChange(old(disk.fs), disk.fs, files)
    ensures forall g | g in files :: SameAt(old(disk.fs), disk.fs, g)
    ensures ok ==> MatchesRecord(disk.fs, LOCK, content, MANAGED_FILE_MODE)
    ensures disk.reliable && HasLock(old(disk.fs)) ==> ok
  {
    ghost var before := disk.fs;
    assert LOCK[..1] == [STATE];
    ok := true;
    if [STATE] !in disk.fs {
      ok := disk.Mkdir([STATE], MANAGED_DIRECTORY_MODE);
    }
    ghost var ready := disk.fs;
    if ok { ok := disk.WriteFile(LOCK, content, MANAGED_FILE_MODE); }
    LockStep(before, ready, disk.fs, files);
  }

  lemma LockIsNoPoint()
    ensures IsRoot(STATE) && !Under(POINT, LOCK) && !Under(POINT, [STATE])
  {
    assert |LOCK[1]| == 20 && |POINT[1]| == 14;
    assert LOCK[1] != POINT[1];
  }

  lemma LockStep(before: Tree, ready: Tree, fs: Tree, files: seq<Path>)
    requires forall f | f in files :: |f| > 0 && !IsRoot(f[0])
    requires forall p :: SameAt(before, ready, p) || (p == [STATE] && p in ready)
    requires forall p :: SameAt(ready, fs, p) || (p == LOCK && p in fs)
    ensures HandlerChange(before, fs, files)
    ensures forall g | g in files :: SameAt(before, fs, g)
  {
    LockIsNoPoint();
    hide IsRoot;
    forall p
      ensures SameAt(before, fs, p) || HandlerMayTouch(p)
    {
      assert SameAt(before, ready, p) || p == [STATE];
      assert SameAt(ready, fs, p) || p == LOCK;
    }
    forall p | InScope(files, p)
      ensures SameAt(before, fs, p)
    {
      ScopeIsNoRoot(files, p);
      assert p[0] != STATE;
    }
    KindsStay(before, fs, files);
    forall n | [n] in before
      ensures [n] in fs
    {
      assert SameAt(before, ready, [n]) || [n] in ready;
      assert SameAt(ready, fs, [n]) || [n] in fs;
    }
  }

  lemma KindsStay(before: Tree, fs: Tree, files: seq<Path>)
    requires forall p | InScope(files, p) :: SameAt(before, fs, p)
    ensures KindsAreSafe(before, files) ==> KindsAreSafe(fs, files)
    ensures forall g | g in files :: SameAt(before, fs, g)
  {
    forall d | ScopeDirectory(files, d) ensures SameAt(before, fs, d) { assert InScope(files, d); }
    forall f | f in files ensures SameAt(before, fs, f) { assert InScope(files, f); }
  }

  /** What the handler brings about when it returns. */
  ghost predicate Activated(fs: Tree, records: seq<Record>, assets: seq<Asset>, profiles: seq<Asset>,
                            config: Content, lock: Content) {
    && (forall a | a in assets :: a.content.Some? && MatchesRecord(fs, a.destination, a.content.value, a.mode))
    && (forall a | a in profiles :: IsFileAt(fs, a.destination))
    && IsFileAt(fs, CONFIG) && fs[CONFIG].content == config
    && MatchesRecord(fs, LOCK, lock, MANAGED_FILE_MODE)
    && (forall r | r in records &&
          r.path !in Destinations(assets) + Destinations(profiles) + {CONFIG} :: r.path !in fs)
  }

  /** A profile that is there and not retired stays as it is; any other one is made anew, by its first listing. */
  ghost predicate ProfilesSettled(pre: Tree, fs: Tree, records: seq<Record>, profiles: seq<Asset>) {
    forall i | 0 <= i < |profiles| :: ProfileSettled(pre, fs, records, profiles, i)
  }

  ghost predicate ProfileSettled(pre: Tree, fs: Tree, records: seq<Record>, profiles: seq<Asset>, i: nat)
    requires i < |profiles|
  {
    var a := profiles[i];
    if a.destination in pre && a.destination !in RecordPaths(records) then SameAt(pre, fs, a.destination)
    else FirstListed(profiles, i) ==> a.content.Some? && MatchesRecord(fs, a.destination, a.content.value, a.mode)
  }

  /** The mode the configuration is written with: its own, unless it was retired or was not there. */
  function ConfigMode(pre: Tree, records: seq<Record>): nat {
    if IsFileAt(pre, CONFIG) && CONFIG !in RecordPaths(records) then pre[CONFIG].mode else MANAGED_FILE_MODE
  }

  /** A declared file the handler leaves alone: neither recorded nor written, and no profile that is missing. */
  predicate Unconcerned(fs: Tree, records: seq<Record>, assets: seq<Asset>, profiles: seq<Asset>, g: Path) {
    g !in RecordPaths(records) + Destinations(assets) + {CONFIG} && (g in Destinations(profiles) ==> g in fs)
  }

  /** Nothing but a fault can stop the handler. */
  ghost predicate MayProceed(fs: Tree, records: seq<Record>, assets: seq<Asset>, profiles: seq<Asset>,
                             config: Option<Content>, files: seq<Path>) {
    && Writable(fs, files) && HasLock(fs) && config.Some?
    && (forall a | a in assets :: !Obstructed(fs, records, a))
    && (forall a | a in profiles :: a.content.Some?)
    && MayRetire(fs, records, assets)
  }

  lemma Unchanged(pre: Tree, before: Tree, fs: Tree, records: seq<Record>, assets: seq<Asset>, profiles: seq<Asset>,
                  files: seq<Path>)
    requires forall g | g in files && Unconcerned(pre, records, assets, profiles, g) :: SameAt(pre, before, g)
    requires forall g | g in files && g !in RecordPaths(records) + Destinations(assets) + {CONFIG} :: SameAt(before, fs, g)
    ensures forall g | g in files && Unconcerned(pre, records, assets, profiles, g) :: SameAt(pre, fs, g)
  {
  }

  lemma UnchangedProfiles(pre: Tree, before: Tree, fs: Tree, records: seq<Record>, assets: seq<Asset>,
                          profiles: seq<Asset>, files: seq<Path>)
    requires forall g | g in files && Unconcerned(pre, records, assets, profiles, g) :: SameAt(pre, before, g)
    requires forall g | g in files && (g in before || g !in Destinations(profiles)) :: SameAt(before, fs, g)
    ensures forall g | g in files && Unconcerned(pre, records, assets, profiles, g) :: SameAt(pre, fs, g)
  {
  }

  lemma LockUntouched(before: Tree, fs: Tree)
    requires RootsUntouched(before, fs)
    ensures HasLock(before) ==> HasLock(fs)
  {
    RootOfLock();
    assert SameAt(before, fs, [STATE]) && SameAt(before, fs, LOCK);
  }

  lemma RootOfLock()
    ensures IsRoot(STATE) && LOCK[0] == STATE
  {
  }

  /** `apply_source_activation`.  However it ends it has changed nothing but its declared paths, their
      directories and its lock; and it refuses, before any change, to overwrite a file it does not own. */
  method ApplySourceActivation(disk: Disk, records: seq<Record>, assets: seq<Asset>, profiles: seq<Asset>,
                               config: Option<Content>, lock: Content, ghost files: seq<Path>) returns (ok: bool)
    requires Declared(files, ActivationPaths(records, assets, profiles))
    requires forall i, j | 0 <= i < j < |assets| :: assets[i].destination != assets[j].destination
    requires Destinations(assets) !! Destinations(profiles) + {CONFIG} && CONFIG !in Destinations(profiles)
    modifies disk
    ensures HandlerChange(old(disk.fs), disk.fs, files)
    ensures ok ==> config.Some? && Activated(disk.fs, records, assets, profiles, config.value, lock)
    ensures ok ==> ProfilesSettled(old(disk.fs), disk.fs, records, profiles)
    ensures ok ==> disk.fs[CONFIG].mode == ConfigMode(old(disk.fs), records)
    ensures (exists a | a in assets :: Obstructed(old(disk.fs), records, a)) ==> !ok && disk.fs == old(disk.fs)
    ensures forall g | g in files && Unconcerned(old(disk.fs), records, assets, profiles, g) :: SameAt(old(disk.fs), disk.fs, g)
    ensures disk.reliable && MayProceed(old(disk.fs), records, assets, profiles, config, files) ==> ok
  {
    DeclaredFiles(files, ActivationPaths(records, assets, profiles));
    hide HandlerChange, IsRoot, PrefixFree, FileStep, MayActivate, Obstructed, RootsUntouched, Writable, HasLock, MayRetire;
    ghost var pre := disk.fs;
    ChangeIsReflexive(pre, files);
    ok := CheckDestinations(disk, records, assets);
    if !ok { return; }
    assert forall a | a in assets :: MayActivate(pre, records, a);
    ActivatableHasContent(pre, records, assets);
    ok := Retire(disk, records, assets, files);
    ghost var first := disk.fs;
    RecordedIsNoRoot(pre, first, records, files);
    StaysWritable(pre, first, files);
    Unchanged(pre, pre, first, records, assets, profiles, files);
    if !ok { return; }
    ok := WriteAssets(disk, assets, files);
    ghost var second := disk.fs;
    ChangesAddUp(pre, first, second, files);
    StaysWritable(pre, second, files);
    RootsStayUntouched(pre, first, second);
    Unchanged(pre, first, second, records, assets, profiles, files);
    if !ok { return; }
    ok := CreateProfiles(disk, profiles, files);
    ghost var third := disk.fs;
    ChangesAddUp(pre, second, third, files);
    StaysWritable(pre, third, files);
    RootsStayUntouched(pre, second, third);
    UnchangedProfiles(pre, second, third, records, assets, profiles, files);
    if !ok { return; }
    if config.None? { return false; }
    var mode := if IsFileAt(disk.fs, CONFIG) then disk.fs[CONFIG].mode else MANAGED_FILE_MODE;
    assert CONFIG in files;
    if !IsFileAt(disk.fs, CONFIG) || disk.fs[CONFIG].content != config.value {
      ok := AtomicWrite(disk, CONFIG, config.value, mode, files);
      OtherFilesKept(third, disk.fs, files, CONFIG);
      StepLeavesRoots(third, disk.fs, files, CONFIG);
    } else {
      ChangeIsReflexive(third, files);
      NothingTouched(third);
    }
    ghost var fourth := disk.fs;
    ChangesAddUp(pre, third, fourth, files);
    RootsStayUntouched(pre, third, fourth);
    Unchanged(pre, third, fourth, records, assets, profiles, files);
    LockUntouched(pre, fourth);
    if !ok { return; }
    ok := WriteLock(disk, lock, files);
    ChangesAddUp(pre, fourth, disk.fs, files);
    Unchanged(pre, fourth, disk.fs, records, assets, profiles, files);
    if ok {
      ActivationHolds(first, second, third, fourth, disk.fs, records, assets, profiles, config.value, lock, files);
      ProfilesHold(pre, first, second, third, fourth, disk.fs, records, assets, profiles, files);
      ConfigModeHolds(pre, first, second, third, records, assets, profiles, files);
      assert SameAt(fourth, disk.fs, CONFIG);
    }
  }

  lemma ConfigModeHolds(pre: Tree, first: Tree, second: Tree, third: Tree, records: seq<Record>, assets: seq<Asset>,
                        profiles: seq<Asset>, files: seq<Path>)
    requires CONFIG in files && CONFIG !in Destinations(assets) && CONFIG !in Destinations(profiles)
    requires forall r | r in records && r.path !in Destinations(assets) :: r.path !in first
    requires forall p | p !in Retired(records, assets) :: SameAt(pre, first, p)
    requires forall g | g in files && g !in Destinations(assets) :: SameAt(first, second, g)
    requires forall g | g in files && (g in second || g !in Destinations(profiles)) :: SameAt(second, third, g)
    ensures ConfigMode(pre, records) == if IsFileAt(third, CONFIG) then third[CONFIG].mode else MANAGED_FILE_MODE
  {
    assert SameAt(first, second, CONFIG) && SameAt(second, third, CONFIG);
    if CONFIG in RecordPaths(records) {
      assert CONFIG !in first;
    } else {
      assert SameAt(pre, first, CONFIG);
    }
  }

  lemma ProfilesHold(pre: Tree, first: Tree, second: Tree, third: Tree, fourth: Tree, fs: Tree, records: seq<Record>,
                     assets: seq<Asset>, profiles: seq<Asset>, files: seq<Path>)
    requires forall p | p in ActivationPaths(records, assets, profiles) :: p in files
    requires Destinations(assets) !! Destinations(profiles) + {CONFIG} && CONFIG !in Destinations(profiles)
    requires forall r | r in records && r.path !in Destinations(assets) :: r.path !in first
    requires forall p | p !in Retired(records, assets) :: SameAt(pre, first, p)
    requires forall g | g in files && g !in Destinations(assets) :: SameAt(first, second, g)
    requires forall g | g in files && (g in second || g !in Destinations(profiles)) :: SameAt(second, third, g)
    requires ProfilesMade(second, third, profiles, |profiles|)
    requires forall g | g in files && g != CONFIG :: SameAt(third, fourth, g)
    requires forall g | g in files :: SameAt(fourth, fs, g)
    ensures ProfilesSettled(pre, fs, records, profiles)
  {
    forall i | 0 <= i < |profiles|
      ensures ProfileSettled(pre, fs, records, profiles, i)
    {
      var p := profiles[i].destination;
      assert profiles[i] in profiles && p in Destinations(profiles) && p in files;
      assert SameAt(first, second, p) && SameAt(third, fourth, p) && SameAt(fourth, fs, p);
      if p in pre && p !in RecordPaths(records) {
        assert SameAt(pre, first, p) && SameAt(second, third, p);
      } else if p !in RecordPaths(records) {
        assert SameAt(pre, first, p);
      }
    }
  }

  lemma ActivatableHasContent(fs: Tree, records: seq<Record>, assets: seq<Asset>)
    requires forall a | a in assets :: MayActivate(fs, records, a)
    ensures forall a | a in assets :: a.content.Some?
  {
  }

  lemma ActivationHolds(first: Tree, second: Tree, third: Tree, fourth: Tree, fs: Tree, records: seq<Record>,
                        assets: seq<Asset>, profiles: seq<Asset>, config: Content, lock: Content, files: seq<Path>)
    requires forall p | p in ActivationPaths(records, assets, profiles) :: p in files
    requires Destinations(assets) !! Destinations(profiles) + {CONFIG} && CONFIG !in Destinations(profiles)
    requires forall r | r in records && r.path !in Destinations(assets) :: r.path !in first
    requires forall g | g in files && g !in Destinations(assets) :: SameAt(first, second, g)
    requires forall a | a in assets :: a.content.Some? && MatchesRecord(second, a.destination, a.content.value, a.mode)
    requires forall g | g in files && (g in second || g !in Destinations(profiles)) :: SameAt(second, third, g)
    requires forall a | a in profiles :: IsFileAt(third, a.destination)
    requires forall g | g in files && g != CONFIG :: SameAt(third, fourth, g)
    requires IsFileAt(fourth, CONFIG) && fourth[CONFIG].content == config
    requires forall g | g in files :: SameAt(fourth, fs, g)
    requires MatchesRecord(fs, LOCK, lock, MANAGED_FILE_MODE)
    ensures Activated(fs, records, assets, profiles, config, lock)
  {
    forall a | a in assets
      ensures MatchesRecord(fs, a.destination, a.content.value, a.mode)
    {
      assert a.destination in Destinations(assets) && a.destination in files;
      assert SameAt(second, third, a.destination) && SameAt(third, fourth, a.destination);
    }
    forall a | a in profiles
      ensures IsFileAt(fs, a.destination)
    {
      assert a.destination in Destinations(profiles) && a.destination in files;
      assert SameAt(third, fourth, a.destination);
    }
    forall r | r in records && r.path !in Destinations(assets) + Destinations(profiles) + {CONFIG}
      ensures r.path !in fs
    {
      assert r.path in RecordPaths(records) && r.path in files;
      assert SameAt(first, second, r.path) && SameAt(second, third, r.path) && SameAt(third, fourth, r.path);
    }
    assert CONFIG in files;
  }

  // ---------------------------------------------------------------- deactivation

  method CheckRecords(disk: Disk, records: seq<Record>) returns (ok: bool)
    ensures ok <==> forall r | r in records :: MatchesRecord(disk.fs, r.path, r.content, r.mode)
  {
    for n := 0 to |records|
      invariant forall i | 0 <= i < n :: MatchesRecord(disk.fs, records[i].path, records[i].content, records[i].mode)
    {
      var r := records[n];
      if !MatchesRecord(disk.fs, r.path, r.content, r.mode) {
        assert r in records;
        return false;
      }
    }
    return true;
  }

  method RemoveRecorded(disk: Disk, records: seq<Record>, ghost files: seq<Path>) returns (ok: bool)
    requires Declared(files, RecordPaths(records))
    modifies disk
    ensures HandlerChange(old(disk.fs), disk.fs, files)
    ensures ok ==> forall r | r in records :: r.path !in disk.fs
    ensures forall p | p !in RecordPaths(records) :: SameAt(old(disk.fs), disk.fs, p)
    ensures disk.reliable && PathsDiffer(records) && (forall r | r in records :: IsFileAt(old(disk.fs), r.path)) ==> ok
  {
    hide HandlerChange, IsRoot, PrefixFree;
    ghost var pre := disk.fs;
    ChangeIsReflexive(pre, files);
    for n := 0 to |records|
      invariant HandlerChange(pre, disk.fs, files)
      invariant forall i | 0 <= i < n :: records[i].path !in disk.fs
      invariant forall p | p !in RecordPaths(records) :: SameAt(pre, disk.fs, p)
      invariant PathsDiffer(records) ==> forall i | n <= i < |records| :: SameAt(pre, disk.fs, records[i].path)
    {
      assert records[n] in records && records[n].path in RecordPaths(records) && records[n].path in files;
      ghost var mid := disk.fs;
      ok := disk.Unlink(records[n].path);
      if !ok { return; }
      RemovalIsAChange(mid, disk.fs, files, records[n].path);
      ChangesAddUp(pre, mid, disk.fs, files);
    }
    ok := true;
  }

  /** The rewriting of the configuration: what it should become, or none when it cannot be rewritten. */
  type Rewriting = Content -> Option<Content>

  /** `_deactivated_config` succeeds: there is no configuration, or it is a file that can be rewritten. */
  predicate ConfigUsable(fs: Tree, rewriting: Rewriting) {
    CONFIG in fs ==> fs[CONFIG].File? && rewriting(fs[CONFIG].content).Some?
  }

  /** `apply_source_deactivation`: all recorded files and the configuration are checked before the first file goes.
      The configuration is read again afterwards, so a lock that records it can never be deactivated. */
  method ApplySourceDeactivation(disk: Disk, records: seq<Record>, rewriting: Rewriting, ghost files: seq<Path>)
    returns (ok: bool)
    requires Declared(files, DeactivationPaths(records))
    modifies disk
    ensures HandlerChange(old(disk.fs), disk.fs, files)
    ensures ok ==> LOCK !in disk.fs && forall r | r in records :: r.path !in disk.fs
    ensures ok && CONFIG in old(disk.fs) ==>
      IsFileAt(old(disk.fs), CONFIG) && IsFileAt(disk.fs, CONFIG) &&
      rewriting(old(disk.fs)[CONFIG].content) == Some(disk.fs[CONFIG].content)
    ensures ok && CONFIG in old(disk.fs) ==> disk.fs[CONFIG].mode == RewrittenMode(old(disk.fs)[CONFIG], disk.fs[CONFIG].content)
    ensures ok && CONFIG !in old(disk.fs) ==> CONFIG !in disk.fs
    ensures ((exists r | r in records :: !MatchesRecord(old(disk.fs), r.path, r.content, r.mode)) ||
             !ConfigUsable(old(disk.fs), rewriting)) ==> !ok && disk.fs == old(disk.fs)
    ensures forall g | g in files && g !in DeactivationPaths(records) :: SameAt(old(disk.fs), disk.fs, g)
    ensures CONFIG in RecordPaths(records) ==> !ok
    ensures (disk.reliable && Writable(old(disk.fs), files) && HasLock(old(disk.fs)) && PathsDiffer(records) &&
             CONFIG !in RecordPaths(records) && ConfigUsable(old(disk.fs), rewriting) &&
             (forall r | r in records :: MatchesRecord(old(disk.fs), r.path, r.content, r.mode))) ==> ok
  {
    DeclaredFiles(files, DeactivationPaths(records));
    hide HandlerChange, IsRoot, PrefixFree, FileStep, Writable, HasLock, RootsUntouched;
    ghost var pre := disk.fs;
    ChangeIsReflexive(pre, files);
    ok := CheckRecords(disk, records);
    if !ok { return; }
    if !ConfigUsable(disk.fs, rewriting) { return false; }
    RecordedConfigIsThere(pre, records);
    AllAreFiles(pre, records);
    var candidate, mode := None, MANAGED_FILE_MODE;
    if CONFIG in disk.fs {
      candidate := rewriting(disk.fs[CONFIG].content);
      if disk.fs[CONFIG].mode != 0 { mode := disk.fs[CONFIG].mode; }
    }
    ok := RemoveAndRewrite(disk, records, candidate, mode, files);
    if !ok { return; }
    LockUntouched(pre, disk.fs);
    LockIsFile(disk.fs);
    ghost var last := disk.fs;
    ok := disk.Unlink(LOCK);
    LockRemoval(last, disk.fs, files);
    ChangesAddUp(pre, last, disk.fs, files);
  }

  /** A configuration keeps its mode; only one without any is rewritten with the managed mode. */
  function RewrittenMode(was: Node, content: Content): nat
    requires was.File?
  {
    if was.content == content || was.mode != 0 then was.mode else MANAGED_FILE_MODE
  }

  /** The recorded files go, and the configuration, read again, is rewritten. */
  method RemoveAndRewrite(disk: Disk, records: seq<Record>, candidate: Option<Content>, mode: nat, ghost files: seq<Path>)
    returns (ok: bool)
    requires Declared(files, DeactivationPaths(records)) && (candidate.Some? <==> IsFileAt(disk.fs, CONFIG))
    requires candidate.None? ==> CONFIG !in disk.fs
    modifies disk
    ensures HandlerChange(old(disk.fs), disk.fs, files) && RootsUntouched(old(disk.fs), disk.fs)
    ensures ok ==> forall r | r in records :: r.path !in disk.fs
    ensures ok && candidate.Some? ==> IsFileAt(disk.fs, CONFIG) && disk.fs[CONFIG].content == candidate.value
    ensures ok && candidate.Some? ==>
      disk.fs[CONFIG].mode == if old(disk.fs)[CONFIG].content == candidate.value then old(disk.fs)[CONFIG].mode else mode
    ensures ok && candidate.None? ==> CONFIG !in disk.fs
    ensures forall g | g in files && g !in DeactivationPaths(records) :: SameAt(old(disk.fs), disk.fs, g)
    ensures CONFIG in RecordPaths(records) && candidate.Some? ==> !ok
    ensures (disk.reliable && Writable(old(disk.fs), files) && PathsDiffer(records) && CONFIG !in RecordPaths(records) &&
             (forall r | r in records :: IsFileAt(old(disk.fs), r.path))) ==> ok
  {
    DeclaredFiles(files, DeactivationPaths(records));
    hide HandlerChange, IsRoot, PrefixFree, FileStep, Writable, RootsUntouched;
    ghost var pre := disk.fs;
    ok := RemoveRecorded(disk, records, files);
    ghost var mid := disk.fs;
    RecordedIsNoRoot(pre, mid, records, files);
    if !ok { return; }
    assert CONFIG in files;
    StaysWritable(pre, mid, files);
    if candidate.Some? {
      if CONFIG !in disk.fs { return false; }
      assert SameAt(pre, disk.fs, CONFIG);
      ok := ReplaceConfig(disk, candidate.value, mode, files);
      ChangesAddUp(pre, mid, disk.fs, files);
      StillRemoved(mid, disk.fs, records, files);
      RootsStayUntouched(pre, mid, disk.fs);
    }
  }

  lemma AllAreFiles(fs: Tree, records: seq<Record>)
    requires forall r | r in records :: MatchesRecord(fs, r.path, r.content, r.mode)
    ensures forall r | r in records :: IsFileAt(fs, r.path)
  {
  }

  lemma RecordedConfigIsThere(fs: Tree, records: seq<Record>)
    requires forall r | r in records :: MatchesRecord(fs, r.path, r.content, r.mode)
    ensures CONFIG in RecordPaths(records) ==> CONFIG in fs
  {
  }

  /** The configuration is written unless it has the right content already. */
  method ReplaceConfig(disk: Disk, content: Content, mode: nat, ghost files: seq<Path>) returns (ok: bool)
    requires PrefixFree(files) && CONFIG in files && forall g | g in files :: |g| > 0 && !IsRoot(g[0])
    requires IsFileAt(disk.fs, CONFIG)
    modifies disk
    ensures HandlerChange(old(disk.fs), disk.fs, files) && RootsUntouched(old(disk.fs), disk.fs)
    ensures forall g | g in files && g != CONFIG :: SameAt(old(disk.fs), disk.fs, g)
    ensures ok ==> IsFileAt(disk.fs, CONFIG) && disk.fs[CONFIG].content == content
    ensures ok ==> disk.fs[CONFIG].mode == if old(disk.fs)[CONFIG].content == content then old(disk.fs)[CONFIG].mode else mode
    ensures disk.reliable && Writable(old(disk.fs), files) ==> ok
  {
    hide HandlerChange, IsRoot, PrefixFree, RootsUntouched, Writable;
    ghost var before := disk.fs;
    ChangeIsReflexive(before, files);
    NothingTouched(before);
    ok := true;
    if disk.fs[CONFIG].content != content {
      ok := WriteDeclared(disk, CONFIG, content, mode, files, before);
    }
  }

  lemma LockIsFile(fs: Tree)
    ensures HasLock(fs) ==> IsFileAt(fs, LOCK)
  {
  }

  lemma RecordedIsNoRoot(pre: Tree, fs: Tree, records: seq<Record>, files: seq<Path>)
    requires forall p | p !in RecordPaths(records) :: SameAt(pre, fs, p)
    requires forall p | p in RecordPaths(records) :: p in files
    requires forall f | f in files :: |f| > 0 && !IsRoot(f[0])
    ensures RootsUntouched(pre, fs)
  {
    hide IsRoot;
  }

  lemma StillRemoved(mid: Tree, fs: Tree, records: seq<Record>, files: seq<Path>)
    requires forall r | r in records :: r.path !in mid
    requires forall p | p in RecordPaths(records) :: p in files && p != CONFIG
    requires forall g | g in files && g != CONFIG :: SameAt(mid, fs, g)
    ensures forall r | r in records :: r.path !in fs
  {
    forall r | r in records
      ensures r.path !in fs
    {
      assert r.path in RecordPaths(records) && SameAt(mid, fs, r.path);
    }
  }

  lemma DeclaredFiles(files: seq<Path>, paths: set<Path>)
    requires Declared(files, paths)
    ensures PrefixFree(files) && forall g | g in files :: |g| > 0 && !IsRoot(g[0])
  {
  }

  lemma LockRemoval(before: Tree, fs: Tree, files: seq<Path>)
    requires forall f | f in files :: |f| > 0 && !IsRoot(f[0])
    requires fs == before || fs == before - {LOCK}
    ensures HandlerChange(before, fs, files)
  {
    LockIsNoPoint();
    hide IsRoot;
    forall p
      ensures SameAt(before, fs, p) || HandlerMayTouch(p)
    {
      assert p != LOCK ==> SameAt(before, fs, p);
    }
    forall p | InScope(files, p)
      ensures SameAt(before, fs, p)
    {
      ScopeIsNoRoot(files, p);
      assert p[0] != STATE;
    }
    KindsStay(before, fs, files);
  }

  // ---------------------------------------------------------------- composition

  /** Whatever part of an activation ran, and however it ended, a restoration that succeeds brings back every
      path outside the managed roots; on a reliable disk it does succeed. */
  method ActivateThenRecover(disk: Disk, records: seq<Record>, assets: seq<Asset>, profiles: seq<Asset>,
                             config: Option<Content>, lock: Content, files: seq<Path>) returns (recovered: bool)
    requires WellFormed(disk.fs) && KindsAreSafe(disk.fs, files)
    requires Declared(files, ActivationPaths(records, assets, profiles))
    requires forall i, j | 0 <= i < j < |assets| :: assets[i].destination != assets[j].destination
    requires Destinations(assets) !! Destinations(profiles) + {CONFIG} && CONFIG !in Destinations(profiles)
    modifies disk
    ensures recovered ==> forall p | p == [] || !IsRoot(p[0]) :: SameAt(old(disk.fs), disk.fs, p)
    ensures disk.reliable ==> recovered
  {
    DeclaredFiles(files, ActivationPaths(records, assets, profiles));
    hide HandlerChange, IsRoot, RestoreStep, Covers;
    ghost var pre := disk.fs;
    var snapshot := SnapshotExternalState(disk, files);
    var ok := ApplySourceActivation(disk, records, assets, profiles, config, lock, files);
    ghost var changed := disk.fs;
    ChangeIsConfined(pre, changed, files);
    recovered := RestoreExternalState(disk, snapshot.value, files, pre);
    if recovered { OutsideIsBack(snapshot.value, pre, changed, disk.fs, files); }
  }

  /** The same for whatever part of a deactivation ran. */
  method DeactivateThenRecover(disk: Disk, records: seq<Record>, rewriting: Rewriting, files: seq<Path>)
    returns (recovered: bool)
    requires WellFormed(disk.fs) && KindsAreSafe(disk.fs, files)
    requires Declared(files, DeactivationPaths(records))
    modifies disk
    ensures recovered ==> forall p | p == [] || !IsRoot(p[0]) :: SameAt(old(disk.fs), disk.fs, p)
    ensures disk.reliable ==> recovered
  {
    DeclaredFiles(files, DeactivationPaths(records));
    hide HandlerChange, IsRoot, RestoreStep, Covers, KindsAreSafe, WellFormed, WellFormedNear, Confined, Matches, SameAt;
    ghost var pre := disk.fs;
    var snapshot := SnapshotExternalState(disk, files);
    var ok := ApplySourceDeactivation(disk, records, rewriting, files);
    ghost var changed := disk.fs;
    ChangeIsConfined(pre, changed, files);
    recovered := RestoreExternalState(disk, snapshot.value, files, pre);
    if recovered { OutsideIsBack(snapshot.value, pre, changed, disk.fs, files); }
  }

  lemma ChangeIsConfined(pre: Tree, fs: Tree, files: seq<Path>)
    requires WellFormed(pre) && KindsAreSafe(pre, files) && HandlerChange(pre, fs, files) && PrefixFree(files)
    requires forall f | f in files :: |f| > 0 && !IsRoot(f[0])
    ensures WellFormedNear(pre, files) && Confined(pre, fs, files)
  {
    hide IsRoot, KindsAreSafe;
    forall p | Near(files, p)
      ensures p == [] || !IsRoot(p[0])
    {
      if p != [] {
        var f :| f in files && |f| > 0 && f[0] == p[0];
      }
    }
  }

  lemma OutsideIsBack(state: ExternalState, pre: Tree, changed: Tree, fs: Tree, files: seq<Path>)
    requires Describes(state, pre, files) && Matches(fs, state)
    requires HandlerChange(pre, changed, files) && RestoreStep(changed, fs, files)
    ensures forall p | p == [] || !IsRoot(p[0]) :: SameAt(pre, fs, p)
  {
    hide IsRoot, KindsAreSafe, Covers, Matches;
    MatchingTreesAgree(state, pre, fs, files);
    forall p | p == [] || !IsRoot(p[0])
      ensures SameAt(pre, fs, p)
    {
      if !InScope(files, p) { assert SameAt(pre, changed, p) && SameAt(changed, fs, p); }
    }
  }
}
