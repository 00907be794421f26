/** `_execute_uninstall`: everything managed moves into a private backup, and back again on any failure,
    while outside processes may create files wherever nothing is. */
module Uninstall {
  import opened FileSystem
  import opened External
  import opened Installations
  import opened Transactions
  import opened UninstallState

  // ---------------------------------------------------------------- the way out

  const NOTHING: Progress := Progress({}, {}, false, false)

  /** The verdicts of comparisons that look at more than this model does: the moved locks, the moved files, the
      moved installation, and the identities of directories before and after. */
  datatype Inspection = Inspection(
    locks: Tree -> bool,
    file: (Tree, Path) -> bool,
    managed: Tree -> bool,
    parents: Tree -> bool,
    parent: (Tree, Path) -> bool)

  ghost predicate NeverComplains(inspection: Inspection) {
    && (forall t :: inspection.locks(t) && inspection.managed(t) && inspection.parents(t))
    && (forall t, f :: inspection.file(t, f) && inspection.parent(t, f))
  }

  /** Nobody else writes, and nothing is there that should not be. */
  ghost predicate Calm(disk: Disk, pre: Tree, fs: Tree, plan: Plan, g: Progress, extra: set<Path>) {
    disk.exclusive && Tight(pre, fs, plan, g, extra)
  }

  /** What is away was there in the first place. */
  ghost predicate FromOriginal(pre: Tree, g: Progress) {
    && (forall n | n in g.roots :: [n] in pre)
    && (forall f | f in g.activated :: f in pre)
  }

  method MoveRoots(disk: Disk, plan: Plan, ghost pre: Tree) returns (ok: bool, g: Progress)
    requires Sound(plan) && Original(pre, plan) && Tracks(pre, disk.fs, plan, NOTHING)
    modifies disk
    ensures Tracks(pre, disk.fs, plan, g)
    ensures g == NOTHING.(roots := g.roots)
    ensures ok ==> forall n | n in MANAGED_ROOTS :: n in g.roots
    ensures Calm(disk, pre, old(disk.fs), plan, NOTHING, {}) ==>
      Calm(disk, pre, disk.fs, plan, g, {}) && FromOriginal(pre, g)
    ensures (Calm(disk, pre, old(disk.fs), plan, NOTHING, {}) && disk.reliable &&
             (forall n | n in MANAGED_ROOTS :: [n] in pre)) ==> ok
  {
    hide IsRoot, Tracks, Sound, Original, Relocates, Tight, CanReplace, Moved;
    ghost var calm := Calm(disk, pre, disk.fs, plan, NOTHING, {});
    g := NOTHING;
    for k := 0 to |MANAGED_ROOTS|
      invariant Tracks(pre, disk.fs, plan, g)
      invariant g == NOTHING.(roots := g.roots)
      invariant forall n :: n in g.roots <==> n in MANAGED_ROOTS[..k]
      invariant calm ==> Calm(disk, pre, disk.fs, plan, g, {}) && FromOriginal(pre, g)
    {
      var n := MANAGED_ROOTS[k];
      NextRootIsNew(k);
      var after := g.(roots := g.roots + {n});
      TracksIsReasonable(pre, disk.fs, plan, g);
      GoesAway(pre, plan, g, after, [n]);
      AwayIsDeep(plan, [n]);
      ghost var before := disk.fs;
      if calm { RootCanGo(pre, before, plan, g, n); }
      ok := Rename(disk, [n], Away(plan, [n]), plan, pre, g, after);
      if !ok { return; }
      if calm { TopHasGone(pre, before, plan, g, after, [n]); }
      g := after;
      assert MANAGED_ROOTS[..k + 1] == MANAGED_ROOTS[..k] + [n];
    }
    assert MANAGED_ROOTS[..|MANAGED_ROOTS|] == MANAGED_ROOTS;
    ok := true;
  }

  lemma RootCanGo(pre: Tree, fs: Tree, plan: Plan, g: Progress, n: string)
    requires Sound(plan) && Original(pre, plan) && Tracks(pre, fs, plan, g) && Tight(pre, fs, plan, g, {})
    requires IsRoot(n) && n !in g.roots
    ensures [n] in pre ==> CanReplace(fs, [n], Away(plan, [n]))
  {
    AwayIsNoScaffold(plan, [n]);
    hide IsRoot, Original, Tight;
    assert [n] !in g.activated by { assert [n] in plan.activated ==> Activatable(plan, [n]); }
    RoomForTop(pre, fs, plan, g, {}, [n]);
    assert Away(plan, [n][..0]) == [plan.backup, MANAGED];
    if [n] in pre { CanGoAway(pre, fs, plan, g, [n]); }
  }

  /** A root or file that went away was an original one. */
  lemma TopHasGone(pre: Tree, before: Tree, plan: Plan, g: Progress, after: Progress, top: Path)
    requires Sound(plan) && Original(pre, plan) && Reasonable(plan, g) && Tight(pre, before, plan, g, {})
    requires IsTop(plan, top) && Apart(top, Away(plan, top)) && Relocates(pre, plan, g, after, top, Away(plan, top))
    requires CanReplace(before, top, Away(plan, top))
    ensures Tight(pre, Moved(before, top, Away(plan, top)), plan, after, {}) && top in pre
  {
    AwayIsNoScaffold(plan, top);
    hide IsRoot, Original, Sound, Scaffold, Relocates, Moved;
    TopIsTight(pre, before, plan, g, after, top, Away(plan, top), top, {});
    HousedIsTight(pre, before, plan, g, {}, top);
    HousedMeans(pre, plan, g, top);
  }

  lemma TracksIsReasonable(pre: Tree, fs: Tree, plan: Plan, g: Progress)
    requires Tracks(pre, fs, plan, g)
    ensures Reasonable(plan, g)
  {
  }

  /** A path and its place in the backup never contain the backup's own directories. */
  lemma AwayIsDeep(plan: Plan, p: Path)
    requires Sound(plan) && |p| > 0 && p[0] != plan.backup
    ensures !Under(Away(plan, p), [plan.backup, MANAGED]) && !Under(p, [plan.backup, MANAGED])
    ensures !Under(Away(plan, p), [SKILLS]) && (|p| > 1 || p[0] != SKILLS ==> !Under(p, [SKILLS]))
  {
    UnderHead(p, [plan.backup, MANAGED]);
    UnderHead(Away(plan, p), [SKILLS]);
    UnderHead(p, [SKILLS]);
  }

  method MoveFile(disk: Disk, f: Path, plan: Plan, ghost pre: Tree, ghost g: Progress) returns (ok: bool)
    requires Sound(plan) && Original(pre, plan) && Tracks(pre, disk.fs, plan, g) && !g.systemHome
    requires f in plan.activated && f !in g.activated && Activatable(plan, f)
    modifies disk
    ensures Tracks(pre, disk.fs, plan, if ok then g.(activated := g.activated + {f}) else g)
    ensures Calm(disk, pre, old(disk.fs), plan, g, {}) ==>
      Calm(disk, pre, disk.fs, plan, if ok then g.(activated := g.activated + {f}) else g, {}) && (ok ==> f in pre)
    ensures Calm(disk, pre, old(disk.fs), plan, g, {}) && disk.reliable && f in pre && IsDirAt(pre, []) ==> ok
  {
    hide IsRoot, Tracks, Sound, Original, Relocates, Tight, CanReplace, Moved;
    ghost var before := disk.fs;
    ghost var calm := Calm(disk, pre, disk.fs, plan, g, {});
    if calm {
      WayToBackup(pre, before, plan, g, f);
      if IsDirAt(pre, []) { TargetIsDirectory(pre, before, plan, g); }
    }
    ok := MkdirParents(disk, Away(plan, f[..|f| - 1]));
    forall p | p in before
      ensures p in disk.fs && disk.fs[p] == before[p]
    {
      assert SameAt(before, disk.fs, p);
    }
    InterferenceIsHarmless(pre, before, disk.fs, plan, g);
    if calm { ParentsAreTight(pre, before, disk.fs, plan, g, f); }
    if !ok { return; }
    TracksIsReasonable(pre, disk.fs, plan, g);
    ghost var after := g.(activated := g.activated + {f});
    GoesAway(pre, plan, g, after, f);
    AwayIsDeep(plan, f);
    ghost var mid := disk.fs;
    if calm { FileCanGo(pre, mid, plan, g, f); }
    ok := Rename(disk, f, Away(plan, f), plan, pre, g, after);
    if ok && calm { TopHasGone(pre, mid, plan, g, after, f); }
  }

  lemma TargetIsDirectory(pre: Tree, fs: Tree, plan: Plan, g: Progress)
    requires Sound(plan) && Tracks(pre, fs, plan, g) && IsDirAt(pre, [])
    ensures IsDirAt(fs, [])
  {
    assert [] in plan.activated ==> Activatable(plan, []);
    assert InPlace(pre, fs, [], Location(plan, g, []));
  }

  lemma ParentsAreTight(pre: Tree, before: Tree, fs: Tree, plan: Plan, g: Progress, f: Path)
    requires Tight(pre, before, plan, g, {}) && f in plan.activated && |f| > 0
    requires var way := Away(plan, f[..|f| - 1]);
             forall q :: SameAt(before, fs, q) || (0 < |q| <= |way| && q <= way && q !in before && IsDirAt(fs, q))
    ensures Tight(pre, fs, plan, g, {})
  {
    var way := Away(plan, f[..|f| - 1]);
    hide Tight, Housed;
    forall q | !SameAt(before, fs, q)
      ensures Scaffold(plan, q) && IsDirAt(fs, q)
    {
      assert q == way[..|q|];
      assert [plan.backup, MANAGED][..1] == [plan.backup] && [plan.backup, MANAGED][..2] == [plan.backup, MANAGED];
      if |q| <= 2 {
        assert q == [plan.backup, MANAGED][..|q|];
      } else {
        assert q[..2] == [plan.backup, MANAGED];
        assert q[2..] == f[..|q| - 2];
        assert Ancestor(q[2..], f);
      }
    }
    AdditionIsTight(pre, before, fs, plan, g, {});
  }

  lemma FileCanGo(pre: Tree, fs: Tree, plan: Plan, g: Progress, f: Path)
    requires Sound(plan) && Original(pre, plan) && Tracks(pre, fs, plan, g) && Tight(pre, fs, plan, g, {})
    requires f in plan.activated && f !in g.activated && Activatable(plan, f)
    requires var way := Away(plan, f[..|f| - 1]); forall k | 0 < k <= |way| :: IsDirAt(fs, way[..k])
    ensures f in pre ==> CanReplace(fs, f, Away(plan, f))
  {
    AwayIsNoScaffold(plan, f);
    hide IsRoot, Original, Tight;
    RoomForTop(pre, fs, plan, g, {}, f);
    var way := Away(plan, f[..|f| - 1]);
    assert way[..|way|] == way;
    if f in pre { CanGoAway(pre, fs, plan, g, f); }
  }

  method MoveActivated(disk: Disk, plan: Plan, inspection: Inspection, ghost pre: Tree, start: Progress)
    returns (ok: bool, g: Progress)
    requires Sound(plan) && Original(pre, plan) && Tracks(pre, disk.fs, plan, start)
    requires start == NOTHING.(roots := start.roots)
    modifies disk
    ensures Tracks(pre, disk.fs, plan, g)
    ensures g == start.(activated := g.activated)
    ensures ok ==> forall f | f in plan.activated :: f in g.activated
    ensures Calm(disk, pre, old(disk.fs), plan, start, {}) && FromOriginal(pre, start) ==>
      Calm(disk, pre, disk.fs, plan, g, {}) && FromOriginal(pre, g)
    ensures (Calm(disk, pre, old(disk.fs), plan, start, {}) && disk.reliable && NeverComplains(inspection) &&
             IsDirAt(pre, []) && (forall f | f in plan.activated :: f in pre)) ==> ok
  {
    SoundMeans(plan);
    hide IsRoot, Tracks, Sound, Original, Relocates, Tight;
    ghost var calm := Calm(disk, pre, disk.fs, plan, start, {});
    g := start;
    for k := 0 to |plan.activated|
      invariant calm ==> Calm(disk, pre, disk.fs, plan, g, {})
      invariant calm && FromOriginal(pre, start) ==> FromOriginal(pre, g)
      invariant Tracks(pre, disk.fs, plan, g)
      invariant g == start.(activated := g.activated)
      invariant forall f :: f in g.activated <==> f in plan.activated[..k]
    {
      var f := plan.activated[k];
      assert f in plan.activated && f !in plan.activated[..k];
      assert Activatable(plan, f);
      ok := MoveFile(disk, f, plan, pre, g);
      if !ok { return; }
      g := g.(activated := g.activated + {f});
      assert plan.activated[..k + 1] == plan.activated[..k] + [f];
      if !inspection.file(disk.fs, f) { return false, g; }
    }
    assert plan.activated[..|plan.activated|] == plan.activated;
    ok := true;
  }

  lemma SoundMeans(plan: Plan)
    requires Sound(plan)
    ensures forall f | f in plan.activated :: Activatable(plan, f)
    ensures forall i, j | 0 <= i < j < |plan.activated| :: plan.activated[i] != plan.activated[j]
    ensures plan.backup != CONFIG[0] && plan.backup != SKILLS
    ensures plan.temporary != plan.backup && plan.temporary != CONFIG[0] && plan.temporary != SKILLS
  {
    assert IsRoot(SKILLS);
    forall i, j | 0 <= i < j < |plan.activated|
      ensures plan.activated[i] != plan.activated[j]
    {
      assert Apart(plan.activated[i], plan.activated[j]);
    }
  }

  /** A change at a path that held nothing, or held nothing original. */
  lemma UntrackedChange(pre: Tree, before: Tree, fs: Tree, plan: Plan, g: Progress, p: Path)
    requires Tracks(pre, before, plan, g) && |p| == 1 && p[0] != plan.backup
    requires forall q | q != p :: SameAt(before, fs, q)
    requires p == [SKILLS] ==> p in fs || !g.systemHome
    requires p !in before || forall q | q in pre :: Location(plan, g, q) != p
    ensures Tracks(pre, fs, plan, g)
    ensures p !in before ==> forall q | q in pre :: Location(plan, g, q) != p
  {
    hide IsRoot, Location, Reasonable;
    if p !in before {
      forall q | q in pre
        ensures Location(plan, g, q) != p
      {
        assert InPlace(pre, before, q, Location(plan, g, q));
      }
    }
    HarmlessChange(pre, before, fs, plan, g, p);
  }

  /** Once the configuration is away, its path holds nothing original; likewise for `skills`. */
  lemma PathIsFree(pre: Tree, plan: Plan, g: Progress)
    requires Sound(plan)
    ensures g.configAway ==> forall q | q in pre :: Location(plan, g, q) != CONFIG
    ensures SKILLS in g.roots ==> forall q | q in pre :: Location(plan, g, q) != [SKILLS]
  {
    ConfigIsNoRoot();
    assert IsRoot(SKILLS);
    hide IsRoot;
    forall q | q in pre
      ensures g.configAway ==> Location(plan, g, q) != CONFIG
      ensures SKILLS in g.roots ==> Location(plan, g, q) != [SKILLS]
    {
      assert Away(plan, q)[0] == plan.backup && ConfigAway(plan)[0] == plan.backup;
      UnderHead(SYSTEM_PATH, [SKILLS]);
    }
  }

  /** `open(O_EXCL)` and `link`: a file appears where nothing was, or the call fails. */
  method CreateExclusive(disk: Disk, p: Path, content: Content, mode: nat) returns (ok: bool)
    modifies disk
    ensures ok ==> p !in old(disk.fs) && disk.fs == old(disk.fs)[p := File(content, mode)]
    ensures !ok ==> disk.fs == old(disk.fs)
    ensures disk.reliable && p !in old(disk.fs) && CanCreateIn(old(disk.fs), p) ==> ok
  {
    ok := p !in disk.fs;
    if ok { ok := disk.WriteFile(p, content, mode); }
  }

  /** What the rewriting leaves beside the original entries. */
  function Written(written: bool): set<Path> { if written then {CONFIG} else {} }

  /** An original configuration that went away was there, and only the rewritten one has taken its place. */
  ghost predicate ConfigInOrder(pre: Tree, fs: Tree, plan: Plan, g: Progress, written: bool) {
    g.configAway ==>
      && CONFIG in pre
      && (CONFIG in fs ==> written && fs[CONFIG] == File(plan.candidate, plan.configMode))
  }

  /** The configuration is the one the plan was made for, and the temporary name is free. */
  ghost predicate ConfigAsPlanned(pre: Tree, plan: Plan) {
    plan.rewriteConfig ==>
      CONFIG in pre && pre[CONFIG] == File(plan.original, plan.configMode) && [plan.temporary] !in pre
  }

  /** The original configuration goes away, if it is the one the plan was made for. */
  method TakeConfig(disk: Disk, plan: Plan, ghost pre: Tree, start: Progress) returns (ok: bool, g: Progress)
    requires Sound(plan) && Original(pre, plan) && Tracks(pre, disk.fs, plan, start) && !start.configAway
    requires !start.systemHome
    modifies disk
    ensures Tracks(pre, disk.fs, plan, g) && g == start.(configAway := g.configAway) && (ok ==> g.configAway)
    ensures Calm(disk, pre, old(disk.fs), plan, start, {}) ==>
      Calm(disk, pre, disk.fs, plan, g, {}) && (g.configAway ==> CONFIG in pre && CONFIG !in disk.fs)
    ensures (Calm(disk, pre, old(disk.fs), plan, start, {}) && disk.reliable && CONFIG in pre &&
             pre[CONFIG] == File(plan.original, plan.configMode)) ==> ok
  {
    hide IsRoot, Tracks, Sound, Original, Relocates, Location, Tight, CanReplace, Moved;
    ghost var calm := Calm(disk, pre, disk.fs, plan, start, {});
    g := start;
    if CONFIG in pre { ConfigAtHome(pre, disk.fs, plan, g); }
    if CONFIG !in disk.fs || disk.fs[CONFIG] != File(plan.original, plan.configMode) { return false, g; }
    TracksIsReasonable(pre, disk.fs, plan, g);
    ConfigMoves(pre, plan, g);
    ConfigIsDeep(plan);
    assert g.(configAway := false) == g;
    ghost var home := disk.fs;
    if calm { ConfigCanGo(pre, home, plan, g); }
    ok := Rename(disk, CONFIG, ConfigAway(plan), plan, pre, g, g.(configAway := true));
    if !ok { return; }
    if calm { ConfigHasGone(pre, home, plan, g); }
    g := g.(configAway := true);
    if calm { ConfigIsAway(pre, disk.fs, plan, g); }
    ok := ConfigAway(plan) in disk.fs && disk.fs[ConfigAway(plan)] == File(plan.original, plan.configMode);
  }

  /** The rewritten configuration is created where the original was, and never over anything. */
  method LinkConfig(disk: Disk, plan: Plan, ghost pre: Tree, ghost g: Progress) returns (ok: bool, written: bool)
    requires Sound(plan) && Original(pre, plan) && Tracks(pre, disk.fs, plan, g) && g.configAway && !g.systemHome
    modifies disk
    ensures Tracks(pre, disk.fs, plan, g) && (ok ==> written)
    ensures CONFIG in old(disk.fs) ==> !written && SameAt(old(disk.fs), disk.fs, CONFIG)
    ensures Calm(disk, pre, old(disk.fs), plan, g, {}) && CONFIG !in old(disk.fs) && (ok || disk.reliable) ==>
      && Calm(disk, pre, disk.fs, plan, g, Written(written))
      && (CONFIG in disk.fs <==> written) && (written ==> disk.fs[CONFIG] == File(plan.candidate, plan.configMode))
    ensures (Calm(disk, pre, old(disk.fs), plan, g, {}) && CONFIG !in old(disk.fs) && disk.reliable &&
             IsDirAt(pre, []) && [plan.temporary] !in pre) ==> ok
  {
    SoundMeans(plan);
    hide IsRoot, Tracks, Sound, Original, Relocates, Location, Tight;
    ghost var away := disk.fs;
    ghost var calm := Calm(disk, pre, disk.fs, plan, g, {});
    written := false;
    assert Written(false) == {};
    ok := CreateThrough(disk, plan, pre, g);
    if !ok { return; }
    if calm && IsDirAt(pre, []) { TargetIsDirectory(pre, disk.fs, plan, g); }
    ghost var before := disk.fs;
    ok, written := LinkAndDrop(disk, plan, pre, g);
    if calm && [plan.temporary] !in disk.fs {
      forall q | q != CONFIG && q != [plan.temporary]
        ensures SameAt(away, disk.fs, q)
      {
        assert SameAt(away, before, q) && SameAt(before, disk.fs, q);
      }
      RewrittenIsTight(pre, away, disk.fs, plan, g, written);
    }
  }

  /** `link` to the configuration's path, and the temporary name goes. */
  method LinkAndDrop(disk: Disk, plan: Plan, ghost pre: Tree, ghost g: Progress) returns (ok: bool, written: bool)
    requires Sound(plan) && Tracks(pre, disk.fs, plan, g) && g.configAway && !g.systemHome
    requires forall q | q in pre :: Location(plan, g, q) != [plan.temporary]
    modifies disk
    ensures Tracks(pre, disk.fs, plan, g) && (ok ==> written && [plan.temporary] !in disk.fs)
    ensures if written then CONFIG !in old(disk.fs) && CONFIG in disk.fs && disk.fs[CONFIG] == File(plan.candidate, plan.configMode)
            else SameAt(old(disk.fs), disk.fs, CONFIG)
    ensures forall q | q != CONFIG && q != [plan.temporary] :: SameAt(old(disk.fs), disk.fs, q)
    ensures disk.reliable && IsFileAt(old(disk.fs), [plan.temporary]) ==>
      [plan.temporary] !in disk.fs && (CONFIG !in old(disk.fs) && IsDirAt(old(disk.fs), []) ==> ok)
  {
    SoundMeans(plan);
    hide IsRoot, Tracks, Sound, Location;
    ghost var before := disk.fs;
    assert CONFIG[..0] == [];
    written := CreateExclusive(disk, CONFIG, plan.candidate, plan.configMode);
    UntrackedChange(pre, before, disk.fs, plan, g, CONFIG) by { PathIsFree(pre, plan, g); }
    ghost var mid := disk.fs;
    ok := disk.Unlink([plan.temporary]);
    UntrackedChange(pre, mid, disk.fs, plan, g, [plan.temporary]);
    ok := ok && written;
  }

  /** The rewritten configuration takes the place of the original, which stays in the backup. */
  method RewriteConfig(disk: Disk, plan: Plan, ghost pre: Tree, start: Progress)
    returns (ok: bool, g: Progress, written: bool)
    requires Sound(plan) && Original(pre, plan) && Tracks(pre, disk.fs, plan, start) && !start.configAway
    requires !start.systemHome
    modifies disk
    ensures Tracks(pre, disk.fs, plan, g) && g == start.(configAway := g.configAway)
    ensures written ==> g.configAway
    ensures ok ==> (written <==> plan.rewriteConfig)
    ensures g.configAway ==> plan.rewriteConfig
    ensures Calm(disk, pre, old(disk.fs), plan, start, {}) && (ok || disk.reliable) ==>
      Calm(disk, pre, disk.fs, plan, g, Written(written)) && ConfigInOrder(pre, disk.fs, plan, g, written)
    ensures Calm(disk, pre, old(disk.fs), plan, start, {}) && ok && plan.rewriteConfig ==> CONFIG in disk.fs
    ensures (Calm(disk, pre, old(disk.fs), plan, start, {}) && disk.reliable && ConfigAsPlanned(pre, plan) &&
             IsDirAt(pre, [])) ==> ok
  {
    hide IsRoot, Tracks, Sound, Original, Relocates, Location, Tight;
    g, written, ok := start, false, true;
    if !plan.rewriteConfig { return; }
    ok, g := TakeConfig(disk, plan, pre, start);
    if !ok { return; }
    ok, written := LinkConfig(disk, plan, pre, g);
  }

  lemma ConfigAtHome(pre: Tree, fs: Tree, plan: Plan, g: Progress)
    requires Sound(plan) && Tracks(pre, fs, plan, g) && !g.configAway && CONFIG in pre
    ensures CONFIG in fs && fs[CONFIG] == pre[CONFIG]
  {
    ConfigIsNoRoot();
    hide IsRoot;
    assert CONFIG in plan.activated ==> Activatable(plan, CONFIG);
    assert InPlace(pre, fs, CONFIG, Location(plan, g, CONFIG));
  }

  lemma ConfigIsAway(pre: Tree, fs: Tree, plan: Plan, g: Progress)
    requires Sound(plan) && Original(pre, plan) && Tracks(pre, fs, plan, g) && g.configAway && CONFIG in pre
    requires Tight(pre, fs, plan, g, {})
    ensures ConfigAway(plan) in fs && fs[ConfigAway(plan)] == pre[CONFIG] && CONFIG !in fs
  {
    ConfigIsNoRoot();
    RoomForConfig(pre, fs, plan, g, {});
    hide IsRoot;
    assert CONFIG in plan.activated ==> Activatable(plan, CONFIG);
    assert InPlace(pre, fs, CONFIG, Location(plan, g, CONFIG));
  }

  lemma ConfigCanGo(pre: Tree, fs: Tree, plan: Plan, g: Progress)
    requires Sound(plan) && Original(pre, plan) && Tracks(pre, fs, plan, g) && !g.configAway
    requires Tight(pre, fs, plan, g, {}) && CONFIG in fs
    ensures CanReplace(fs, CONFIG, ConfigAway(plan)) && CONFIG in pre
  {
    NoScaffold(plan, CONFIG, CONFIG);
    RoomForConfig(pre, fs, plan, g, {});
    hide IsRoot, Original, Sound, Scaffold, Tight;
    HousedIsTight(pre, fs, plan, g, {}, CONFIG);
    HousedMeans(pre, plan, g, CONFIG);
    assert ConfigAway(plan)[..1] == [plan.backup];
  }

  lemma ConfigHasGone(pre: Tree, before: Tree, plan: Plan, g: Progress)
    requires Sound(plan) && Tight(pre, before, plan, g, {}) && Apart(CONFIG, ConfigAway(plan))
    requires Relocates(pre, plan, g, g.(configAway := true), CONFIG, ConfigAway(plan))
    ensures Tight(pre, Moved(before, CONFIG, ConfigAway(plan)), plan, g.(configAway := true), {})
  {
    hide IsRoot, Relocates, Scaffold, Moved, Tight;
    forall q | Under(CONFIG, q)
      ensures !Scaffold(plan, q)
    {
      NoScaffold(plan, CONFIG, q);
    }
    RenameIsTight(pre, before, plan, g, g.(configAway := true), CONFIG, ConfigAway(plan), {});
  }

  /** With the temporary file gone, the rewritten configuration is all that was added. */
  lemma RewrittenIsTight(pre: Tree, away: Tree, fs: Tree, plan: Plan, g: Progress, linked: bool)
    requires Tight(pre, away, plan, g, {}) && [plan.temporary] !in away && [plan.temporary] !in fs
    requires forall q | q != CONFIG && q != [plan.temporary] :: SameAt(away, fs, q)
    requires !linked ==> SameAt(away, fs, CONFIG)
    ensures Tight(pre, fs, plan, g, Written(linked))
  {
    hide Tight, Scaffold, Housed;
    TightMore(pre, away, plan, g, {}, Written(linked));
    forall q
      ensures SameAt(away, fs, q) || q in Written(linked)
    {
    }
    AdditionIsTight(pre, away, fs, plan, g, Written(linked));
  }

  lemma ConfigIsDeep(plan: Plan)
    requires Sound(plan)
    ensures !Under(CONFIG, [plan.backup, MANAGED]) && !Under(ConfigAway(plan), [plan.backup, MANAGED])
  {
    UnderHead(CONFIG, [plan.backup, MANAGED]);
    assert ConfigAway(plan)[1] == CONFIG[0] && |MANAGED| == 7 && |CONFIG[0]| == 11;
    assert [plan.backup, MANAGED][1] == MANAGED;
  }

  /** The temporary file, under a name nothing original uses. */
  method CreateThrough(disk: Disk, plan: Plan, ghost pre: Tree, ghost g: Progress) returns (ok: bool)
    requires Sound(plan) && Tracks(pre, disk.fs, plan, g)
    modifies disk
    ensures Tracks(pre, disk.fs, plan, g)
    ensures ok ==> forall q | q in pre :: Location(plan, g, q) != [plan.temporary]
    ensures disk.exclusive ==>
      disk.fs == if ok then old(disk.fs)[[plan.temporary] := File(plan.candidate, plan.configMode)] else old(disk.fs)
    ensures disk.exclusive && ok ==> [plan.temporary] !in old(disk.fs)
    ensures forall p | p in old(disk.fs) :: p in disk.fs && disk.fs[p] == old(disk.fs)[p]
    ensures (Calm(disk, pre, old(disk.fs), plan, g, {}) && Original(pre, plan) && disk.reliable && IsDirAt(pre, []) &&
             [plan.temporary] !in pre) ==> ok
  {
    SoundMeans(plan);
    hide IsRoot, Tracks, Sound, Location, Original, Tight;
    ghost var before := disk.fs;
    if Calm(disk, pre, before, plan, g, {}) && Original(pre, plan) && IsDirAt(pre, []) && [plan.temporary] !in pre {
      TracksIsReasonable(pre, before, plan, g);
      RoomForTemporary(pre, before, plan, g, {});
      TargetIsDirectory(pre, before, plan, g);
    }
    Interfere(disk, plan.backup);
    InterferenceIsHarmless(pre, before, disk.fs, plan, g);
    ghost var mid := disk.fs;
    ok := CreateExclusive(disk, [plan.temporary], plan.candidate, plan.configMode);
    if ok { UntrackedChange(pre, mid, disk.fs, plan, g, [plan.temporary]); }
  }

  /** A new, empty `skills` directory. */
  method MakeSkills(disk: Disk, plan: Plan, ghost pre: Tree, ghost g: Progress) returns (ok: bool)
    requires Sound(plan) && Original(pre, plan) && Tracks(pre, disk.fs, plan, g) && SKILLS in g.roots && !g.systemHome
    modifies disk
    ensures Tracks(pre, disk.fs, plan, g)
    ensures ok ==> IsDirAt(disk.fs, [SKILLS])
    ensures disk.exclusive ==> forall q | q != [SKILLS] :: SameAt(old(disk.fs), disk.fs, q)
    ensures disk.exclusive && disk.reliable && [SKILLS] !in old(disk.fs) && IsDirAt(old(disk.fs), []) ==> ok
  {
    SoundMeans(plan);
    hide IsRoot, Tracks, Sound, Original, Location;
    ghost var before := disk.fs;
    Interfere(disk, plan.backup);
    InterferenceIsHarmless(pre, before, disk.fs, plan, g);
    ghost var mid := disk.fs;
    ok := disk.Mkdir([SKILLS], MANAGED_DIRECTORY_MODE);
    UntrackedChange(pre, mid, disk.fs, plan, g, [SKILLS]) by { PathIsFree(pre, plan, g); }
    if !ok { return; }
    ghost var made := disk.fs;
    ok := disk.Chmod([SKILLS], MANAGED_DIRECTORY_MODE);
    UntrackedChange(pre, made, disk.fs, plan, g, [SKILLS]) by { PathIsFree(pre, plan, g); }
  }

  /** `.system` goes back into a new `skills` directory. */
  method RestoreSystem(disk: Disk, plan: Plan, ghost pre: Tree, start: Progress, ghost extra: set<Path>)
    returns (ok: bool, g: Progress)
    requires Sound(plan) && Original(pre, plan) && Tracks(pre, disk.fs, plan, start)
    requires SKILLS in start.roots && !start.systemHome
    modifies disk
    ensures Tracks(pre, disk.fs, plan, g) && g == start.(systemHome := g.systemHome)
    ensures ok && IsDirAt(pre, SYSTEM_PATH) ==> g.systemHome
    ensures Returning(disk, pre, old(disk.fs), plan, start, extra) && (ok || disk.reliable) ==>
      Calm(disk, pre, disk.fs, plan, g, extra + Skills(g)) && SystemInOrder(pre, disk.fs, g)
    ensures Returning(disk, pre, old(disk.fs), plan, start, extra) ==> SameAt(old(disk.fs), disk.fs, CONFIG)
    ensures Returning(disk, pre, old(disk.fs), plan, start, extra) && disk.reliable ==> ok
  {
    hide IsRoot, Tracks, Sound, Original, Relocates, Tight, Moved, CanReplace;
    ghost var calm := Returning(disk, pre, disk.fs, plan, start, extra);
    g := start;
    assert extra + Skills(g) == extra;
    SystemIsAway(pre, disk.fs, plan, g);
    if calm { SystemCanReturn(pre, disk.fs, plan, g, extra); }
    if !IsDirAt(disk.fs, Away(plan, SYSTEM_PATH)) { return true, g; }
    ghost var before := disk.fs;
    ok := MakeSkills(disk, plan, pre, g);
    ConfigIsNoSkills();
    ghost var ready := disk.fs;
    assert calm ==> SameAt(before, ready, CONFIG);
    if !ok { return; }
    if calm { SkillsAreReady(pre, before, ready, plan, g, extra); }
    ok := RenameSystem(disk, plan, pre, g);
    if !ok { return; }
    if calm { SystemHasReturned(pre, ready, plan, g, extra); }
    g := g.(systemHome := true);
  }

  /** The configuration is all that has been added. */
  ghost predicate Returning(disk: Disk, pre: Tree, fs: Tree, plan: Plan, g: Progress, extra: set<Path>) {
    Calm(disk, pre, fs, plan, g, extra) && extra <= {CONFIG} && IsDirAt(pre, [])
  }

  /** What bringing `.system` home adds. */
  function Skills(g: Progress): set<Path> { if g.systemHome then {[SKILLS]} else {} }

  ghost predicate SystemInOrder(pre: Tree, fs: Tree, g: Progress) {
    g.systemHome ==> IsDirAt(pre, SYSTEM_PATH) && IsDirAt(fs, [SKILLS])
  }

  /** `skills` is free, and what looks like `.system` in the backup is the original one. */
  lemma SystemCanReturn(pre: Tree, fs: Tree, plan: Plan, g: Progress, extra: set<Path>)
    requires Sound(plan) && Original(pre, plan) && Tracks(pre, fs, plan, g) && Tight(pre, fs, plan, g, extra)
    requires extra <= {CONFIG} && SKILLS in g.roots && !g.systemHome && IsDirAt(pre, [])
    ensures [SKILLS] !in fs && IsDirAt(fs, [])
    ensures IsDirAt(fs, Away(plan, SYSTEM_PATH)) ==> IsDirAt(pre, SYSTEM_PATH)
  {
    SoundMeans(plan);
    ConfigIsNoSkills();
    RootIsApart(plan);
    NoScaffold(plan, Away(plan, SYSTEM_PATH), Away(plan, SYSTEM_PATH));
    TargetIsDirectory(pre, fs, plan, g);
    hide IsRoot, Original, Sound, Tight, Scaffold, Housed, Location;
    RoomForSystem(pre, fs, plan, g, extra);
    var away := Away(plan, SYSTEM_PATH);
    assert away[2..] == SYSTEM_PATH;
    AwayPaths(plan, SYSTEM_PATH, SYSTEM_PATH);
    if IsDirAt(fs, away) {
      HousedIsTight(pre, fs, plan, g, extra, away);
      HousedMeans(pre, plan, g, away);
      SystemAt(pre, fs, plan, g);
    }
  }

  lemma ConfigIsNoSkills()
    ensures CONFIG != [SKILLS]
  {
    assert |CONFIG[0]| == 11 && |SKILLS| == 6;
  }

  lemma SystemAt(pre: Tree, fs: Tree, plan: Plan, g: Progress)
    requires Tracks(pre, fs, plan, g) && SKILLS in g.roots && !g.systemHome && SYSTEM_PATH in pre
    ensures Away(plan, SYSTEM_PATH) in fs && fs[Away(plan, SYSTEM_PATH)] == pre[SYSTEM_PATH]
  {
    assert InPlace(pre, fs, SYSTEM_PATH, Location(plan, g, SYSTEM_PATH));
  }

  /** With an empty `skills` directory in place, `.system` can return to it. */
  lemma SkillsAreReady(pre: Tree, before: Tree, fs: Tree, plan: Plan, g: Progress, extra: set<Path>)
    requires Sound(plan) && Original(pre, plan) && Tracks(pre, fs, plan, g) && Tight(pre, before, plan, g, extra)
    requires extra <= {CONFIG} && SKILLS in g.roots && !g.systemHome && IsDirAt(pre, SYSTEM_PATH)
    requires IsDirAt(fs, [SKILLS]) && forall q | q != [SKILLS] :: SameAt(before, fs, q)
    ensures Tight(pre, fs, plan, g, extra + {[SKILLS]})
    ensures CanReplace(fs, Away(plan, SYSTEM_PATH), SYSTEM_PATH)
  {
    SoundMeans(plan);
    RootIsApart(plan);
    TracksIsReasonable(pre, fs, plan, g);
    SystemAt(pre, fs, plan, g);
    hide IsRoot, Original, Sound, Tight, Scaffold, Housed, Location, Tracks, Reasonable, Under, Away, CanReplace;
    TightMore(pre, before, plan, g, extra, extra + {[SKILLS]});
    AdditionIsTight(pre, before, fs, plan, g, extra + {[SKILLS]});
    RoomForSystem(pre, fs, plan, g, extra + {[SKILLS]});
    SystemCanMove(fs, Away(plan, SYSTEM_PATH));
  }

  lemma SystemCanMove(fs: Tree, away: Path)
    requires IsDirAt(fs, [SKILLS]) && away in fs && fs[away].Dir?
    requires forall q | q in fs && Under([SKILLS], q) :: q == [SKILLS]
    ensures CanReplace(fs, away, SYSTEM_PATH)
  {
    assert Under([SKILLS], SYSTEM_PATH) && |SYSTEM_PATH| == 2 && SYSTEM_PATH[..1] == [SKILLS];
  }

  lemma SystemHasReturned(pre: Tree, before: Tree, plan: Plan, g: Progress, extra: set<Path>)
    requires Sound(plan) && Tight(pre, before, plan, g, extra + {[SKILLS]}) && extra <= {CONFIG}
    requires IsDirAt(before, [SKILLS]) && Apart(Away(plan, SYSTEM_PATH), SYSTEM_PATH)
    requires Relocates(pre, plan, g, g.(systemHome := true), Away(plan, SYSTEM_PATH), SYSTEM_PATH)
    ensures Tight(pre, Moved(before, Away(plan, SYSTEM_PATH), SYSTEM_PATH), plan, g.(systemHome := true), extra + {[SKILLS]})
    ensures IsDirAt(Moved(before, Away(plan, SYSTEM_PATH), SYSTEM_PATH), [SKILLS])
    ensures SameAt(before, Moved(before, Away(plan, SYSTEM_PATH), SYSTEM_PATH), CONFIG)
  {
    SoundMeans(plan);
    ConfigIsNoSkills();
    RootIsApart(plan);
    hide IsRoot, Sound, Tight, Scaffold, Relocates, Moved;
    var src := Away(plan, SYSTEM_PATH);
    forall q | Under(src, q)
      ensures q !in extra + {[SKILLS]} && !Scaffold(plan, q)
    {
      NoScaffold(plan, src, q);
    }
    RenameIsTight(pre, before, plan, g, g.(systemHome := true), src, SYSTEM_PATH, extra + {[SKILLS]});
    UnderHead(src, CONFIG);
    UnderHead(src, [SKILLS]);
    UnderHead(SYSTEM_PATH, CONFIG);
    MovedElsewhere(before, src, SYSTEM_PATH, CONFIG);
    MovedElsewhere(before, src, SYSTEM_PATH, [SKILLS]);
  }

  lemma SystemIsAway(pre: Tree, fs: Tree, plan: Plan, g: Progress)
    requires Tracks(pre, fs, plan, g) && SKILLS in g.roots && !g.systemHome
    ensures IsDirAt(pre, SYSTEM_PATH) ==> IsDirAt(fs, Away(plan, SYSTEM_PATH))
  {
    if IsDirAt(pre, SYSTEM_PATH) { assert InPlace(pre, fs, SYSTEM_PATH, Location(plan, g, SYSTEM_PATH)); }
  }

  method RenameSystem(disk: Disk, plan: Plan, ghost pre: Tree, ghost g: Progress) returns (ok: bool)
    requires Sound(plan) && Original(pre, plan) && Tracks(pre, disk.fs, plan, g)
    requires SKILLS in g.roots && !g.systemHome && [SKILLS] in disk.fs
    modifies disk
    ensures Tracks(pre, disk.fs, plan, if ok then g.(systemHome := true) else g)
    ensures Apart(Away(plan, SYSTEM_PATH), SYSTEM_PATH)
    ensures Relocates(pre, plan, g, g.(systemHome := true), Away(plan, SYSTEM_PATH), SYSTEM_PATH)
    ensures disk.exclusive ==>
      disk.fs == if ok then Moved(old(disk.fs), Away(plan, SYSTEM_PATH), SYSTEM_PATH) else old(disk.fs)
    ensures disk.exclusive && disk.reliable && CanReplace(old(disk.fs), Away(plan, SYSTEM_PATH), SYSTEM_PATH) ==> ok
  {
    SoundMeans(plan);
    hide IsRoot, Tracks, Sound, Original, Relocates;
    TracksIsReasonable(pre, disk.fs, plan, g);
    SystemMoves(pre, plan, g);
    AwayIsDeep(plan, SYSTEM_PATH);
    assert g.(systemHome := false) == g;
    StaysReasonable(plan, g);
    ok := Rename(disk, Away(plan, SYSTEM_PATH), SYSTEM_PATH, plan, pre, g, g.(systemHome := true));
  }

  lemma StaysReasonable(plan: Plan, g: Progress)
    requires Reasonable(plan, g) && SKILLS in g.roots
    ensures Reasonable(plan, g.(systemHome := true)) && Reasonable(plan, g.(systemHome := false))
  {
  }

  /** `_verify_uninstalled_state`. */
  ghost predicate Uninstalled(fs: Tree, plan: Plan, preserved: bool) {
    && [AGENTS] !in fs && [STATE] !in fs
    && (forall f | f in plan.activated :: f !in fs)
    && (preserved ==> IsDirAt(fs, SYSTEM_PATH))
    && (plan.rewriteConfig ==> CONFIG in fs && fs[CONFIG] == File(plan.candidate, plan.configMode))
  }

  method VerifyUninstalledState(disk: Disk, plan: Plan, preserved: bool) returns (ok: bool)
    ensures ok <==> Uninstalled(disk.fs, plan, preserved)
  {
    if [AGENTS] in disk.fs || [STATE] in disk.fs { return false; }
    for k := 0 to |plan.activated|
      invariant forall i | 0 <= i < k :: plan.activated[i] !in disk.fs
    {
      if plan.activated[k] in disk.fs {
        assert plan.activated[k] in plan.activated;
        return false;
      }
    }
    if preserved && !IsDirAt(disk.fs, SYSTEM_PATH) { return false; }
    if plan.rewriteConfig && (CONFIG !in disk.fs || disk.fs[CONFIG] != File(plan.candidate, plan.configMode)) {
      return false;
    }
    return true;
  }

  // ---------------------------------------------------------------- the way back

  /** On an undisturbed target: what is away was there, and nothing was added but what the progress says. */
  ghost predicate Orderly(disk: Disk, pre: Tree, fs: Tree, plan: Plan, g: Progress, written: bool) {
    && Calm(disk, pre, fs, plan, g, Written(written) + Skills(g))
    && FromOriginal(pre, g) && WellFormed(pre) && (written ==> g.configAway)
    && ConfigInOrder(pre, fs, plan, g, written) && SystemInOrder(pre, fs, g)
  }

  method RecoverSystem(disk: Disk, plan: Plan, ghost pre: Tree, start: Progress, ghost written: bool)
    returns (clean: bool, g: Progress)
    requires Sound(plan) && Original(pre, plan) && Tracks(pre, disk.fs, plan, start)
    modifies disk
    ensures Tracks(pre, disk.fs, plan, g) && g == start.(systemHome := g.systemHome)
    ensures clean ==> !g.systemHome
    ensures Orderly(disk, pre, old(disk.fs), plan, start, written) && disk.reliable ==>
      clean && Orderly(disk, pre, disk.fs, plan, g, written)
  {
    SoundMeans(plan);
    hide IsRoot, Tracks, Sound, Original, Relocates, Orderly, Moved, CanReplace, Calm, ConfigInOrder, FromOriginal, WellFormed,
         NothingBelow, Location, Under;
    ghost var orderly := Orderly(disk, pre, disk.fs, plan, start, written);
    g, clean := start, true;
    if !g.systemHome { return; }
    ghost var before := disk.fs;
    if orderly { SystemCanGo(disk, pre, before, plan, g, written); }
    clean := PutSystemAway(disk, plan, pre, g);
    if !clean { return; }
    g := g.(systemHome := false);
    ghost var mid := disk.fs;
    if orderly {
      SystemHasGone(disk, pre, before, plan, start, written);
      OrderlyBasics(disk, pre, before, plan, start, written);
    }
    clean := disk.Rmdir([SKILLS]);
    UntrackedChange(pre, mid, disk.fs, plan, g, [SKILLS]) by { PathIsFree(pre, plan, g); }
    if orderly && clean { SkillsHaveGone(disk, pre, mid, disk.fs, plan, g, written); }
  }

  method PutSystemAway(disk: Disk, plan: Plan, ghost pre: Tree, ghost g: Progress) returns (ok: bool)
    requires Sound(plan) && Original(pre, plan) && Tracks(pre, disk.fs, plan, g) && g.systemHome
    modifies disk
    ensures Tracks(pre, disk.fs, plan, if ok then g.(systemHome := false) else g) && Reasonable(plan, g)
    ensures Apart(SYSTEM_PATH, Away(plan, SYSTEM_PATH))
    ensures Relocates(pre, plan, g, g.(systemHome := false), SYSTEM_PATH, Away(plan, SYSTEM_PATH))
    ensures disk.exclusive ==>
      disk.fs == if ok then Moved(old(disk.fs), SYSTEM_PATH, Away(plan, SYSTEM_PATH)) else old(disk.fs)
    ensures disk.exclusive && disk.reliable && CanReplace(old(disk.fs), SYSTEM_PATH, Away(plan, SYSTEM_PATH)) ==> ok
  {
    SoundMeans(plan);
    hide IsRoot, Tracks, Sound, Original, Relocates, Moved, CanReplace;
    TracksIsReasonable(pre, disk.fs, plan, g);
    SystemMoves(pre, plan, g);
    AwayIsDeep(plan, SYSTEM_PATH);
    StaysReasonable(plan, g);
    assert g.(systemHome := true) == g;
    ok := Rename(disk, SYSTEM_PATH, Away(plan, SYSTEM_PATH), plan, pre, g, g.(systemHome := false));
  }

  lemma SystemCanGo(disk: Disk, pre: Tree, fs: Tree, plan: Plan, g: Progress, written: bool)
    requires Sound(plan) && Original(pre, plan) && Tracks(pre, fs, plan, g)
    requires Orderly(disk, pre, fs, plan, g, written) && g.systemHome
    ensures disk.exclusive && CanReplace(fs, SYSTEM_PATH, Away(plan, SYSTEM_PATH))
  {
    OrderlyIsTight(disk, pre, fs, plan, g, written);
    TracksIsReasonable(pre, fs, plan, g);
    SystemAtHome(disk, pre, fs, plan, g, written);
    hide *;
    SkillsWithSystem(plan, g);
    RoomForSystem(pre, fs, plan, g, Written(written) + Skills(g));
    FreeDestination(fs, plan);
  }

  lemma SkillsWithSystem(plan: Plan, g: Progress)
    requires Reasonable(plan, g) && g.systemHome
    ensures SKILLS in g.roots
  {
  }

  lemma SystemAtHome(disk: Disk, pre: Tree, fs: Tree, plan: Plan, g: Progress, written: bool)
    requires Tracks(pre, fs, plan, g) && Orderly(disk, pre, fs, plan, g, written) && g.systemHome
    ensures disk.exclusive && SYSTEM_PATH in fs && fs[SYSTEM_PATH].Dir? && IsDirAt(fs, Away(plan, [SKILLS]))
  {
    hide IsRoot, Tight, FromOriginal;
    assert SYSTEM_PATH[..1] == [SKILLS] && |SYSTEM_PATH| == 2;
    assert IsDirAt(pre, [SKILLS]) by { ParentIsDirectory(pre, SYSTEM_PATH); }
    assert InPlace(pre, fs, SYSTEM_PATH, Location(plan, g, SYSTEM_PATH));
    assert InPlace(pre, fs, [SKILLS], Location(plan, g, [SKILLS]));
  }

  lemma FreeDestination(fs: Tree, plan: Plan)
    requires SYSTEM_PATH in fs && IsDirAt(fs, Away(plan, [SKILLS])) && Away(plan, SYSTEM_PATH) !in fs
    ensures CanReplace(fs, SYSTEM_PATH, Away(plan, SYSTEM_PATH))
  {
    var away := Away(plan, SYSTEM_PATH);
    assert away[..|away| - 1] == Away(plan, [SKILLS]);
  }

  lemma SystemHasGone(disk: Disk, pre: Tree, before: Tree, plan: Plan, g: Progress, written: bool)
    requires Sound(plan) && Original(pre, plan) && Reasonable(plan, g) && Orderly(disk, pre, before, plan, g, written)
    requires g.systemHome && Apart(SYSTEM_PATH, Away(plan, SYSTEM_PATH))
    requires Relocates(pre, plan, g, g.(systemHome := false), SYSTEM_PATH, Away(plan, SYSTEM_PATH))
    ensures var fs := Moved(before, SYSTEM_PATH, Away(plan, SYSTEM_PATH)); var gone := g.(systemHome := false);
            && Calm(disk, pre, fs, plan, gone, Written(written) + {[SKILLS]})
            && IsDirAt(fs, [SKILLS]) && NothingBelow(fs, [SKILLS])
            && ConfigInOrder(pre, fs, plan, gone, written)
  {
    SoundMeans(plan);
    RootIsApart(plan);
    OrderlyIsTight(disk, pre, before, plan, g, written);
    var dst, gone := Away(plan, SYSTEM_PATH), g.(systemHome := false);
    var fs := Moved(before, SYSTEM_PATH, dst);
    SystemLeavesOthers(before, plan);
    assert SKILLS in g.roots && SystemInOrder(pre, before, g) && disk.exclusive && Skills(g) == {[SKILLS]};
    hide *;
    NoScaffoldAtSystem(plan, written);
    RenameIsTight(pre, before, plan, g, gone, SYSTEM_PATH, dst, Written(written) + {[SKILLS]});
    StillReasonable(plan, g);
    SystemIsTight(disk, pre, before, fs, plan, g, written);
  }

  lemma SystemIsTight(disk: Disk, pre: Tree, before: Tree, fs: Tree, plan: Plan, g: Progress, written: bool)
    requires Sound(plan) && Original(pre, plan) && Reasonable(plan, g.(systemHome := false)) && SKILLS in g.roots
    requires disk.exclusive && g.systemHome && SystemInOrder(pre, before, g) && ConfigInOrder(pre, before, plan, g, written)
    requires SameAt(before, fs, CONFIG) && SameAt(before, fs, [SKILLS])
    requires AtHome(plan, Written(written) + {[SKILLS]})
    requires Tight(pre, fs, plan, g.(systemHome := false), Written(written) + {[SKILLS]})
    ensures var gone := g.(systemHome := false);
            && Calm(disk, pre, fs, plan, gone, Written(written) + {[SKILLS]})
            && IsDirAt(fs, [SKILLS]) && NothingBelow(fs, [SKILLS])
            && ConfigInOrder(pre, fs, plan, gone, written)
  {
    hide Sound, Original, Tight, Reasonable, AtHome;
    RoomForSystem(pre, fs, plan, g.(systemHome := false), Written(written) + {[SKILLS]});
  }

  lemma StillReasonable(plan: Plan, g: Progress)
    requires Reasonable(plan, g)
    ensures Reasonable(plan, g.(systemHome := false))
  {
    hide IsRoot;
  }

  lemma SystemLeavesOthers(before: Tree, plan: Plan)
    requires Apart(SYSTEM_PATH, Away(plan, SYSTEM_PATH)) && plan.backup != SKILLS && plan.backup != CONFIG[0]
    ensures var fs := Moved(before, SYSTEM_PATH, Away(plan, SYSTEM_PATH)); SameAt(before, fs, CONFIG) && SameAt(before, fs, [SKILLS])
  {
    ConfigIsNoSkills();
    hide Moved, Under;
    var dst := Away(plan, SYSTEM_PATH);
    UnderHead(SYSTEM_PATH, CONFIG);
    UnderHead(SYSTEM_PATH, [SKILLS]);
    UnderHead(dst, CONFIG);
    UnderHead(dst, [SKILLS]);
    MovedElsewhere(before, SYSTEM_PATH, dst, CONFIG);
    MovedElsewhere(before, SYSTEM_PATH, dst, [SKILLS]);
  }

  lemma NoScaffoldAtSystem(plan: Plan, written: bool)
    requires Sound(plan)
    ensures forall q | Under(SYSTEM_PATH, q) :: q !in Written(written) + {[SKILLS]} && !Scaffold(plan, q)
  {
    SoundMeans(plan);
    hide IsRoot, Sound, Scaffold, Under;
    forall q | Under(SYSTEM_PATH, q)
      ensures q !in Written(written) + {[SKILLS]} && !Scaffold(plan, q)
    {
      UnderHead(SYSTEM_PATH, q);
      NoScaffold(plan, SYSTEM_PATH, q);
    }
  }

  lemma OrderlyBasics(disk: Disk, pre: Tree, fs: Tree, plan: Plan, g: Progress, written: bool)
    requires Orderly(disk, pre, fs, plan, g, written)
    ensures FromOriginal(pre, g.(systemHome := false)) && WellFormed(pre) && (written ==> g.configAway)
  {
    hide WellFormed, Tight;
  }

  lemma SkillsHaveGone(disk: Disk, pre: Tree, before: Tree, fs: Tree, plan: Plan, g: Progress, written: bool)
    requires Calm(disk, pre, before, plan, g, Written(written) + {[SKILLS]}) && !g.systemHome
    requires FromOriginal(pre, g) && WellFormed(pre) && (written ==> g.configAway)
    requires ConfigInOrder(pre, before, plan, g, written) && fs == before - {[SKILLS]}
    ensures Orderly(disk, pre, fs, plan, g, written)
  {
    ConfigIsNoSkills();
    hide Scaffold, Housed, WellFormed;
  }

  /** The rewritten configuration goes; one that someone else wrote in between stays. */
  method ClearConfig(disk: Disk, plan: Plan, ghost pre: Tree, ghost g: Progress, written: bool) returns (clean: bool)
    requires Sound(plan) && Tracks(pre, disk.fs, plan, g) && g.configAway
    modifies disk
    ensures Tracks(pre, disk.fs, plan, g)
    ensures disk.exclusive && clean ==> CONFIG !in disk.fs
    ensures disk.exclusive ==> forall q | q != CONFIG :: SameAt(old(disk.fs), disk.fs, q)
    ensures CONFIG in old(disk.fs) && (!written || old(disk.fs)[CONFIG] != File(plan.candidate, plan.configMode)) ==>
              !clean && SameAt(old(disk.fs), disk.fs, CONFIG)
    ensures (disk.exclusive && disk.reliable &&
             (CONFIG in old(disk.fs) ==> written && old(disk.fs)[CONFIG] == File(plan.candidate, plan.configMode))) ==> clean
    ensures disk.reliable && !clean ==> CONFIG in disk.fs
  {
    SoundMeans(plan);
    hide IsRoot, Tracks, Sound, Location;
    ghost var before := disk.fs;
    Interfere(disk, plan.backup);
    InterferenceIsHarmless(pre, before, disk.fs, plan, g);
    clean := true;
    if CONFIG in disk.fs {
      if !written || disk.fs[CONFIG] != File(plan.candidate, plan.configMode) { return false; }
      ghost var mid := disk.fs;
      clean := disk.Unlink(CONFIG);
      UntrackedChange(pre, mid, disk.fs, plan, g, CONFIG) by { PathIsFree(pre, plan, g); }
    }
  }

  /** The original configuration comes home from the backup. */
  method ReturnConfig(disk: Disk, plan: Plan, ghost pre: Tree, start: Progress) returns (clean: bool, g: Progress)
    requires Sound(plan) && Original(pre, plan) && Tracks(pre, disk.fs, plan, start) && start.configAway
    modifies disk
    ensures Tracks(pre, disk.fs, plan, g) && g == start.(configAway := !clean)
    ensures Apart(ConfigAway(plan), CONFIG)
    ensures Relocates(pre, plan, start, start.(configAway := false), ConfigAway(plan), CONFIG)
    ensures disk.exclusive && disk.reliable && CanReplace(old(disk.fs), ConfigAway(plan), CONFIG) ==> clean
    ensures disk.exclusive && clean ==> disk.fs == Moved(old(disk.fs), ConfigAway(plan), CONFIG)
    ensures disk.reliable && !clean ==> !CanReplace(disk.fs, ConfigAway(plan), CONFIG)
  {
    SoundMeans(plan);
    hide IsRoot, Tracks, Sound, Original, Relocates, Location, Moved, CanReplace;
    TracksIsReasonable(pre, disk.fs, plan, start);
    ConfigMoves(pre, plan, start);
    ConfigIsDeep(plan);
    ConfigAboveSkills(plan);
    assert start.(configAway := true) == start;
    clean := Rename(disk, ConfigAway(plan), CONFIG, plan, pre, start, start.(configAway := false)) by {
      TracksSkills(pre, disk.fs, plan, start);
    }
    g := start.(configAway := !clean);
  }

  /** The configuration comes back unless someone wrote to its path in between. */
  method RecoverConfig(disk: Disk, plan: Plan, ghost pre: Tree, start: Progress, written: bool)
    returns (clean: bool, g: Progress)
    requires Sound(plan) && Original(pre, plan) && Tracks(pre, disk.fs, plan, start)
    modifies disk
    ensures Tracks(pre, disk.fs, plan, g) && g == start.(configAway := g.configAway)
    ensures clean ==> !g.configAway
    ensures start.configAway && CONFIG in old(disk.fs) &&
            (!written || old(disk.fs)[CONFIG] != File(plan.candidate, plan.configMode)) ==>
              !clean && g.configAway && SameAt(old(disk.fs), disk.fs, CONFIG)
    ensures Orderly(disk, pre, old(disk.fs), plan, start, written) && !start.systemHome && disk.reliable ==>
      clean && Orderly(disk, pre, disk.fs, plan, g, false)
    ensures disk.reliable && WellFormed(pre) ==> AwayIsTaken(pre, disk.fs, g, CONFIG)
  {
    hide IsRoot, Tracks, Sound, Original, Relocates, Location, Orderly, Moved, CanReplace, WellFormed, AwayIsTaken;
    ghost var orderly := Orderly(disk, pre, disk.fs, plan, start, written) && !start.systemHome;
    if orderly { OrderlyMeans(disk, pre, disk.fs, plan, start, written); }
    g, clean := start, true;
    ConfigOnlyAway(pre, disk.fs, plan, g);
    if !g.configAway { return; }
    ghost var before := disk.fs;
    clean := ClearConfig(disk, plan, pre, g, written);
    ConfigOnlyAway(pre, disk.fs, plan, g);
    if !clean { return; }
    ghost var free := disk.fs;
    if orderly { ConfigCanReturn(disk, pre, before, free, plan, g, written); }
    clean, g := ReturnConfig(disk, plan, pre, start);
    ConfigOnlyAway(pre, disk.fs, plan, g);
    if !clean && disk.reliable && WellFormed(pre) && CONFIG in pre && CONFIG !in disk.fs { ConfigCanComeHome(pre, disk.fs, plan, g); }
    if clean && orderly { ConfigHasReturned(disk, pre, free, plan, start); }
  }

  lemma ConfigOnlyAway(pre: Tree, fs: Tree, plan: Plan, g: Progress)
    requires Sound(plan) && Tracks(pre, fs, plan, g)
    ensures CONFIG in fs || CONFIG !in pre || !g.configAway ==> AwayIsTaken(pre, fs, g, CONFIG)
  {
    ConfigIsNoRoot();
    hide IsRoot;
    assert CONFIG in plan.activated ==> Activatable(plan, CONFIG);
  }

  lemma ConfigCanComeHome(pre: Tree, fs: Tree, plan: Plan, g: Progress)
    requires Sound(plan) && Tracks(pre, fs, plan, g) && WellFormed(pre) && g.configAway && CONFIG in pre && CONFIG !in fs
    ensures CanReplace(fs, ConfigAway(plan), CONFIG)
  {
    ConfigIsNoRoot();
    TargetIsDirectory(pre, fs, plan, g);
    hide IsRoot, WellFormed;
    assert CONFIG in plan.activated ==> Activatable(plan, CONFIG);
    assert InPlace(pre, fs, CONFIG, Location(plan, g, CONFIG));
    assert CONFIG[..0] == [];
  }

  lemma OrderlyMeans(disk: Disk, pre: Tree, fs: Tree, plan: Plan, g: Progress, written: bool)
    requires Orderly(disk, pre, fs, plan, g, written)
    ensures disk.exclusive && ConfigInOrder(pre, fs, plan, g, written) && (written ==> g.configAway)
  {
    hide Tight, WellFormed, FromOriginal;
  }

  /** With the rewritten configuration out of the way, the original can return. */
  lemma ConfigCanReturn(disk: Disk, pre: Tree, before: Tree, fs: Tree, plan: Plan, g: Progress, written: bool)
    requires Sound(plan) && Original(pre, plan) && Tracks(pre, fs, plan, g) && g.configAway && !g.systemHome
    requires Orderly(disk, pre, before, plan, g, written)
    requires CONFIG !in fs && forall q | q != CONFIG :: SameAt(before, fs, q)
    ensures Orderly(disk, pre, fs, plan, g, false)
    ensures CanReplace(fs, ConfigAway(plan), CONFIG)
  {
    hide IsRoot, Original, Scaffold, Housed, Location, Sound;
    assert IsDirAt(pre, []);
    TargetIsDirectory(pre, fs, plan, g);
    forall q | q in fs
      ensures (Scaffold(plan, q) && fs[q].Dir?) || Housed(pre, plan, g, q)
    {
      assert q != CONFIG && SameAt(before, fs, q);
    }
    ConfigIsAway(pre, fs, plan, g);
    assert CONFIG[..0] == [];
  }

  lemma ConfigHasReturned(disk: Disk, pre: Tree, before: Tree, plan: Plan, g: Progress)
    requires Sound(plan) && Orderly(disk, pre, before, plan, g, false) && !g.systemHome
    requires Apart(ConfigAway(plan), CONFIG)
    requires Relocates(pre, plan, g, g.(configAway := false), ConfigAway(plan), CONFIG)
    ensures Orderly(disk, pre, Moved(before, ConfigAway(plan), CONFIG), plan, g.(configAway := false), false)
  {
    hide IsRoot, Relocates, Scaffold, Moved, Tight, Sound, WellFormed;
    forall q | Under(ConfigAway(plan), q)
      ensures !Scaffold(plan, q)
    {
      NoScaffold(plan, ConfigAway(plan), q);
    }
    assert Written(false) + Skills(g) == {};
    RenameIsTight(pre, before, plan, g, g.(configAway := false), ConfigAway(plan), CONFIG, {});
  }

  lemma ConfigAboveSkills(plan: Plan)
    requires plan.backup != SKILLS
    ensures !Under(ConfigAway(plan), [SKILLS]) && !Under(CONFIG, [SKILLS])
  {
    assert |CONFIG[0]| == 11 && |SKILLS| == 6;
    UnderHead(CONFIG, [SKILLS]);
    UnderHead(ConfigAway(plan), [SKILLS]);
  }

  lemma TracksSkills(pre: Tree, fs: Tree, plan: Plan, g: Progress)
    requires Tracks(pre, fs, plan, g)
    ensures g.systemHome ==> [SKILLS] in fs && SKILLS in g.roots
  {
  }

  /** One root or activated file comes back unless its path has been taken. */
  method RecoverItem(disk: Disk, top: Path, plan: Plan, ghost pre: Tree, ghost g: Progress, ghost after: Progress)
    returns (ok: bool)
    requires Sound(plan) && Original(pre, plan) && Tracks(pre, disk.fs, plan, g)
    requires (|top| == 1 && IsRoot(top[0]) && top[0] in g.roots && after == g.(roots := g.roots - {top[0]})) ||
             (top in plan.activated && top in g.activated && after == g.(activated := g.activated - {top}))
    modifies disk
    ensures Tracks(pre, disk.fs, plan, if ok then after else g)
    ensures top in old(disk.fs) ==> !ok && SameAt(old(disk.fs), disk.fs, top)
    ensures Orderly(disk, pre, old(disk.fs), plan, g, false) && !g.systemHome && disk.reliable ==>
      ok && Orderly(disk, pre, disk.fs, plan, after, false)
    ensures PlacesKept(old(disk.fs), disk.fs, plan)
    ensures disk.reliable && WellFormed(pre) && top in pre ==> ok || top in disk.fs
  {
    SoundMeans(plan);
    RootIsNotBackup(plan, top);
    hide IsRoot, Tracks, Sound, Original, Relocates, Location, Orderly, Moved, CanReplace, WellFormed;
    ghost var before := disk.fs;
    ghost var orderly := Orderly(disk, pre, before, plan, g, false) && !g.systemHome;
    if orderly { TopCanReturn(disk, pre, before, plan, g, top); }
    Interfere(disk, plan.backup);
    InterferenceIsHarmless(pre, before, disk.fs, plan, g);
    AddedKeeps(before, disk.fs, plan);
    if top in disk.fs { return false; }
    ghost var mid := disk.fs;
    ok := BringBack(disk, top, plan, pre, g, after);
    PlacesKeptTwice(before, mid, disk.fs, plan);
    if !ok && disk.reliable && WellFormed(pre) && top in pre && top !in disk.fs {
      TopHasGoneAway(pre, disk.fs, plan, g, top);
      CanComeHome(pre, disk.fs, plan, g, top);
    }
    if ok && orderly { TopHasReturned(disk, pre, before, plan, g, after, top); }
  }

  method BringBack(disk: Disk, top: Path, plan: Plan, ghost pre: Tree, ghost g: Progress, ghost after: Progress)
    returns (ok: bool)
    requires Sound(plan) && Original(pre, plan) && Tracks(pre, disk.fs, plan, g) && top !in disk.fs
    requires (|top| == 1 && IsRoot(top[0]) && top[0] in g.roots && after == g.(roots := g.roots - {top[0]})) ||
             (top in plan.activated && top in g.activated && after == g.(activated := g.activated - {top}))
    modifies disk
    ensures Tracks(pre, disk.fs, plan, if ok then after else g)
    ensures Apart(Away(plan, top), top) && Relocates(pre, plan, g, after, Away(plan, top), top)
    ensures disk.exclusive ==> disk.fs == if ok then Moved(old(disk.fs), Away(plan, top), top) else old(disk.fs)
    ensures disk.exclusive && disk.reliable && CanReplace(old(disk.fs), Away(plan, top), top) ==> ok
    ensures disk.reliable && !ok ==> !CanReplace(disk.fs, Away(plan, top), top)
    ensures PlacesKept(old(disk.fs), disk.fs, plan)
  {
    SoundMeans(plan);
    RootIsNotBackup(plan, top);
    assert IsPlace(plan, top);
    hide IsRoot, Tracks, Sound, Original, Relocates, Location, Moved, CanReplace, PlacesKept, IsPlace;
    ghost var before := disk.fs;
    TracksSkills(pre, disk.fs, plan, g);
    TracksIsReasonable(pre, disk.fs, plan, g);
    ComesBack(pre, plan, g, after, top);
    AwayIsDeep(plan, top);
    ok := Rename(disk, Away(plan, top), top, plan, pre, g, after);
    HomecomingKeeps(before, disk.fs, plan, Away(plan, top), top);
  }

  lemma AddedKeeps(before: Tree, fs: Tree, plan: Plan)
    requires forall p | p in before :: p in fs
    ensures PlacesKept(before, fs, plan)
  {
  }

  lemma TopHasGoneAway(pre: Tree, fs: Tree, plan: Plan, g: Progress, top: Path)
    requires Tracks(pre, fs, plan, g)
    requires (|top| == 1 && IsRoot(top[0]) && top[0] in g.roots) || (top in plan.activated && top in g.activated)
    ensures IsTop(plan, top) && GoneAway(g, top)
  {
    UnderHead(SYSTEM_PATH, top);
  }

  lemma TopCanReturn(disk: Disk, pre: Tree, fs: Tree, plan: Plan, g: Progress, top: Path)
    requires Sound(plan) && Original(pre, plan) && Tracks(pre, fs, plan, g) && !g.systemHome
    requires Orderly(disk, pre, fs, plan, g, false)
    requires (|top| == 1 && IsRoot(top[0]) && top[0] in g.roots) || (top in plan.activated && top in g.activated)
    ensures disk.exclusive && top !in fs && CanReplace(fs, Away(plan, top), top)
  {
    hide IsRoot, Original, Scaffold, Housed, Location, Sound, Tight;
    assert Written(false) + Skills(g) == {};
    assert |top| == 1 && top[0] in g.roots ==> top == [top[0]] && top in pre;
    RoomForTop(pre, fs, plan, g, {}, top);
    CanComeHome(pre, fs, plan, g, top);
  }

  lemma ConfigIsNoTop(plan: Plan, top: Path)
    requires Sound(plan) && IsTop(plan, top)
    ensures !Under(top, CONFIG) && !Under(Away(plan, top), CONFIG)
  {
    ConfigIsNoRoot();
    RootIsNotBackup(plan, top);
    hide IsRoot;
    UnderHead(top, CONFIG);
    UnderHead(Away(plan, top), CONFIG);
    assert top in plan.activated ==> Activatable(plan, top);
  }

  lemma TopHasReturned(disk: Disk, pre: Tree, before: Tree, plan: Plan, g: Progress, after: Progress, top: Path)
    requires Sound(plan) && Orderly(disk, pre, before, plan, g, false) && !g.systemHome && IsTop(plan, top)
    requires after == g.(roots := after.roots, activated := after.activated)
    requires after.roots <= g.roots && after.activated <= g.activated
    requires Apart(Away(plan, top), top) && Relocates(pre, plan, g, after, Away(plan, top), top)
    ensures Orderly(disk, pre, Moved(before, Away(plan, top), top), plan, after, false)
  {
    ConfigIsNoTop(plan, top);
    OrderlyIsEmpty(disk, pre, before, plan, g);
    hide *;
    MovedElsewhere(before, Away(plan, top), top, CONFIG);
    NothingIsHome(plan);
    TopIsTight(pre, before, plan, g, after, Away(plan, top), top, top, {});
    OrderlyStays(disk, pre, before, Moved(before, Away(plan, top), top), plan, g, after);
  }

  lemma NothingIsHome(plan: Plan)
    ensures AtHome(plan, {})
  {
  }

  lemma OrderlyIsEmpty(disk: Disk, pre: Tree, fs: Tree, plan: Plan, g: Progress)
    requires Orderly(disk, pre, fs, plan, g, false) && !g.systemHome
    ensures Tight(pre, fs, plan, g, {})
  {
    hide Tight, WellFormed;
    assert Written(false) + Skills(g) == {};
  }

  lemma OrderlyStays(disk: Disk, pre: Tree, before: Tree, fs: Tree, plan: Plan, g: Progress, after: Progress)
    requires Orderly(disk, pre, before, plan, g, false) && !g.systemHome
    requires after == g.(roots := after.roots, activated := after.activated)
    requires after.roots <= g.roots && after.activated <= g.activated
    requires Tight(pre, fs, plan, after, {}) && SameAt(before, fs, CONFIG)
    ensures Orderly(disk, pre, fs, plan, after, false)
  {
    hide Tight, WellFormed;
    assert Written(false) + Skills(after) == {};
  }

  lemma RootIsNotBackup(plan: Plan, top: Path)
    requires Sound(plan)
    requires (|top| == 1 && IsRoot(top[0])) || top in plan.activated
    ensures |top| > 0 && top[0] != plan.backup && (top in plan.activated ==> top[0] != SKILLS)
  {
    assert IsRoot(SKILLS);
  }

  ghost predicate ParentsStay(inspection: Inspection) { forall t, f :: inspection.parent(t, f) }

  method RecoverActivated(disk: Disk, plan: Plan, inspection: Inspection, ghost pre: Tree, start: Progress)
    returns (clean: bool, g: Progress)
    requires Sound(plan) && Original(pre, plan) && Tracks(pre, disk.fs, plan, start)
    modifies disk
    ensures Tracks(pre, disk.fs, plan, g) && g == start.(activated := g.activated)
    ensures clean ==> g.activated == {}
    ensures (Orderly(disk, pre, old(disk.fs), plan, start, false) && !start.systemHome && disk.reliable &&
             ParentsStay(inspection)) ==> clean && Orderly(disk, pre, disk.fs, plan, g, false)
    ensures PlacesKept(old(disk.fs), disk.fs, plan)
    ensures disk.reliable && WellFormed(pre) && ParentsStay(inspection) ==> FilesTaken(pre, disk.fs, plan, g, 0)
  {
    TracksIsReasonable(pre, disk.fs, plan, start);
    hide IsRoot, Sound, Original, Location, Orderly, WellFormed, PlacesKept, AwayIsTaken, Tracks, FilesTaken, FilesListed;
    AllFilesListed(start.activated, plan.activated);
    ghost var before := disk.fs;
    AddedKeeps(before, before, plan);
    ghost var back := disk.reliable && WellFormed(pre) && ParentsStay(inspection);
    NoFileTaken(pre, before, plan, start);
    ghost var orderly := Orderly(disk, pre, disk.fs, plan, start, false) && !start.systemHome && disk.reliable &&
      ParentsStay(inspection);
    g, clean := start, true;
    var k := |plan.activated|;
    while k > 0
      invariant orderly ==> clean && Orderly(disk, pre, disk.fs, plan, g, false)
      invariant 0 <= k <= |plan.activated|
      invariant PlacesKept(before, disk.fs, plan)
      invariant back ==> FilesTaken(pre, disk.fs, plan, g, k)
      invariant Tracks(pre, disk.fs, plan, g) && g == start.(activated := g.activated)
      invariant clean ==> FilesListed(g.activated, plan.activated, k)
    {
      k := k - 1;
      ghost var mid, was := disk.fs, g;
      var ok;
      ok, g := RecoverFile(disk, plan.activated[k], plan, inspection, pre, g);
      LastOfFiles(was.activated, plan.activated, k);
      clean := clean && ok;
      PlacesKeptTwice(before, mid, disk.fs, plan);
      if back { OneMoreFileTaken(pre, mid, disk.fs, plan, was, g, k); }
    }
    NoFileListed(g.activated, plan.activated);
  }

  ghost predicate FilesListed(files: set<Path>, activated: seq<Path>, k: int) {
    0 <= k <= |activated| && forall f | f in files :: f in activated[..k]
  }

  lemma AllFilesListed(files: set<Path>, activated: seq<Path>)
    requires forall f | f in files :: f in activated
    ensures FilesListed(files, activated, |activated|)
  {
    assert activated[..|activated|] == activated;
  }

  lemma NoFileListed(files: set<Path>, activated: seq<Path>)
    ensures FilesListed(files, activated, 0) ==> files == {}
  {
  }

  lemma LastOfFiles(files: set<Path>, activated: seq<Path>, k: nat)
    requires k < |activated|
    ensures FilesListed(files, activated, k + 1) ==> FilesListed(files - {activated[k]}, activated, k)
    ensures FilesListed(files, activated, k + 1) && activated[k] !in files ==> FilesListed(files, activated, k)
  {
    assert activated[..k + 1] == activated[..k] + [activated[k]];
  }

  /** One activated file: unless its parent is another one now, it comes back or its path is found taken. */
  method RecoverFile(disk: Disk, f: Path, plan: Plan, inspection: Inspection, ghost pre: Tree, start: Progress)
    returns (ok: bool, g: Progress)
    requires Sound(plan) && Original(pre, plan) && Tracks(pre, disk.fs, plan, start) && f in plan.activated
    modifies disk
    ensures Tracks(pre, disk.fs, plan, g)
    ensures g == start || g == start.(activated := start.activated - {f})
    ensures ok ==> g == start.(activated := start.activated - {f})
    ensures (Orderly(disk, pre, old(disk.fs), plan, start, false) && !start.systemHome && disk.reliable &&
             ParentsStay(inspection)) ==> ok && Orderly(disk, pre, disk.fs, plan, g, false)
    ensures PlacesKept(old(disk.fs), disk.fs, plan)
    ensures disk.reliable && WellFormed(pre) && ParentsStay(inspection) ==> AwayIsTaken(pre, disk.fs, g, f)
  {
    hide IsRoot, Sound, Original, Location, Orderly, WellFormed, PlacesKept, AwayIsTaken, Tracks;
    ghost var before := disk.fs;
    AddedKeeps(before, before, plan);
    g, ok := start, true;
    ghost var after := start.(activated := start.activated - {f});
    if f in start.activated {
      ok := inspection.parent(disk.fs, f);
      if ok { ok := RecoverItem(disk, f, plan, pre, start, after); }
      if ok { g := g.(activated := g.activated - {f}); }
    } else {
      assert start.activated - {f} == start.activated;
    }
    FileIsTaken(pre, disk.fs, plan, g, f);
  }

  /** The files from the `k`-th on are back, or their paths are taken. */
  ghost predicate FilesTaken(pre: Tree, fs: Tree, plan: Plan, g: Progress, k: int) {
    0 <= k && forall i | k <= i < |plan.activated| :: AwayIsTaken(pre, fs, g, plan.activated[i])
  }

  /** What is still away was away before, so its path is still taken. */
  lemma NoFileTaken(pre: Tree, fs: Tree, plan: Plan, g: Progress)
    ensures FilesTaken(pre, fs, plan, g, |plan.activated|)
  {
  }

  lemma OneMoreFileTaken(pre: Tree, before: Tree, fs: Tree, plan: Plan, was: Progress, g: Progress, k: nat)
    requires PlacesKept(before, fs, plan) && g == was.(activated := g.activated) && g.activated <= was.activated
    requires k < |plan.activated| && FilesTaken(pre, before, plan, was, k + 1) && AwayIsTaken(pre, fs, g, plan.activated[k])
    ensures FilesTaken(pre, fs, plan, g, k)
  {
    hide IsRoot, Under;
  }

  lemma FileIsTaken(pre: Tree, fs: Tree, plan: Plan, g: Progress, f: Path)
    requires Sound(plan) && Tracks(pre, fs, plan, g) && f in plan.activated
    ensures f !in g.activated || f !in pre || f in fs ==> AwayIsTaken(pre, fs, g, f)
  {
    assert Activatable(plan, f);
    hide IsRoot;
  }

  method RecoverRoots(disk: Disk, plan: Plan, ghost pre: Tree, start: Progress) returns (clean: bool, g: Progress)
    requires Sound(plan) && Original(pre, plan) && Tracks(pre, disk.fs, plan, start)
    modifies disk
    ensures Tracks(pre, disk.fs, plan, g)
    ensures g == start.(roots := g.roots)
    ensures clean ==> g.roots == {}
    ensures Orderly(disk, pre, old(disk.fs), plan, start, false) && !start.systemHome && disk.reliable ==>
      clean && Orderly(disk, pre, disk.fs, plan, g, false)
    ensures PlacesKept(old(disk.fs), disk.fs, plan) && g.roots <= start.roots
    ensures disk.reliable && WellFormed(pre) ==> forall n | n in MANAGED_ROOTS :: AwayIsTaken(pre, disk.fs, g, [n])
  {
    RootsAreListed(plan, start, pre, disk.fs);
    AllRootsTaken(pre, disk.fs, start);
    hide IsRoot, Sound, Original, Location, Tracks, Orderly, WellFormed, PlacesKept, AwayIsTaken, RootsTaken, RootsListed;
    ghost var before := disk.fs;
    AddedKeeps(before, before, plan);
    ghost var back := disk.reliable && WellFormed(pre);
    ghost var orderly := Orderly(disk, pre, disk.fs, plan, start, false) && !start.systemHome && disk.reliable;
    g, clean := start, true;
    var k := |MANAGED_ROOTS|;
    while k > 0
      invariant 0 <= k <= |MANAGED_ROOTS|
      invariant orderly ==> clean && Orderly(disk, pre, disk.fs, plan, g, false)
      invariant PlacesKept(before, disk.fs, plan) && g.roots <= start.roots
      invariant back ==> RootsTaken(pre, disk.fs, g, k)
      invariant Tracks(pre, disk.fs, plan, g) && g == start.(roots := g.roots)
      invariant clean ==> RootsListed(g.roots, k)
    {
      k := k - 1;
      ghost var mid, was := disk.fs, g;
      var ok;
      ok, g := RecoverRoot(disk, MANAGED_ROOTS[k], plan, pre, g);
      LastOfPrefix(was.roots, k);
      clean := clean && ok;
      PlacesKeptTwice(before, mid, disk.fs, plan);
      if back { OneMoreRootTaken(pre, mid, disk.fs, plan, was, g, k); }
    }
    NoneListed(g.roots);
    AllRootsTaken(pre, disk.fs, g);
  }

  /** The roots from the `k`-th on are back, or their paths are taken. */
  ghost predicate RootsTaken(pre: Tree, fs: Tree, g: Progress, k: int) {
    0 <= k && forall i | k <= i < |MANAGED_ROOTS| :: AwayIsTaken(pre, fs, g, [MANAGED_ROOTS[i]])
  }

  predicate RootsListed(roots: set<string>, k: nat)
    requires k <= |MANAGED_ROOTS|
  {
    forall n | n in roots :: n in MANAGED_ROOTS[..k]
  }

  lemma NoneListed(roots: set<string>)
    ensures RootsListed(roots, 0) ==> roots == {}
  {
  }

  lemma AllRootsTaken(pre: Tree, fs: Tree, g: Progress)
    ensures RootsTaken(pre, fs, g, 0) ==> forall n | n in MANAGED_ROOTS :: AwayIsTaken(pre, fs, g, [n])
    ensures RootsTaken(pre, fs, g, |MANAGED_ROOTS|)
  {
    hide AwayIsTaken;
  }

  /** One root, if it is away. */
  method RecoverRoot(disk: Disk, n: string, plan: Plan, ghost pre: Tree, start: Progress) returns (ok: bool, g: Progress)
    requires Sound(plan) && Original(pre, plan) && Tracks(pre, disk.fs, plan, start) && n in MANAGED_ROOTS
    modifies disk
    ensures Tracks(pre, disk.fs, plan, g)
    ensures g == start.(roots := if ok then start.roots - {n} else start.roots)
    ensures Orderly(disk, pre, old(disk.fs), plan, start, false) && !start.systemHome && disk.reliable ==>
      ok && Orderly(disk, pre, disk.fs, plan, g, false)
    ensures PlacesKept(old(disk.fs), disk.fs, plan)
    ensures disk.reliable && WellFormed(pre) ==> AwayIsTaken(pre, disk.fs, g, [n])
  {
    assert IsRoot(n);
    hide IsRoot, Sound, Original, Location, Tracks, Orderly, WellFormed, PlacesKept, AwayIsTaken;
    AddedKeeps(disk.fs, disk.fs, plan);
    ok, g := true, start;
    if n in g.roots {
      ok := RecoverItem(disk, [n], plan, pre, g, g.(roots := g.roots - {n}));
      if ok { g := g.(roots := g.roots - {n}); }
    } else {
      assert start.roots - {n} == start.roots;
    }
    RootIsTaken(pre, disk.fs, plan, g, n);
  }

  lemma OneMoreRootTaken(pre: Tree, before: Tree, fs: Tree, plan: Plan, was: Progress, g: Progress, k: nat)
    requires PlacesKept(before, fs, plan) && g == was.(roots := g.roots) && g.roots <= was.roots
    requires k < |MANAGED_ROOTS| && RootsTaken(pre, before, was, k + 1) && AwayIsTaken(pre, fs, g, [MANAGED_ROOTS[k]])
    ensures RootsTaken(pre, fs, g, k)
  {
    hide Under;
    assert forall i | 0 <= i < |MANAGED_ROOTS| :: IsPlace(plan, [MANAGED_ROOTS[i]]);
  }

  lemma RootIsTaken(pre: Tree, fs: Tree, plan: Plan, g: Progress, n: string)
    requires Sound(plan) && Tracks(pre, fs, plan, g) && IsRoot(n)
    ensures n !in g.roots || [n] !in pre || [n] in fs ==> AwayIsTaken(pre, fs, g, [n])
  {
    ConfigIsNoRoot();
    assert [n] in plan.activated ==> Activatable(plan, [n]);
    hide IsRoot;
  }

  lemma LastOfPrefix(roots: set<string>, k: nat)
    requires k < |MANAGED_ROOTS|
    ensures RootsListed(roots, k + 1) ==> RootsListed(roots - {MANAGED_ROOTS[k]}, k)
  {
    assert MANAGED_ROOTS[..k + 1] == MANAGED_ROOTS[..k] + [MANAGED_ROOTS[k]];
  }

  lemma RootsAreListed(plan: Plan, g: Progress, pre: Tree, fs: Tree)
    requires Tracks(pre, fs, plan, g)
    ensures RootsListed(g.roots, |MANAGED_ROOTS|)
  {
    assert MANAGED_ROOTS[..|MANAGED_ROOTS|] == MANAGED_ROOTS;
  }

  /** The whole recovery.  Without errors everything original is at its path. */
  method Recover(disk: Disk, plan: Plan, inspection: Inspection, ghost pre: Tree, start: Progress, written: bool)
    returns (clean: bool)
    requires Sound(plan) && Original(pre, plan) && Tracks(pre, disk.fs, plan, start)
    modifies disk
    ensures clean ==> forall p | p in pre :: InPlace(pre, disk.fs, p, p)
    ensures Conserves(pre, disk.fs, plan) && IsDirAt(disk.fs, [plan.backup])
    ensures (Orderly(disk, pre, old(disk.fs), plan, start, written) && disk.reliable && ParentsStay(inspection)) ==>
      clean && OnlyOriginals(pre, disk.fs, plan, {})
    ensures disk.reliable && WellFormed(pre) ==> AllBackOrTaken(pre, disk.fs, plan, ParentsStay(inspection))
  {
    hide IsRoot, Sound, Original, Location, Tracks, Conserves, InPlace, Orderly, OnlyOriginals, AwayIsTaken, WellFormed, PlacesKept,
         AllBackOrTaken;
    ghost var orderly := Orderly(disk, pre, disk.fs, plan, start, written) && disk.reliable && ParentsStay(inspection);
    var system, g := RecoverSystem(disk, plan, pre, start, written);
    var config, files, roots;
    config, g := RecoverConfig(disk, plan, pre, g, written);
    ghost var first, homeConfig := disk.fs, g;
    files, g := RecoverActivated(disk, plan, inspection, pre, g);
    ghost var second, homeFiles := disk.fs, g;
    roots, g := RecoverRoots(disk, plan, pre, g);
    clean := system && config && files && roots;
    TrackedIsConserved(pre, disk.fs, plan, g);
    BackupIsThere(pre, disk.fs, plan, g);
    if disk.reliable && WellFormed(pre) {
      PlacesKeptTwice(first, second, disk.fs, plan);
      ConfigStaysTaken(pre, first, disk.fs, plan, homeConfig, g);
      AllAreBackOrTaken(pre, second, disk.fs, plan, homeFiles, g, ParentsStay(inspection));
    }
    if clean { NothingAwayIsHome(pre, disk.fs, plan, g); }
    if orderly { NothingIsLeft(disk, pre, disk.fs, plan, g); }
  }

  /** Whatever went wrong, every root and the configuration are back unless their paths are taken; so are the
      activated files, if their directories are still the same. */
  ghost predicate AllBackOrTaken(pre: Tree, fs: Tree, plan: Plan, sameParents: bool) {
    && (forall n | n in MANAGED_ROOTS && [n] in pre :: BackOrTaken(pre, fs, plan, [n]))
    && (CONFIG in pre ==> BackOrTaken(pre, fs, plan, CONFIG))
    && (sameParents ==> forall f | f in plan.activated && f in pre :: BackOrTaken(pre, fs, plan, f))
  }

  lemma ConfigStaysTaken(pre: Tree, before: Tree, fs: Tree, plan: Plan, was: Progress, g: Progress)
    requires Sound(plan) && Tracks(pre, fs, plan, g) && PlacesKept(before, fs, plan) && g.configAway == was.configAway
    requires AwayIsTaken(pre, before, was, CONFIG)
    ensures AwayIsTaken(pre, fs, g, CONFIG)
  {
    ConfigOnlyAway(pre, fs, plan, g);
    hide IsRoot, Under, Tracks, Sound;
  }

  lemma AllAreBackOrTaken(pre: Tree, before: Tree, fs: Tree, plan: Plan, was: Progress, g: Progress, sameParents: bool)
    requires Sound(plan) && Original(pre, plan) && Tracks(pre, fs, plan, g) && Conserves(pre, fs, plan)
    requires PlacesKept(before, fs, plan) && g == was.(roots := g.roots) && g.roots <= was.roots
    requires AwayIsTaken(pre, fs, g, CONFIG)
    requires forall n | n in MANAGED_ROOTS :: AwayIsTaken(pre, fs, g, [n])
    requires sameParents ==> FilesTaken(pre, before, plan, was, 0)
    ensures AllBackOrTaken(pre, fs, plan, sameParents)
  {
    hide Sound, Original, Tracks, Conserves, BackOrTaken, Under;
    forall n | n in MANAGED_ROOTS && [n] in pre
      ensures BackOrTaken(pre, fs, plan, [n])
    {
      assert IsPlace(plan, [n]);
      TakenIsBackOrTaken(pre, fs, plan, g, [n]);
    }
    if CONFIG in pre { TakenIsBackOrTaken(pre, fs, plan, g, CONFIG); }
    forall f | sameParents && f in plan.activated && f in pre
      ensures BackOrTaken(pre, fs, plan, f)
    {
      var i :| 0 <= i < |plan.activated| && plan.activated[i] == f;
      assert IsPlace(plan, f) && AwayIsTaken(pre, before, was, plan.activated[i]);
      TakenIsBackOrTaken(pre, fs, plan, g, f);
    }
  }

  /** Beside the backup there is nothing but original entries and what is listed. */
  ghost predicate OnlyOriginals(pre: Tree, fs: Tree, plan: Plan, extra: set<Path>) {
    forall q | q in fs :: q in pre || q in extra || Under([plan.backup], q)
  }

  lemma NothingIsLeft(disk: Disk, pre: Tree, fs: Tree, plan: Plan, g: Progress)
    requires Sound(plan) && Original(pre, plan) && Tracks(pre, fs, plan, g) && Orderly(disk, pre, fs, plan, g, false)
    requires !g.systemHome
    ensures OnlyOriginals(pre, fs, plan, {})
  {
    hide IsRoot, Sound, Original, Location, Scaffold, Housed;
    forall q | q in fs && !Under([plan.backup], q)
      ensures q in pre
    {
      NotInBackup(plan, q);
      ScaffoldIsBackup(plan, q);
      HousedIsTight(pre, fs, plan, g, {}, q);
      HousedMeans(pre, plan, g, q);
    }
  }

  lemma NotInBackup(plan: Plan, q: Path)
    requires !Under([plan.backup], q)
    ensures q == [] || q[0] != plan.backup
  {
    assert q != [] ==> q[..1] == [q[0]];
  }

  lemma ScaffoldIsBackup(plan: Plan, q: Path)
    ensures Scaffold(plan, q) ==> Under([plan.backup], q)
  {
    if MadeForActivated(plan, q) { assert [plan.backup, MANAGED][..1] == [plan.backup]; }
  }

  lemma BackupIsThere(pre: Tree, fs: Tree, plan: Plan, g: Progress)
    requires Tracks(pre, fs, plan, g)
    ensures IsDirAt(fs, [plan.backup])
  {
  }

  // ---------------------------------------------------------------- the transaction

  /** How an uninstallation can end.  `Removed` and `Residue` are the exits after final verification. */
  datatype Ending = NotStarted | Removed | Residue | RolledBack | Incomplete

  /** What no uninstallation takes away: everything unmanaged, and the `.system` Skills. */
  predicate Survives(plan: Plan, pre: Tree, p: Path) {
    if p != [] && IsRoot(p[0]) then IsDirAt(pre, SYSTEM_PATH) && Under(SYSTEM_PATH, p)
    else p !in plan.activated && (p != CONFIG || !plan.rewriteConfig)
  }

  lemma SurvivorsAreHome(pre: Tree, fs: Tree, plan: Plan, g: Progress)
    requires Tracks(pre, fs, plan, g)
    requires IsDirAt(pre, SYSTEM_PATH) ==> g.systemHome
    requires g.configAway ==> plan.rewriteConfig
    ensures forall p | p in pre && Survives(plan, pre, p) :: InPlace(pre, fs, p, p)
  {
    hide IsRoot;
    forall p | p in pre && Survives(plan, pre, p)
      ensures InPlace(pre, fs, p, p)
    {
      assert InPlace(pre, fs, p, Location(plan, g, p));
    }
  }

  /** Dropping the backup leaves everything outside it as it is. */
  lemma DroppingTheBackup(pre: Tree, before: Tree, fs: Tree, plan: Plan, preserved: bool)
    requires PartlyRemoved(before, fs, [plan.backup]) && Sound(plan) && Original(pre, plan)
    ensures forall p | p in pre && InPlace(pre, before, p, p) :: InPlace(pre, fs, p, p)
    ensures Uninstalled(before, plan, preserved) ==> Uninstalled(fs, plan, preserved)
  {
    RootIsNotBackup(plan, [AGENTS]);
    RootIsNotBackup(plan, [STATE]);
    RootIsNotBackup(plan, [SKILLS]);
    hide IsRoot;
    forall p | p in pre && InPlace(pre, before, p, p)
      ensures InPlace(pre, fs, p, p)
    {
      UnderHead([plan.backup], p);
    }
    UnderHead([plan.backup], SYSTEM_PATH);
    UnderHead([plan.backup], CONFIG);
  }

  method PrepareBackup(disk: Disk, plan: Plan) returns (ok: bool)
    requires Sound(plan) && Original(disk.fs, plan)
    modifies disk
    ensures ok ==> Tight(old(disk.fs), disk.fs, plan, NOTHING, {})
    ensures disk.reliable && IsDirAt(old(disk.fs), []) ==> ok
    ensures !ok && disk.reliable ==> disk.fs == old(disk.fs)
    ensures ok ==> Tracks(old(disk.fs), disk.fs, plan, NOTHING)
    ensures forall p | p in old(disk.fs) :: InPlace(old(disk.fs), disk.fs, p, p)
  {
    hide IsRoot;
    ghost var pre := disk.fs;
    assert [plan.backup][..0] == [] && [plan.backup, MANAGED][..1] == [plan.backup];
    assert [plan.backup] !in pre && [plan.backup, MANAGED] !in pre;
    ok := disk.Mkdir([plan.backup], MANAGED_DIRECTORY_MODE);
    if !ok { return; }
    ok := disk.Mkdir([plan.backup, MANAGED], MANAGED_DIRECTORY_MODE);
    if ok { FreshIsTight(pre, disk.fs, plan); }
  }

  lemma FreshIsTight(pre: Tree, fs: Tree, plan: Plan)
    requires forall q | q !in {[plan.backup], [plan.backup, MANAGED]} :: SameAt(pre, fs, q)
    requires IsDirAt(fs, [plan.backup]) && IsDirAt(fs, [plan.backup, MANAGED])
    ensures Tight(pre, fs, plan, NOTHING, {})
  {
    hide MadeForActivated;
    forall q | q in fs
      ensures (Scaffold(plan, q) && fs[q].Dir?) || Housed(pre, plan, NOTHING, q)
    {
      if q !in {[plan.backup], [plan.backup, MANAGED]} {
        assert SameAt(pre, fs, q) && Location(plan, NOTHING, q) == q;
      }
    }
  }

  /** The plan was made for this tree. */
  ghost predicate Fits(plan: Plan, pre: Tree) {
    && (forall n | n in MANAGED_ROOTS :: [n] in pre)
    && (forall f | f in plan.activated :: f in pre)
    && ConfigAsPlanned(pre, plan)
  }

  /** What an uninstallation adds: the rewritten configuration, and a directory for `.system`. */
  function Added(plan: Plan, preserved: bool): set<Path> {
    (if plan.rewriteConfig then {CONFIG} else {}) + (if preserved then {[SKILLS]} else {})
  }

  lemma CalmIsOrderly(disk: Disk, pre: Tree, fs: Tree, plan: Plan, g: Progress)
    requires Calm(disk, pre, fs, plan, g, {}) && FromOriginal(pre, g) && WellFormed(pre) && !g.configAway && !g.systemHome
    ensures Orderly(disk, pre, fs, plan, g, false)
  {
    assert Written(false) + Skills(g) == {};
  }

  /** Everything managed goes into the backup. */
  method MoveAway(disk: Disk, plan: Plan, inspection: Inspection, ghost pre: Tree) returns (ok: bool, g: Progress)
    requires Sound(plan) && Original(pre, plan) && Tracks(pre, disk.fs, plan, NOTHING)
    modifies disk
    ensures Tracks(pre, disk.fs, plan, g) && g == NOTHING.(roots := g.roots, activated := g.activated)
    ensures ok ==> (forall n | n in MANAGED_ROOTS :: n in g.roots) && forall f | f in plan.activated :: f in g.activated
    ensures Calm(disk, pre, old(disk.fs), plan, NOTHING, {}) ==>
      Calm(disk, pre, disk.fs, plan, g, {}) && FromOriginal(pre, g)
    ensures (Calm(disk, pre, old(disk.fs), plan, NOTHING, {}) && disk.reliable && IsDirAt(pre, []) &&
             NeverComplains(inspection) && Fits(plan, pre)) ==> ok
  {
    hide IsRoot, Original, Location, Tracks, Sound, Tight;
    ok, g := MoveRoots(disk, plan, pre);
    if !ok { return; }
    if !inspection.locks(disk.fs) { return false, g; }
    ok, g := MoveActivated(disk, plan, inspection, pre, g);
    if !ok { return; }
    ok := inspection.managed(disk.fs);
  }

  /** Everything up to and including final verification. */
  method TakeAway(disk: Disk, plan: Plan, inspection: Inspection, ghost pre: Tree, preserved: bool)
    returns (ok: bool, g: Progress, written: bool)
    requires Sound(plan) && Original(pre, plan) && Tracks(pre, disk.fs, plan, NOTHING)
    requires preserved == IsDirAt(pre, SYSTEM_PATH)
    modifies disk
    ensures Tracks(pre, disk.fs, plan, g)
    ensures ok ==> Uninstalled(disk.fs, plan, preserved)
    ensures ok ==> forall p | p in pre && Survives(plan, pre, p) :: InPlace(pre, disk.fs, p, p)
    ensures Calm(disk, pre, old(disk.fs), plan, NOTHING, {}) && WellFormed(pre) && disk.reliable ==>
      Orderly(disk, pre, disk.fs, plan, g, written)
    ensures Calm(disk, pre, old(disk.fs), plan, NOTHING, {}) && WellFormed(pre) && ok ==>
      OnlySurvivors(pre, disk.fs, plan, Added(plan, preserved))
    ensures (Calm(disk, pre, old(disk.fs), plan, NOTHING, {}) && WellFormed(pre) && disk.reliable &&
             NeverComplains(inspection) && Fits(plan, pre)) ==> ok
  {
    assert SKILLS in MANAGED_ROOTS;
    assert WellFormed(pre) ==> IsDirAt(pre, []);
    hide IsRoot, Original, Location, Tracks, InPlace, Survives, Uninstalled, Sound, WellFormed, Tight, OnlySurvivors, Orderly,
         FromOriginal;
    ghost var calm := Calm(disk, pre, disk.fs, plan, NOTHING, {}) && WellFormed(pre);
    written := false;
    ok, g := MoveAway(disk, plan, inspection, pre);
    if calm { CalmIsOrderly(disk, pre, disk.fs, plan, g); }
    if !ok { return; }
    ghost var start := g;
    ok, g, written := RewriteConfig(disk, plan, pre, g);
    if calm && (ok || disk.reliable) { RewrittenIsOrderly(disk, pre, disk.fs, plan, start, g, written); }
    if !ok { return; }
    ghost var mid, rewritten := disk.fs, g;
    ok, g := RestoreSystem(disk, plan, pre, g, Written(written));
    if calm && (ok || disk.reliable) { RestoredIsOrderly(disk, pre, mid, disk.fs, plan, rewritten, g, written); }
    if !ok { return; }
    if !inspection.parents(disk.fs) { return false, g, written; }
    ok := VerifyUninstalledState(disk, plan, preserved);
    if ok { SurvivorsAreHome(pre, disk.fs, plan, g); }
    if calm {
      TakenAway(disk, pre, disk.fs, plan, g, written, preserved);
      if ok { NothingElseSurvives(disk, pre, disk.fs, plan, g, written, preserved); }
    }
  }

  lemma RewrittenIsOrderly(disk: Disk, pre: Tree, fs: Tree, plan: Plan, start: Progress, g: Progress, written: bool)
    requires FromOriginal(pre, start) && WellFormed(pre) && g == start.(configAway := g.configAway) && !start.systemHome
    requires Calm(disk, pre, fs, plan, g, Written(written)) && ConfigInOrder(pre, fs, plan, g, written)
    requires written ==> g.configAway
    ensures Orderly(disk, pre, fs, plan, g, written)
  {
    hide WellFormed, Tight;
    assert Written(written) + Skills(g) == Written(written);
  }

  lemma RestoredIsOrderly(disk: Disk, pre: Tree, before: Tree, fs: Tree, plan: Plan, start: Progress, g: Progress, written: bool)
    requires Orderly(disk, pre, before, plan, start, written) && g == start.(systemHome := g.systemHome)
    requires Calm(disk, pre, fs, plan, g, Written(written) + Skills(g)) && SystemInOrder(pre, fs, g)
    requires SameAt(before, fs, CONFIG)
    ensures Orderly(disk, pre, fs, plan, g, written)
  {
    hide WellFormed, Tight;
  }

  /** On an undisturbed target nothing is left for verification to object to. */
  lemma TakenAway(disk: Disk, pre: Tree, fs: Tree, plan: Plan, g: Progress, written: bool, preserved: bool)
    requires Sound(plan) && Original(pre, plan) && Tracks(pre, fs, plan, g)
    requires Orderly(disk, pre, fs, plan, g, written) && preserved == IsDirAt(pre, SYSTEM_PATH)
    requires forall n | n in MANAGED_ROOTS :: n in g.roots
    requires forall f | f in plan.activated :: f in g.activated
    requires preserved ==> g.systemHome
    requires plan.rewriteConfig ==> g.configAway && CONFIG in fs
    ensures Uninstalled(fs, plan, preserved)
  {
    assert AGENTS in MANAGED_ROOTS && STATE in MANAGED_ROOTS && AGENTS != SKILLS && STATE != SKILLS;
    var extra := Written(written) + Skills(g);
    SoundMeans(plan);
    OrderlyIsTight(disk, pre, fs, plan, g, written);
    TracksIsReasonable(pre, fs, plan, g);
    hide IsRoot, Original, Sound, Tight, WellFormed, Orderly, Location, GoneAway, FromOriginal, Tracks, Away, Reasonable, AtHome;
    RoomForRoot(pre, fs, plan, g, extra, AGENTS);
    RoomForRoot(pre, fs, plan, g, extra, STATE);
    ActivatedAreGone(pre, fs, plan, g, extra);
    if preserved { SystemIsHome(pre, fs, plan, g); }
  }

  lemma OrderlyIsTight(disk: Disk, pre: Tree, fs: Tree, plan: Plan, g: Progress, written: bool)
    requires Sound(plan) && Orderly(disk, pre, fs, plan, g, written)
    ensures var extra := Written(written) + Skills(g);
            Tight(pre, fs, plan, g, extra) && AtHome(plan, extra) && extra <= {CONFIG, [SKILLS]}
    ensures ConfigInOrder(pre, fs, plan, g, written)
  {
    SoundMeans(plan);
    hide Tight, WellFormed;
  }

  lemma ActivatedAreGone(pre: Tree, fs: Tree, plan: Plan, g: Progress, extra: set<Path>)
    requires Sound(plan) && Original(pre, plan) && Reasonable(plan, g) && Tight(pre, fs, plan, g, extra)
    requires AtHome(plan, extra) && extra <= {CONFIG, [SKILLS]}
    requires forall f | f in plan.activated :: f in g.activated
    ensures forall f | f in plan.activated :: f !in fs
  {
    hide IsRoot, Original, Sound, Tight, Location, GoneAway, Away, Scaffold, Reasonable;
    forall f | f in plan.activated
      ensures f !in fs
    {
      AwayIsNoScaffold(plan, f);
      ActivatedIsNoSkills(plan, f);
      ActivatedIsGone(g, f);
      RoomForTop(pre, fs, plan, g, extra, f);
    }
  }

  lemma ActivatedIsGone(g: Progress, f: Path)
    requires f in g.activated
    ensures GoneAway(g, f)
  {
  }

  lemma SystemIsHome(pre: Tree, fs: Tree, plan: Plan, g: Progress)
    requires Tracks(pre, fs, plan, g) && g.systemHome && IsDirAt(pre, SYSTEM_PATH)
    ensures IsDirAt(fs, SYSTEM_PATH)
  {
    assert InPlace(pre, fs, SYSTEM_PATH, Location(plan, g, SYSTEM_PATH));
  }

  lemma ActivatedIsNoSkills(plan: Plan, f: Path)
    requires Sound(plan) && f in plan.activated
    ensures f != [SKILLS]
  {
    assert Activatable(plan, f) && IsRoot(SKILLS);
  }

  lemma RoomForRoot(pre: Tree, fs: Tree, plan: Plan, g: Progress, extra: set<Path>, n: string)
    requires Sound(plan) && Original(pre, plan) && Reasonable(plan, g) && Tight(pre, fs, plan, g, extra)
    requires AtHome(plan, extra) && extra <= {CONFIG, [SKILLS]} && n in MANAGED_ROOTS && n in g.roots && n != SKILLS
    ensures [n] !in fs
  {
    AwayIsNoScaffold(plan, [n]);
    hide Original, Sound, Tight;
    assert [n] != [SKILLS] by { assert [n][0] == n; }
    assert GoneAway(g, [n]);
    RoomForTop(pre, fs, plan, g, extra, [n]);
  }

  /** Beside the backup there is nothing but what no uninstallation takes away and what it adds. */
  ghost predicate OnlySurvivors(pre: Tree, fs: Tree, plan: Plan, extra: set<Path>) {
    forall q | q in fs :: (q in pre && Survives(plan, pre, q)) || q in extra || Under([plan.backup], q)
  }

  lemma NothingElseSurvives(disk: Disk, pre: Tree, fs: Tree, plan: Plan, g: Progress, written: bool, preserved: bool)
    requires Sound(plan) && Original(pre, plan) && Tracks(pre, fs, plan, g)
    requires Orderly(disk, pre, fs, plan, g, written) && preserved == IsDirAt(pre, SYSTEM_PATH)
    requires forall n | n in MANAGED_ROOTS :: n in g.roots
    requires forall f | f in plan.activated :: f in g.activated
    requires written <==> plan.rewriteConfig
    ensures OnlySurvivors(pre, fs, plan, Added(plan, preserved))
  {
    var extra := Written(written) + Skills(g);
    hide Sound, Original, Location, Scaffold, Housed, WellFormed;
    forall q | q in fs && !Under([plan.backup], q) && q !in Added(plan, preserved)
      ensures q in pre && Survives(plan, pre, q)
    {
      assert q !in extra;
      NotInBackup(plan, q);
      ScaffoldIsBackup(plan, q);
      HousedIsTight(pre, fs, plan, g, extra, q);
      HousedMeans(pre, plan, g, q);
    }
  }

  /** `_execute_uninstall`. */
  method ExecuteUninstall(disk: Disk, plan: Plan, inspection: Inspection) returns (ending: Ending)
    requires Sound(plan) && Original(disk.fs, plan)
    modifies disk
    ensures ending in {NotStarted, RolledBack} ==>
      forall p | p in old(disk.fs) :: InPlace(old(disk.fs), disk.fs, p, p)
    ensures ending.Incomplete? ==> Conserves(old(disk.fs), disk.fs, plan) && IsDirAt(disk.fs, [plan.backup])
    ensures ending.Incomplete? && disk.reliable && WellFormed(old(disk.fs)) ==>
      AllBackOrTaken(old(disk.fs), disk.fs, plan, ParentsStay(inspection))
    ensures ending in {Removed, Residue} ==>
      && Uninstalled(disk.fs, plan, IsDirAt(old(disk.fs), SYSTEM_PATH))
      && forall p | p in old(disk.fs) && Survives(plan, old(disk.fs), p) :: InPlace(old(disk.fs), disk.fs, p, p)
    ensures ending.Removed? ==> forall p | p in disk.fs :: !Under([plan.backup], p)
    ensures disk.exclusive && WellFormed(old(disk.fs)) && ending.Removed? ==>
      var pre := old(disk.fs);
      forall p | p in disk.fs :: (p in pre && Survives(plan, pre, p)) || p in Added(plan, IsDirAt(pre, SYSTEM_PATH))
    ensures (disk.exclusive && disk.reliable && WellFormed(old(disk.fs)) && ParentsStay(inspection)) ==>
      ending.Removed? || (ending.RolledBack? && disk.fs == old(disk.fs))
    ensures (disk.exclusive && disk.reliable && WellFormed(old(disk.fs)) && NeverComplains(inspection) &&
             Fits(plan, old(disk.fs))) ==> ending.Removed?
  {
    ghost var pre := disk.fs;
    var preserved := IsDirAt(disk.fs, SYSTEM_PATH);
    var ok := PrepareBackup(disk, plan);
    assert WellFormed(pre) ==> IsDirAt(pre, []);
    if !ok { return NotStarted; }
    hide IsRoot, Original, Location, Tracks, Conserves, InPlace, Survives, Uninstalled, Sound, Tight, Orderly, WellFormed,
         OnlySurvivors, OnlyOriginals, Fits, AllBackOrTaken;
    var g, written;
    ok, g, written := TakeAway(disk, plan, inspection, pre, preserved);
    ghost var before := disk.fs;
    if ok {
      var dropped := disk.Remove([plan.backup]);
      DroppingTheBackup(pre, before, disk.fs, plan, preserved);
      if dropped && OnlySurvivors(pre, before, plan, Added(plan, preserved)) {
        SurvivorsAreLeft(pre, before, disk.fs, plan, Added(plan, preserved));
      }
      return if dropped then Removed else Residue;
    }
    var clean := Recover(disk, plan, inspection, pre, g, written);
    if !clean { return Incomplete; }
    ghost var recovered := disk.fs;
    var dropped := disk.Remove([plan.backup]);
    DroppingTheBackup(pre, recovered, disk.fs, plan, preserved);
    if dropped && OnlyOriginals(pre, recovered, plan, {}) { OriginalsAreLeft(pre, recovered, disk.fs, plan); }
    return RolledBack;
  }

  lemma SurvivorsAreLeft(pre: Tree, before: Tree, fs: Tree, plan: Plan, extra: set<Path>)
    requires OnlySurvivors(pre, before, plan, extra) && fs == Without(before, [plan.backup])
    ensures forall p | p in fs :: (p in pre && Survives(plan, pre, p)) || p in extra
  {
    hide Survives, Under;
  }

  lemma OriginalsAreLeft(pre: Tree, before: Tree, fs: Tree, plan: Plan)
    requires OnlyOriginals(pre, before, plan, {}) && fs == Without(before, [plan.backup])
    requires forall p | p in pre :: InPlace(pre, fs, p, p)
    ensures fs == pre
  {
    hide Under;
    forall p
      ensures SameAt(pre, fs, p)
    {
      if p in pre { assert InPlace(pre, fs, p, p); }
    }
    SameEverywhere(pre, fs);
  }
}
