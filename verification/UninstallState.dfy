/** The state of an uninstallation: where every original entry is, what the uninstallation added, and what
    outside processes may do meanwhile. */
module UninstallState {
  import opened FileSystem
  import opened External
  import opened Installations
  import opened Transactions

  const MANAGED := "managed"
  const CONFIG: Path := ["config.toml"]
  const SYSTEM_PATH: Path := [SKILLS, SYSTEM]

  datatype Plan = Plan(
    backup: string,
    temporary: string,
    activated: seq<Path>,
    rewriteConfig: bool,
    original: Content,
    candidate: Content,
    configMode: nat)

  /** What plan construction guarantees: private names, and activated files apart from everything managed. */
  ghost predicate Sound(plan: Plan) {
    && !IsRoot(plan.backup) && plan.backup != CONFIG[0]
    && plan.temporary != plan.backup && !IsRoot(plan.temporary) && plan.temporary != CONFIG[0]
    && (forall f | f in plan.activated :: Activatable(plan, f))
    && (forall i, j | 0 <= i < j < |plan.activated| :: Apart(plan.activated[i], plan.activated[j]))
  }

  predicate Activatable(plan: Plan, f: Path) {
    |f| > 0 && !IsRoot(f[0]) && f[0] != plan.backup && f[0] != CONFIG[0] && f[0] != plan.temporary
  }

  /** What has been moved away so far, and whether `.system` is back home. */
  datatype Progress = Progress(roots: set<string>, activated: set<Path>, configAway: bool, systemHome: bool)

  function Away(plan: Plan, p: Path): Path { [plan.backup, MANAGED] + p }

  function ConfigAway(plan: Plan): Path { [plan.backup] + CONFIG }

  /** Where an entry of the original tree is while the uninstallation is under way. */
  function Location(plan: Plan, g: Progress, p: Path): Path {
    if p != [] && p[0] in g.roots then
      if g.systemHome && Under(SYSTEM_PATH, p) then p else Away(plan, p)
    else if p in g.activated then Away(plan, p)
    else if p == CONFIG && g.configAway then ConfigAway(plan)
    else p
  }

  /** The only two places an entry may ever be. */
  function BackupOf(plan: Plan, p: Path): Path { if p == CONFIG then ConfigAway(plan) else Away(plan, p) }

  ghost predicate Reasonable(plan: Plan, g: Progress) {
    && (forall n | n in g.roots :: IsRoot(n))
    && (forall f | f in g.activated :: f in plan.activated)
    && (g.systemHome ==> SKILLS in g.roots)
  }

  /** Every original entry is intact where the progress says it is, and the backup is there. */
  ghost predicate Tracks(pre: Tree, fs: Tree, plan: Plan, g: Progress) {
    && Reasonable(plan, g)
    && IsDirAt(fs, [plan.backup]) && IsDirAt(fs, [plan.backup, MANAGED])
    && (g.systemHome ==> [SKILLS] in fs)
    && (forall p | p in pre :: InPlace(pre, fs, p, Location(plan, g, p)))
  }

  predicate InPlace(pre: Tree, fs: Tree, p: Path, at: Path)
    requires p in pre
  {
    at in fs && fs[at] == pre[p]
  }

  /** Every original entry is at its path or in the backup. */
  ghost predicate Conserves(pre: Tree, fs: Tree, plan: Plan) {
    forall p | p in pre :: InPlace(pre, fs, p, p) || InPlace(pre, fs, p, BackupOf(plan, p))
  }

  lemma TrackedIsConserved(pre: Tree, fs: Tree, plan: Plan, g: Progress)
    requires Tracks(pre, fs, plan, g) && Sound(plan)
    ensures Conserves(pre, fs, plan)
  {
    hide IsRoot;
    ConfigIsNoRoot();
    forall p | p in pre
      ensures InPlace(pre, fs, p, p) || InPlace(pre, fs, p, BackupOf(plan, p))
    {
      assert InPlace(pre, fs, p, Location(plan, g, p));
    }
  }

  lemma ConfigIsNoRoot()
    ensures !IsRoot(CONFIG[0])
  {
    assert |CONFIG[0]| == 11 && |AGENTS| == 9 && |SKILLS| == 6 && |STATE| == 13;
  }

  /** With nothing away, every original entry is at its path. */
  lemma NothingAwayIsHome(pre: Tree, fs: Tree, plan: Plan, g: Progress)
    requires Tracks(pre, fs, plan, g) && g.roots == {} && g.activated == {} && !g.configAway
    ensures forall p | p in pre :: InPlace(pre, fs, p, p)
  {
    forall p | p in pre
      ensures InPlace(pre, fs, p, p)
    {
      assert InPlace(pre, fs, p, Location(plan, g, p));
    }
  }

  // ---------------------------------------------------------------- outside processes

  /** Outside processes create entries where nothing is; the private backup is out of their reach. */
  ghost predicate Additive(before: Tree, fs: Tree, backup: string) {
    && (forall p | p in before :: p in fs && fs[p] == before[p])
    && (forall p | p in fs && Under([backup], p) :: p in before)
  }

  method Interfere(disk: Disk, backup: string)
    modifies disk
    ensures Additive(old(disk.fs), disk.fs, backup)
    ensures disk.exclusive ==> disk.fs == old(disk.fs)
  {
    var extra: Tree := *;
    if disk.exclusive { extra := map[]; }
    disk.fs := (map p | p in extra && !Under([backup], p) :: extra[p]) + disk.fs;
  }

  lemma InterferenceIsHarmless(pre: Tree, before: Tree, fs: Tree, plan: Plan, g: Progress)
    requires Tracks(pre, before, plan, g) && forall p | p in before :: p in fs && fs[p] == before[p]
    ensures Tracks(pre, fs, plan, g)
  {
    hide IsRoot, Location;
    forall p | p in pre
      ensures InPlace(pre, fs, p, Location(plan, g, p))
    {
      assert InPlace(pre, before, p, Location(plan, g, p));
    }
  }

  // ---------------------------------------------------------------- renames

  /** Renaming `src` to `dst` turns the locations of `g` into those of `g'`. */
  ghost predicate Relocates(pre: Tree, plan: Plan, g: Progress, g': Progress, src: Path, dst: Path) {
    forall p | p in pre ::
      var at := Location(plan, g, p);
      if Under(src, at) then Location(plan, g', p) == dst + at[|src|..]
      else Location(plan, g', p) == at && !Under(dst, at)
  }

  lemma RenameTracks(pre: Tree, before: Tree, plan: Plan, g: Progress, g': Progress, src: Path, dst: Path)
    requires Tracks(pre, before, plan, g) && Reasonable(plan, g') && Apart(src, dst)
    requires Relocates(pre, plan, g, g', src, dst)
    requires src !in {[plan.backup], [plan.backup, MANAGED]} && dst !in {[plan.backup], [plan.backup, MANAGED]}
    requires !Under(src, [plan.backup, MANAGED]) && !Under(dst, [plan.backup, MANAGED])
    requires g'.systemHome ==> [SKILLS] in before && !Under(src, [SKILLS]) && !Under(dst, [SKILLS])
    ensures Tracks(pre, Moved(before, src, dst), plan, g')
  {
    hide Sub, Moved, IsRoot, Location, Reasonable;
    var fs := Moved(before, src, dst);
    MovedEnds(before, src, dst);
    forall p | p in pre
      ensures InPlace(pre, fs, p, Location(plan, g', p))
    {
      var at := Location(plan, g, p);
      assert InPlace(pre, before, p, at);
      if Under(src, at) {
        var q := at[|src|..];
        assert src + q == at;
        assert q in Sub(before, src) && Sub(before, src)[q] == pre[p];
        assert q in Sub(fs, dst);
        assert dst + q in fs && fs[dst + q] == Sub(fs, dst)[q];
      } else {
        MovedElsewhere(before, src, dst, at);
      }
    }
    ShortPathsStay(before, src, dst, plan);
    if g'.systemHome { MovedElsewhere(before, src, dst, [SKILLS]); }
  }

  lemma ShortPathsStay(before: Tree, src: Path, dst: Path, plan: Plan)
    requires Apart(src, dst)
    requires !Under(src, [plan.backup, MANAGED]) && !Under(dst, [plan.backup, MANAGED])
    requires IsDirAt(before, [plan.backup]) && IsDirAt(before, [plan.backup, MANAGED])
    ensures IsDirAt(Moved(before, src, dst), [plan.backup]) && IsDirAt(Moved(before, src, dst), [plan.backup, MANAGED])
  {
    hide Sub, Moved;
    assert [plan.backup] <= [plan.backup, MANAGED];
    assert forall q: Path | Under(q, [plan.backup]) :: Under(q, [plan.backup, MANAGED]) by {
      forall q: Path | Under(q, [plan.backup])
        ensures Under(q, [plan.backup, MANAGED])
      {
        assert q == [plan.backup][..|q|] == [plan.backup, MANAGED][..|q|];
      }
    }
    MovedElsewhere(before, src, dst, [plan.backup]);
    MovedElsewhere(before, src, dst, [plan.backup, MANAGED]);
  }

  /** A rename among outside processes; `after` is the progress if it succeeds. */
  method Rename(disk: Disk, src: Path, dst: Path, plan: Plan, ghost pre: Tree, ghost g: Progress, ghost after: Progress)
    returns (ok: bool)
    requires Tracks(pre, disk.fs, plan, g) && Reasonable(plan, after) && Apart(src, dst)
    requires Relocates(pre, plan, g, after, src, dst)
    requires !Under(src, [plan.backup, MANAGED]) && !Under(dst, [plan.backup, MANAGED])
    requires after.systemHome ==> [SKILLS] in disk.fs && !Under(src, [SKILLS]) && !Under(dst, [SKILLS])
    modifies disk
    ensures Tracks(pre, disk.fs, plan, if ok then after else g)
    ensures disk.exclusive ==> disk.fs == if ok then Moved(old(disk.fs), src, dst) else old(disk.fs)
    ensures disk.exclusive && ok ==> CanReplace(old(disk.fs), src, dst)
    ensures disk.exclusive && disk.reliable && CanReplace(old(disk.fs), src, dst) ==> ok
    ensures disk.reliable && !ok ==> !CanReplace(disk.fs, src, dst)
    ensures forall p | p in old(disk.fs) && !Under(src, p) && (p == dst || !Under(dst, p)) :: p in disk.fs
  {
    hide IsRoot, Relocates, Location, Sub, Moved, CanReplace;
    ghost var before := disk.fs;
    Interfere(disk, plan.backup);
    InterferenceIsHarmless(pre, before, disk.fs, plan, g);
    ghost var mid := disk.fs;
    ok := disk.Replace(src, dst);
    if ok {
      BackupUnderItself(src, dst, plan);
      RenameTracks(pre, mid, plan, g, after, src, dst);
      RenameKeeps(mid, src, dst);
    }
  }

  /** A rename empties its source and fills its destination; every other path stays taken. */
  lemma RenameKeeps(before: Tree, src: Path, dst: Path)
    requires Apart(src, dst) && CanReplace(before, src, dst)
    ensures forall p | p in before && !Under(src, p) && (p == dst || !Under(dst, p)) :: p in Moved(before, src, dst)
  {
    hide Sub, Moved;
    MovedEnds(before, src, dst);
    assert dst in Moved(before, src, dst) by {
      assert src + [] == src && dst + [] == dst;
      assert [] in Sub(before, src);
      assert [] in Sub(Moved(before, src, dst), dst);
    }
    forall p | p in before && !Under(src, p) && !Under(dst, p)
      ensures p in Moved(before, src, dst)
    {
      MovedElsewhere(before, src, dst, p);
    }
  }

  lemma BackupUnderItself(src: Path, dst: Path, plan: Plan)
    requires !Under(src, [plan.backup, MANAGED]) && !Under(dst, [plan.backup, MANAGED])
    ensures src !in {[plan.backup], [plan.backup, MANAGED]} && dst !in {[plan.backup], [plan.backup, MANAGED]}
  {
  }

  /** Changes that touch no location of an original entry, and not the backup's own directories. */
  lemma HarmlessChange(pre: Tree, before: Tree, fs: Tree, plan: Plan, g: Progress, p: Path)
    requires Tracks(pre, before, plan, g)
    requires forall q | q != p :: SameAt(before, fs, q)
    requires p != [plan.backup] && p != [plan.backup, MANAGED] && (p == [SKILLS] ==> p in fs || !g.systemHome)
    requires forall q | q in pre :: Location(plan, g, q) != p
    ensures Tracks(pre, fs, plan, g)
  {
    hide IsRoot, Location;
    assert SameAt(before, fs, [plan.backup]) && SameAt(before, fs, [plan.backup, MANAGED]);
    assert [SKILLS] != p ==> SameAt(before, fs, [SKILLS]);
    forall q | q in pre
      ensures InPlace(pre, fs, q, Location(plan, g, q))
    {
      assert InPlace(pre, before, q, Location(plan, g, q));
      assert SameAt(before, fs, Location(plan, g, q));
    }
  }

  /** Facts about the original tree: nothing of it is private to the uninstallation, and what is to be moved
      as a file has nothing below it. */
  ghost predicate Original(pre: Tree, plan: Plan) {
    && (forall p | p in pre && p != [] :: p[0] != plan.backup)
    && (forall p, f | p in pre && f in plan.activated :: Under(f, p) ==> p == f)
    && (forall p | p in pre :: Under(CONFIG, p) ==> p == CONFIG)
  }

  lemma AwayPaths(plan: Plan, b: Path, c: Path)
    ensures Under(Away(plan, b), Away(plan, c)) <==> Under(b, c)
    ensures Under(b, c) ==> Away(plan, b) + c[|b|..] == Away(plan, c) && Away(plan, c)[|Away(plan, b)|..] == c[|b|..]
    ensures Under(b, c) ==> b + c[|b|..] == c
    ensures Away(plan, c)[0] == plan.backup && Away(plan, c)[1] == MANAGED
    ensures !Under(Away(plan, b), ConfigAway(plan)) && !Under(ConfigAway(plan), Away(plan, c))
  {
    UnderShared([plan.backup, MANAGED], b, c);
    assert |MANAGED| == 7 && |CONFIG[0]| == 11;
    assert ConfigAway(plan)[1] == CONFIG[0];
    assert |b| == 0 ==> Away(plan, b)[1] == MANAGED;
  }

  /** Moving `top` away, in a progress that had it at home. */
  lemma GoesAway(pre: Tree, plan: Plan, g: Progress, after: Progress, top: Path)
    requires Sound(plan) && Original(pre, plan) && Reasonable(plan, g) && !g.systemHome
    requires (|top| == 1 && IsRoot(top[0]) && top[0] !in g.roots && after == g.(roots := g.roots + {top[0]})) ||
             (top in plan.activated && top !in g.activated && after == g.(activated := g.activated + {top}))
    ensures Apart(top, Away(plan, top)) && Reasonable(plan, after)
    ensures Relocates(pre, plan, g, after, top, Away(plan, top))
  {
    hide IsRoot;
    ConfigIsNoRoot();
    AwayPaths(plan, top, top);
    UnderHead(top, Away(plan, top));
    forall p | p in pre
      ensures var at := Location(plan, g, p);
              if Under(top, at) then Location(plan, after, p) == Away(plan, top) + at[|top|..]
              else Location(plan, after, p) == at && !Under(Away(plan, top), at)
    {
      AwayPaths(plan, top, p);
      UnderHead(top, Away(plan, p));
      UnderHead(top, ConfigAway(plan));
      UnderHead(top, p);
      UnderHead(Away(plan, top), p);
      if top in plan.activated && p in g.activated { ActivatedApart(plan, top, p); }
    }
  }

  lemma ActivatedApart(plan: Plan, f: Path, p: Path)
    requires Sound(plan) && f in plan.activated && p in plan.activated && f != p
    ensures Apart(f, p)
  {
    var i :| 0 <= i < |plan.activated| && plan.activated[i] == f;
    var j :| 0 <= j < |plan.activated| && plan.activated[j] == p;
    assert i < j || j < i;
  }

  /** Bringing `top` back, in a progress that had it away. */
  lemma ComesBack(pre: Tree, plan: Plan, g: Progress, after: Progress, top: Path)
    requires Sound(plan) && Original(pre, plan) && Reasonable(plan, g) && (g.systemHome ==> top != [SKILLS])
    requires (|top| == 1 && IsRoot(top[0]) && top[0] in g.roots && after == g.(roots := g.roots - {top[0]})) ||
             (top in plan.activated && top in g.activated && after == g.(activated := g.activated - {top}))
    ensures Apart(Away(plan, top), top) && Reasonable(plan, after)
    ensures Relocates(pre, plan, g, after, Away(plan, top), top)
  {
    hide IsRoot;
    ConfigIsNoRoot();
    AwayPaths(plan, top, top);
    UnderHead(top, Away(plan, top));
    forall p | p in pre
      ensures var at := Location(plan, g, p);
              if Under(Away(plan, top), at) then Location(plan, after, p) == top + at[|Away(plan, top)|..]
              else Location(plan, after, p) == at && !Under(top, at)
    {
      AwayPaths(plan, top, p);
      UnderHead(top, Away(plan, p));
      UnderHead(top, ConfigAway(plan));
      UnderHead(top, p);
      UnderHead(Away(plan, top), p);
      if top in plan.activated && p in g.activated && p != top { ActivatedApart(plan, top, p); }
    }
  }

  lemma ConfigMoves(pre: Tree, plan: Plan, g: Progress)
    requires Sound(plan) && Original(pre, plan) && Reasonable(plan, g)
    ensures Apart(CONFIG, ConfigAway(plan)) && Apart(ConfigAway(plan), CONFIG)
    ensures Relocates(pre, plan, g.(configAway := false), g.(configAway := true), CONFIG, ConfigAway(plan))
    ensures Relocates(pre, plan, g.(configAway := true), g.(configAway := false), ConfigAway(plan), CONFIG)
  {
    hide IsRoot;
    ConfigIsNoRoot();
    UnderHead(CONFIG, ConfigAway(plan));
    UnderHead(ConfigAway(plan), CONFIG);
    assert ConfigAway(plan)[0] == plan.backup;
    assert CONFIG !in g.activated;
    assert CONFIG + CONFIG[|CONFIG|..] == CONFIG && ConfigAway(plan) + [] == ConfigAway(plan) && CONFIG + [] == CONFIG;
    forall p | p in pre
      ensures Under(CONFIG, Location(plan, g.(configAway := false), p)) <==> p == CONFIG
      ensures Under(ConfigAway(plan), Location(plan, g.(configAway := true), p)) <==> p == CONFIG
      ensures p != CONFIG ==> !Under(ConfigAway(plan), Location(plan, g.(configAway := false), p))
      ensures p != CONFIG ==> !Under(CONFIG, Location(plan, g.(configAway := true), p))
    {
      AwayPaths(plan, p, p);
      UnderHead(CONFIG, Away(plan, p));
      UnderHead(CONFIG, p);
      UnderHead(ConfigAway(plan), p);
    }
  }

  lemma SystemMoves(pre: Tree, plan: Plan, g: Progress)
    requires Sound(plan) && Original(pre, plan) && Reasonable(plan, g) && SKILLS in g.roots
    ensures Apart(Away(plan, SYSTEM_PATH), SYSTEM_PATH) && Apart(SYSTEM_PATH, Away(plan, SYSTEM_PATH))
    ensures Relocates(pre, plan, g.(systemHome := false), g.(systemHome := true), Away(plan, SYSTEM_PATH), SYSTEM_PATH)
    ensures Relocates(pre, plan, g.(systemHome := true), g.(systemHome := false), SYSTEM_PATH, Away(plan, SYSTEM_PATH))
  {
    assert IsRoot(SKILLS);
    hide IsRoot;
    ConfigIsNoRoot();
    AwayPaths(plan, SYSTEM_PATH, SYSTEM_PATH);
    UnderHead(SYSTEM_PATH, Away(plan, SYSTEM_PATH));
    var home, away := g.(systemHome := true), g.(systemHome := false);
    forall p | p in pre
      ensures Under(Away(plan, SYSTEM_PATH), Location(plan, away, p)) <==> Under(SYSTEM_PATH, p)
      ensures Under(SYSTEM_PATH, Location(plan, home, p)) <==> Under(SYSTEM_PATH, p)
      ensures !Under(SYSTEM_PATH, p) ==> Location(plan, home, p) == Location(plan, away, p)
      ensures !Under(SYSTEM_PATH, p) ==> !Under(Away(plan, SYSTEM_PATH), Location(plan, home, p))
      ensures !Under(SYSTEM_PATH, p) ==> !Under(SYSTEM_PATH, Location(plan, away, p))
      ensures Under(SYSTEM_PATH, p) ==> Location(plan, home, p) == p && Location(plan, away, p) == Away(plan, p)
      ensures Under(SYSTEM_PATH, p) ==> Away(plan, p) == Away(plan, SYSTEM_PATH) + p[|SYSTEM_PATH|..]
      ensures Under(SYSTEM_PATH, p) ==> Away(plan, p)[|Away(plan, SYSTEM_PATH)|..] == p[|SYSTEM_PATH|..]
      ensures Under(SYSTEM_PATH, p) ==> SYSTEM_PATH + p[|SYSTEM_PATH|..] == p
    {
      AwayPaths(plan, SYSTEM_PATH, p);
      UnderHead(SYSTEM_PATH, Away(plan, p));
      UnderHead(SYSTEM_PATH, ConfigAway(plan));
      UnderHead(SYSTEM_PATH, p);
      UnderHead(Away(plan, SYSTEM_PATH), p);
    }
  }

  // ---------------------------------------------------------------- nothing else

  /** A directory of the backup made for an activated file. */
  predicate MadeForActivated(plan: Plan, q: Path) {
    |q| > 2 && Under([plan.backup, MANAGED], q) && exists f :: f in plan.activated && Ancestor(q[2..], f)
  }

  /** The directories the uninstallation makes. */
  predicate Scaffold(plan: Plan, q: Path) {
    q == [plan.backup] || q == [plan.backup, MANAGED] || MadeForActivated(plan, q)
  }

  ghost predicate Housed(pre: Tree, plan: Plan, g: Progress, q: Path) {
    exists p :: p in pre && Location(plan, g, p) == q
  }

  /** Every entry is an original one at its location, a directory made for the backup, or listed in `extra`. */
  ghost predicate Tight(pre: Tree, fs: Tree, plan: Plan, g: Progress, extra: set<Path>) {
    forall q | q in fs :: q in extra || (Scaffold(plan, q) && fs[q].Dir?) || Housed(pre, plan, g, q)
  }

  lemma TightMore(pre: Tree, fs: Tree, plan: Plan, g: Progress, extra: set<Path>, more: set<Path>)
    requires Tight(pre, fs, plan, g, extra) && extra <= more
    ensures Tight(pre, fs, plan, g, more)
  {
    hide Scaffold, Housed;
  }

  /** A rename of original entries adds nothing. */
  lemma RenameIsTight(pre: Tree, before: Tree, plan: Plan, g: Progress, g': Progress, src: Path, dst: Path,
                      extra: set<Path>)
    requires Tight(pre, before, plan, g, extra) && Apart(src, dst) && Relocates(pre, plan, g, g', src, dst)
    requires forall q | Under(src, q) :: q !in extra && !Scaffold(plan, q)
    ensures Tight(pre, Moved(before, src, dst), plan, g', extra)
  {
    hide Sub, Moved, Location, Scaffold;
    var fs := Moved(before, src, dst);
    MovedEnds(before, src, dst);
    forall q | q in fs
      ensures q in extra || (Scaffold(plan, q) && fs[q].Dir?) || Housed(pre, plan, g', q)
    {
      if Under(dst, q) {
        var r := q[|dst|..];
        assert dst + r == q;
        assert r in Sub(fs, dst);
        assert src + r in before && Under(src, src + r) && (src + r)[|src|..] == r;
        var p :| p in pre && Location(plan, g, p) == src + r;
        assert Location(plan, g', p) == q;
      } else {
        SourceIsGone(before, src, dst, q);
        MovedElsewhere(before, src, dst, q);
        if Housed(pre, plan, g, q) {
          var p :| p in pre && Location(plan, g, p) == q;
          assert Location(plan, g', p) == q;
        }
      }
    }
  }

  lemma SourceIsGone(before: Tree, src: Path, dst: Path, q: Path)
    requires Apart(src, dst) && q in Moved(before, src, dst) && !Under(dst, q)
    ensures !Under(src, q)
  {
  }

  /** New or changed entries at listed paths, and new directories for activated files. */
  lemma AdditionIsTight(pre: Tree, before: Tree, fs: Tree, plan: Plan, g: Progress, extra: set<Path>)
    requires Tight(pre, before, plan, g, extra)
    requires forall q :: SameAt(before, fs, q) || q in extra || (Scaffold(plan, q) && IsDirAt(fs, q))
    ensures Tight(pre, fs, plan, g, extra)
  {
    hide Scaffold, Housed;
    forall q | q in fs
      ensures q in extra || (Scaffold(plan, q) && fs[q].Dir?) || Housed(pre, plan, g, q)
    {
      assert SameAt(before, fs, q) || q in extra || (Scaffold(plan, q) && IsDirAt(fs, q));
    }
  }

  lemma HousedIsTight(pre: Tree, fs: Tree, plan: Plan, g: Progress, extra: set<Path>, q: Path)
    requires Tight(pre, fs, plan, g, extra) && q in fs && q !in extra && !Scaffold(plan, q)
    ensures Housed(pre, plan, g, q)
  {
    hide Housed, Scaffold;
  }

  /** Where there is no scaffold. */
  lemma NoScaffold(plan: Plan, top: Path, q: Path)
    requires Sound(plan) && |top| > 0
    requires top[0] != plan.backup || (|top| > 2 && top[1] == MANAGED && IsRoot(top[2])) || top == ConfigAway(plan)
    requires Under(top, q)
    ensures !Scaffold(plan, q)
  {
    hide IsRoot;
    UnderHead(top, q);
    assert |MANAGED| == 7 && |CONFIG[0]| == 11;
    assert forall k | 0 <= k < |top| :: q[k] == top[k];
    assert q[0] == top[0] && (|top| > 1 ==> q[1] == top[1]) && (|top| > 2 ==> q[2] == top[2]);
    if top == ConfigAway(plan) { assert top[1] == CONFIG[0]; }
    NotMade(plan, q);
  }

  lemma NotMade(plan: Plan, q: Path)
    requires Sound(plan) && (|q| <= 2 || q[0] != plan.backup || q[1] != MANAGED || IsRoot(q[2]))
    ensures !MadeForActivated(plan, q)
  {
    hide IsRoot, Sound;
    if MadeForActivated(plan, q) { MadeIsNoRoot(plan, q); }
  }

  lemma MadeIsNoRoot(plan: Plan, q: Path)
    requires Sound(plan) && MadeForActivated(plan, q)
    ensures |q| > 2 && q[0] == plan.backup && q[1] == MANAGED && !IsRoot(q[2])
  {
    hide IsRoot;
    assert [plan.backup, MANAGED] == q[..2];
    var f :| f in plan.activated && Ancestor(q[2..], f);
    assert q[2..][0] == q[2] && f[0] == q[2..][0];
  }

  /** An original entry that is in the backup. */
  predicate GoneAway(g: Progress, p: Path) {
    (p != [] && p[0] in g.roots && !(g.systemHome && Under(SYSTEM_PATH, p))) || p in g.activated
  }

  /** What an entry says about the original tree: it is an original entry at home, or one that went away. */
  lemma HousedMeans(pre: Tree, plan: Plan, g: Progress, q: Path)
    requires Sound(plan) && Original(pre, plan) && Reasonable(plan, g) && Housed(pre, plan, g, q)
    ensures q != [] && q[0] == plan.backup ==>
      (q == ConfigAway(plan) && g.configAway) ||
      (|q| >= 2 && Under([plan.backup, MANAGED], q) && q[2..] in pre && GoneAway(g, q[2..]))
    ensures q == [] || q[0] != plan.backup ==>
      q in pre && !GoneAway(g, q) && (q == CONFIG ==> !g.configAway)
  {
    hide IsRoot;
    ConfigIsNoRoot();
    var p :| p in pre && Location(plan, g, p) == q;
    AwayPaths(plan, p, p);
    if q == Away(plan, p) { assert q[2..] == p; }
  }

  /** The listed additions lie beside the backup. */
  predicate AtHome(plan: Plan, extra: set<Path>) { forall q | q in extra :: |q| == 1 && q[0] != plan.backup }

  predicate IsTop(plan: Plan, top: Path) { (|top| == 1 && IsRoot(top[0])) || top in plan.activated }

  lemma AwayIsNoScaffold(plan: Plan, top: Path)
    requires Sound(plan) && IsTop(plan, top)
    ensures |top| > 0 && top[0] != plan.backup && !Scaffold(plan, Away(plan, top)) && !Scaffold(plan, top)
    ensures top != CONFIG && top != [plan.temporary]
  {
    hide IsRoot;
    ConfigIsNoRoot();
    assert top in plan.activated ==> Activatable(plan, top);
    if MadeForActivated(plan, Away(plan, top)) {
      MadeIsNoRoot(plan, Away(plan, top));
      assert Away(plan, top)[2..] == top;
      var f :| f in plan.activated && Ancestor(top, f);
      ActivatedApart(plan, top, f);
    }
  }

  /** The backup has room for what is at home, and home for what is in the backup. */
  lemma RoomForTop(pre: Tree, fs: Tree, plan: Plan, g: Progress, extra: set<Path>, top: Path)
    requires Sound(plan) && Original(pre, plan) && Reasonable(plan, g) && Tight(pre, fs, plan, g, extra)
    requires AtHome(plan, extra) && IsTop(plan, top)
    ensures !GoneAway(g, top) ==> Away(plan, top) !in fs
    ensures GoneAway(g, top) && top !in extra ==> top !in fs
  {
    AwayIsNoScaffold(plan, top);
    hide IsRoot, Scaffold, Housed, Original, Sound;
    assert Away(plan, top)[2..] == top;
    AwayPaths(plan, top, top);
    if Away(plan, top) in fs {
      HousedIsTight(pre, fs, plan, g, extra, Away(plan, top));
      HousedMeans(pre, plan, g, Away(plan, top));
    }
    if top in fs && top !in extra {
      HousedIsTight(pre, fs, plan, g, extra, top);
      HousedMeans(pre, plan, g, top);
    }
  }

  lemma RoomForConfig(pre: Tree, fs: Tree, plan: Plan, g: Progress, extra: set<Path>)
    requires Sound(plan) && Original(pre, plan) && Reasonable(plan, g) && Tight(pre, fs, plan, g, extra)
    requires AtHome(plan, extra)
    ensures !g.configAway ==> ConfigAway(plan) !in fs
    ensures g.configAway && CONFIG !in extra ==> CONFIG !in fs
  {
    NoScaffold(plan, ConfigAway(plan), ConfigAway(plan));
    NoScaffold(plan, CONFIG, CONFIG);
    hide IsRoot, Scaffold, Housed, Original, Sound;
    AwayPaths(plan, [], []);
    if ConfigAway(plan) in fs {
      HousedIsTight(pre, fs, plan, g, extra, ConfigAway(plan));
      HousedMeans(pre, plan, g, ConfigAway(plan));
      assert ConfigAway(plan)[..2] != [plan.backup, MANAGED] by { assert |MANAGED| == 7 && |CONFIG[0]| == 11; assert ConfigAway(plan)[..2][1] == CONFIG[0]; }
    }
    if CONFIG in fs && CONFIG !in extra {
      HousedIsTight(pre, fs, plan, g, extra, CONFIG);
      HousedMeans(pre, plan, g, CONFIG);
    }
  }

  lemma RoomForTemporary(pre: Tree, fs: Tree, plan: Plan, g: Progress, extra: set<Path>)
    requires Sound(plan) && Original(pre, plan) && Reasonable(plan, g) && Tight(pre, fs, plan, g, extra)
    requires [plan.temporary] !in pre && [plan.temporary] !in extra
    ensures [plan.temporary] !in fs
  {
    NoScaffold(plan, [plan.temporary], [plan.temporary]);
    hide IsRoot, Scaffold, Housed, Original, Sound;
    if [plan.temporary] in fs {
      HousedIsTight(pre, fs, plan, g, extra, [plan.temporary]);
      HousedMeans(pre, plan, g, [plan.temporary]);
    }
  }

  /** `skills` away: nothing is at its path, and nothing below it. */
  lemma RoomForSystem(pre: Tree, fs: Tree, plan: Plan, g: Progress, extra: set<Path>)
    requires Sound(plan) && Original(pre, plan) && Reasonable(plan, g) && Tight(pre, fs, plan, g, extra)
    requires AtHome(plan, extra) && SKILLS in g.roots
    ensures g.systemHome ==> Away(plan, SYSTEM_PATH) !in fs
    ensures !g.systemHome ==> forall q | q in fs && Under([SKILLS], q) :: q == [SKILLS] && q in extra
  {
    RootIsApart(plan);
    NoScaffold(plan, Away(plan, SYSTEM_PATH), Away(plan, SYSTEM_PATH));
    hide IsRoot, Scaffold, Housed, Original, Sound;
    AwayPaths(plan, SYSTEM_PATH, SYSTEM_PATH);
    assert Away(plan, SYSTEM_PATH)[2..] == SYSTEM_PATH;
    if Away(plan, SYSTEM_PATH) in fs && g.systemHome {
      HousedIsTight(pre, fs, plan, g, extra, Away(plan, SYSTEM_PATH));
      HousedMeans(pre, plan, g, Away(plan, SYSTEM_PATH));
      SystemIsNotActivated(plan, g);
    }
    forall q | q in fs && Under([SKILLS], q) && !g.systemHome
      ensures q == [SKILLS] && q in extra
    {
      UnderHead([SKILLS], q);
      if q !in extra {
        NoScaffold(plan, [SKILLS], q);
        HousedIsTight(pre, fs, plan, g, extra, q);
        HousedMeans(pre, plan, g, q);
      }
    }
  }

  lemma RootIsApart(plan: Plan)
    requires Sound(plan)
    ensures IsRoot(SKILLS) && plan.backup != SKILLS && |Away(plan, SYSTEM_PATH)| == 4 && Away(plan, SYSTEM_PATH)[2] == SKILLS
  {
  }

  lemma SystemIsNotActivated(plan: Plan, g: Progress)
    requires Sound(plan) && Reasonable(plan, g)
    ensures SYSTEM_PATH !in g.activated
  {
    assert IsRoot(SKILLS);
    assert SYSTEM_PATH in g.activated ==> Activatable(plan, SYSTEM_PATH);
  }

  /** No scaffold lies under what is moved, at home or away. */
  lemma NoScaffoldUnderTop(plan: Plan, top: Path, q: Path)
    requires Sound(plan) && IsTop(plan, top)
    ensures Under(top, q) ==> !Scaffold(plan, q)
    ensures Under(Away(plan, top), q) ==> !Scaffold(plan, q)
  {
    AwayIsNoScaffold(plan, top);
    if Under(top, q) { NoScaffold(plan, top, q); }
    if Under(Away(plan, top), q) {
      if IsRoot(top[0]) {
        NoScaffold(plan, Away(plan, top), q);
      } else {
        MadeOnlyAbove(plan, top, q);
      }
    }
  }

  lemma MadeOnlyAbove(plan: Plan, top: Path, q: Path)
    requires Sound(plan) && top in plan.activated && |top| > 0 && Under(Away(plan, top), q)
    ensures !Scaffold(plan, q)
  {
    hide IsRoot;
    assert |q| >= |Away(plan, top)| > 2;
    assert top <= q[2..] by { assert q[2..][..|top|] == q[2..2 + |top|] == Away(plan, top)[2..]; }
    if MadeForActivated(plan, q) {
      var f :| f in plan.activated && Ancestor(q[2..], f);
      if f != top { ActivatedApart(plan, top, f); }
    }
  }

  /** Moving a root or an activated file keeps the tree tight. */
  lemma TopIsTight(pre: Tree, before: Tree, plan: Plan, g: Progress, g': Progress, src: Path, dst: Path, top: Path,
                   extra: set<Path>)
    requires Sound(plan) && IsTop(plan, top) && Apart(src, dst) && Relocates(pre, plan, g, g', src, dst)
    requires (src == top && extra == {}) || (src == Away(plan, top) && AtHome(plan, extra))
    requires Tight(pre, before, plan, g, extra)
    ensures Tight(pre, Moved(before, src, dst), plan, g', extra)
  {
    hide IsRoot, Scaffold, Relocates, Sound, Moved, Tight;
    forall q | Under(src, q)
      ensures q !in extra && !Scaffold(plan, q)
    {
      NoScaffoldUnderTop(plan, top, q);
      UnderHead(src, q);
    }
    RenameIsTight(pre, before, plan, g, g', src, dst, extra);
  }

  /** What is at home can go away. */
  lemma CanGoAway(pre: Tree, fs: Tree, plan: Plan, g: Progress, top: Path)
    requires Sound(plan) && Tracks(pre, fs, plan, g) && IsTop(plan, top)
    requires top in pre && !GoneAway(g, top) && Away(plan, top) !in fs
    requires |top| > 0 && IsDirAt(fs, Away(plan, top[..|top| - 1]))
    ensures CanReplace(fs, top, Away(plan, top))
  {
    AwayIsNoScaffold(plan, top);
    hide IsRoot;
    assert InPlace(pre, fs, top, Location(plan, g, top));
    assert Away(plan, top)[..|Away(plan, top)| - 1] == Away(plan, top[..|top| - 1]);
  }

  /** What is away can come home. */
  lemma CanComeHome(pre: Tree, fs: Tree, plan: Plan, g: Progress, top: Path)
    requires Sound(plan) && Tracks(pre, fs, plan, g) && IsTop(plan, top) && WellFormed(pre)
    requires top in pre && GoneAway(g, top) && top !in fs
    ensures |top| > 0 && CanReplace(fs, Away(plan, top), top)
  {
    AwayIsNoScaffold(plan, top);
    hide IsRoot, WellFormed;
    var parent := top[..|top| - 1];
    assert parent in pre && pre[parent].Dir? by { ParentIsDirectory(pre, top); }
    assert InPlace(pre, fs, top, Location(plan, g, top));
    ParentStays(plan, g, top);
    assert InPlace(pre, fs, parent, Location(plan, g, parent));
  }

  lemma ParentIsDirectory(fs: Tree, p: Path)
    requires WellFormed(fs) && p in fs && |p| > 0
    ensures IsDirAt(fs, p[..|p| - 1])
  {
  }

  lemma ParentStays(plan: Plan, g: Progress, top: Path)
    requires Sound(plan) && Reasonable(plan, g) && IsTop(plan, top) && |top| > 0
    ensures Location(plan, g, top[..|top| - 1]) == top[..|top| - 1]
  {
    hide IsRoot;
    ConfigIsNoRoot();
    var parent := top[..|top| - 1];
    if parent != [] {
      assert parent[0] == top[0] && Activatable(plan, top);
      if parent in g.activated { ActivatedApart(plan, parent, top); }
    }
  }

  /** The directories of the backup are no obstacle to making more of them. */
  lemma WayToBackup(pre: Tree, fs: Tree, plan: Plan, g: Progress, f: Path)
    requires Sound(plan) && Original(pre, plan) && Tracks(pre, fs, plan, g) && Tight(pre, fs, plan, g, {})
    requires f in plan.activated && |f| > 0
    ensures OnlyDirectoriesOnTheWay(fs, Away(plan, f[..|f| - 1]))
  {
    hide IsRoot, Scaffold, Housed, Original, Sound, Tight;
    var way := Away(plan, f[..|f| - 1]);
    forall k | 0 < k <= |way| && way[..k] in fs
      ensures fs[way[..k]].Dir?
    {
      if k <= 2 {
        assert way[..k] == [plan.backup, MANAGED][..k];
        assert [plan.backup, MANAGED][..1] == [plan.backup] && [plan.backup, MANAGED][..2] == [plan.backup, MANAGED];
      } else {
        assert way[..k] == Away(plan, f[..k - 2]);
        WayIsScaffold(pre, fs, plan, g, f, f[..k - 2]);
      }
    }
  }

  lemma WayIsScaffold(pre: Tree, fs: Tree, plan: Plan, g: Progress, f: Path, d: Path)
    requires Sound(plan) && Original(pre, plan) && Reasonable(plan, g) && Tight(pre, fs, plan, g, {})
    requires f in plan.activated && Ancestor(d, f) && Away(plan, d) in fs
    ensures fs[Away(plan, d)].Dir?
  {
    hide IsRoot, Scaffold;
    assert Away(plan, d)[2..] == d;
    assert Activatable(plan, f) && d[0] == f[0];
    AwayPaths(plan, d, d);
    if Housed(pre, plan, g, Away(plan, d)) {
      HousedMeans(pre, plan, g, Away(plan, d));
      assert d in g.activated;
      ActivatedApart(plan, d, f);
    }
  }

  // ---------------------------------------------------------------- home, or taken

  /** The paths that originals leave: roots, activated files and the configuration. */
  predicate IsPlace(plan: Plan, top: Path) { IsTop(plan, top) || top == CONFIG }

  lemma PlacesApart(plan: Plan, top: Path, other: Path)
    requires Sound(plan) && IsPlace(plan, top) && IsPlace(plan, other)
    ensures |top| > 0 && top[0] != plan.backup && (top == other || !Under(top, other))
  {
    ConfigIsNoRoot();
    assert top in plan.activated ==> Activatable(plan, top);
    assert other in plan.activated ==> Activatable(plan, other);
    hide IsRoot;
    UnderHead(top, other);
    if top in plan.activated && other in plan.activated && top != other { ActivatedApart(plan, top, other); }
  }

  /** An original at this path is away only if the path has been taken. */
  ghost predicate AwayIsTaken(pre: Tree, fs: Tree, g: Progress, top: Path) {
    top in pre && (GoneAway(g, top) || (top == CONFIG && g.configAway)) ==> top in fs
  }

  /** Paths that are taken stay taken. */
  ghost predicate PlacesKept(before: Tree, fs: Tree, plan: Plan) {
    forall top | top in before && IsPlace(plan, top) :: top in fs
  }

  lemma PlacesKeptTwice(a: Tree, b: Tree, c: Tree, plan: Plan)
    requires PlacesKept(a, b, plan) && PlacesKept(b, c, plan)
    ensures PlacesKept(a, c, plan)
  {
    hide IsPlace;
  }

  /** Bringing something home from the backup leaves no place empty. */
  lemma HomecomingKeeps(before: Tree, fs: Tree, plan: Plan, away: Path, top: Path)
    requires Sound(plan) && IsPlace(plan, top) && |away| > 0 && away[0] == plan.backup
    requires forall p | p in before && !Under(away, p) && (p == top || !Under(top, p)) :: p in fs
    ensures PlacesKept(before, fs, plan)
  {
    hide IsPlace, Sound;
    forall other | other in before && IsPlace(plan, other)
      ensures other in fs
    {
      PlacesApart(plan, top, other);
      PlacesApart(plan, other, top);
      UnderHead(away, other);
    }
  }

  /** The original at this path is whole, or its path is taken and all of it is there or in the backup. */
  ghost predicate BackOrTaken(pre: Tree, fs: Tree, plan: Plan, top: Path) {
    || (forall p | p in pre && Under(top, p) :: InPlace(pre, fs, p, p))
    || (top in fs && forall p | p in pre && Under(top, p) :: InPlace(pre, fs, p, p) || InPlace(pre, fs, p, BackupOf(plan, p)))
  }

  lemma TakenIsBackOrTaken(pre: Tree, fs: Tree, plan: Plan, g: Progress, top: Path)
    requires Sound(plan) && Original(pre, plan) && Tracks(pre, fs, plan, g) && Conserves(pre, fs, plan) && IsPlace(plan, top)
    requires AwayIsTaken(pre, fs, g, top) && top in pre
    ensures BackOrTaken(pre, fs, plan, top)
  {
    ConfigIsNoRoot();
    assert top in plan.activated ==> Activatable(plan, top);
    hide IsRoot;
    if !(GoneAway(g, top) || (top == CONFIG && g.configAway)) {
      forall p | p in pre && Under(top, p)
        ensures InPlace(pre, fs, p, p)
      {
        UnderHead(top, p);
        assert InPlace(pre, fs, p, Location(plan, g, p));
        assert p in plan.activated ==> Activatable(plan, p);
      }
    }
  }
}
