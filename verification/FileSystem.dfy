/** The installation target as a map from paths to files and directories.

    A path is the list of its components below the target root, so the root itself is `[]`.  Stage and
    backup directories are created inside the target, so one map holds every file a transaction touches.
    Subtrees are values: `Sub` reads one, `Graft` puts one in place, `Without` drops one. */
module FileSystem {
  type Path = seq<string>

  /** A file is raw bytes, or a JSON document this model looks into: an install lock, which names the
      Skills and packages it covers, or the record of an external snapshot. */
  datatype Content =
    | Bytes(data: seq<nat>)
    | InstallLock(skills: set<string>, packages: set<string>, rest: seq<nat>)
    | ExternalRecord(state: ExternalState)

  datatype DirectoryEntry = AbsentDirectory(path: Path) | PresentDirectory(path: Path, mode: nat)
  datatype FileEntry = AbsentFile(path: Path) | PresentFile(path: Path, content: Content, mode: nat)
  datatype ExternalState = ExternalState(directories: seq<DirectoryEntry>, entries: seq<FileEntry>)

  datatype Node = File(content: Content, mode: nat) | Dir(mode: nat)
  type Tree = map<Path, Node>

  const MANAGED_FILE_MODE: nat := 0x1A4       // 0o644
  const MANAGED_DIRECTORY_MODE: nat := 0x1ED  // 0o755

  // ---------------------------------------------------------------- subtrees

  predicate Under(root: Path, p: Path) { root <= p }

  predicate Apart(a: Path, b: Path) { !Under(a, b) && !Under(b, a) }

  function Sub(fs: Tree, root: Path): (t: Tree)
    ensures forall q {:trigger q in t} :: q in t <==> root + q in fs
    ensures forall q {:trigger t[q]} :: q in t ==> t[q] == fs[root + q]
  {
    var keys := set p | p in fs && Under(root, p) :: p[|root|..];
    assert forall p | p in fs && Under(root, p) :: root + p[|root|..] == p;
    assert forall q | root + q in fs :: (root + q)[|root|..] == q;
    map q | q in keys :: fs[root + q]
  }

  function Without(fs: Tree, root: Path): (t: Tree)
    ensures forall p :: p in t <==> p in fs && !Under(root, p)
    ensures forall p :: p in t ==> t[p] == fs[p]
  {
    map p | p in fs && !Under(root, p) :: fs[p]
  }

  /** The tree `t` placed at `root`, replacing whatever was there. */
  function Graft(fs: Tree, root: Path, t: Tree): (r: Tree)
    ensures forall p :: p in r <==> if Under(root, p) then p[|root|..] in t else p in fs
    ensures forall p :: p in r ==> r[p] == if Under(root, p) then t[p[|root|..]] else fs[p]
  {
    var placed := set q | q in t :: root + q;
    assert forall q :: (root + q)[|root|..] == q;
    assert forall p | Under(root, p) :: p == root + p[|root|..];
    Without(fs, root) + map p | p in placed :: t[p[|root|..]]
  }

  lemma SubOfGraft(fs: Tree, root: Path, t: Tree)
    ensures Sub(Graft(fs, root, t), root) == t
  {
    assert forall q :: (root + q)[|root|..] == q;
  }

  lemma SubApart(fs: Tree, changed: Tree, root: Path, other: Path)
    requires Apart(root, other)
    requires forall p | !Under(root, p) :: (p in changed <==> p in fs) && (p in fs ==> changed[p] == fs[p])
    ensures Sub(changed, other) == Sub(fs, other)
  {
    forall q
      ensures !Under(root, other + q)
    {
    }
  }

  lemma SubOfSub(fs: Tree, root: Path, q: Path)
    ensures Sub(Sub(fs, root), q) == Sub(fs, root + q)
  {
    hide Sub;
    var whole, inner := Sub(fs, root + q), Sub(Sub(fs, root), q);
    forall s
      ensures s in whole <==> s in inner
      ensures s in whole ==> whole[s] == inner[s]
    {
      assert root + (q + s) == (root + q) + s;
    }
    assert whole.Keys == inner.Keys;
  }

  /** The effect of renaming `src` to `dst`. */
  function Moved(fs: Tree, src: Path, dst: Path): Tree
    requires Apart(src, dst)
  {
    Graft(Without(fs, src), dst, Sub(fs, src))
  }

  lemma GraftApart(fs: Tree, root: Path, t: Tree, o: Path)
    requires Apart(root, o)
    ensures Sub(Graft(fs, root, t), o) == Sub(fs, o)
  {
    SubApart(fs, Graft(fs, root, t), root, o);
  }

  lemma WithoutApart(fs: Tree, root: Path, o: Path)
    requires Apart(root, o)
    ensures Sub(Without(fs, root), o) == Sub(fs, o)
  {
    SubApart(fs, Without(fs, root), root, o);
  }

  lemma WithoutIsEmpty(fs: Tree, root: Path)
    ensures Sub(Without(fs, root), root) == map[]
  {
  }

  lemma MovedApart(fs: Tree, src: Path, dst: Path, o: Path)
    requires Apart(src, dst) && Apart(src, o) && Apart(dst, o)
    ensures Sub(Moved(fs, src, dst), o) == Sub(fs, o)
  {
    WithoutApart(fs, src, o);
    GraftApart(Without(fs, src), dst, Sub(fs, src), o);
  }

  lemma MovedEnds(fs: Tree, src: Path, dst: Path)
    requires Apart(src, dst)
    ensures Sub(Moved(fs, src, dst), dst) == Sub(fs, src)
    ensures Sub(Moved(fs, src, dst), src) == map[]
  {
    SubOfGraft(Without(fs, src), dst, Sub(fs, src));
    GraftApart(Without(fs, src), dst, Sub(fs, src), src);
    WithoutIsEmpty(fs, src);
  }

  lemma MovedElsewhere(fs: Tree, src: Path, dst: Path, p: Path)
    requires Apart(src, dst) && !Under(src, p) && !Under(dst, p)
    ensures SameAt(fs, Moved(fs, src, dst), p)
  {
  }

  lemma SubtreeUntouched(fs: Tree, changed: Tree, root: Path, o: Path)
    requires ChangedOnlyUnder(fs, changed, root) && Apart(root, o)
    ensures Sub(changed, o) == Sub(fs, o)
  {
    assert forall p | !Under(root, p) :: SameAt(fs, changed, p);
    SubApart(fs, changed, root, o);
  }

  /** A change under one root leaves every subtree apart from it alone. */
  lemma OtherSubtrees(fs: Tree, changed: Tree, root: Path)
    requires ChangedOnlyUnder(fs, changed, root)
    ensures forall o | Apart(root, o) :: Sub(changed, o) == Sub(fs, o)
  {
    forall o | Apart(root, o)
      ensures Sub(changed, o) == Sub(fs, o)
    {
      SubtreeUntouched(fs, changed, root, o);
    }
  }

  /** The entries a path-wise comparison looks at. */
  predicate SameAt(a: Tree, b: Tree, p: Path) {
    (p in a <==> p in b) && (p in a ==> a[p] == b[p])
  }

  lemma SameEverywhere(a: Tree, b: Tree)
    requires forall p :: SameAt(a, b, p)
    ensures a == b
  {
    assert forall p :: SameAt(a, b, p) ==> (p in a.Keys <==> p in b.Keys);
    assert a.Keys == b.Keys;
    assert forall p | p in a :: SameAt(a, b, p) && a[p] == b[p];
  }

  /** Every entry below the root hangs in a directory. */
  ghost predicate WellFormed(fs: Tree) {
    && [] in fs && fs[[]].Dir?
    && forall p | p in fs && |p| > 0 :: p[..|p| - 1] in fs && fs[p[..|p| - 1]].Dir?
  }

  predicate IsDirAt(fs: Tree, p: Path) { p in fs && fs[p].Dir? }

  predicate IsFileAt(fs: Tree, p: Path) { p in fs && fs[p].File? }

  lemma {:induction false} NothingBelowNonDirectory(fs: Tree, d: Path, p: Path)
    requires WellFormed(fs) && !IsDirAt(fs, d)
    requires Under(d, p) && p != d
    ensures p !in fs
    decreases |p|
  {
    var parent := p[..|p| - 1];
    if p in fs {
      if parent == d {
        assert false;
      } else {
        assert Under(d, parent);
        NothingBelowNonDirectory(fs, d, parent);
      }
    }
  }

  lemma UnderShared(a: Path, b: Path, c: Path)
    ensures Under(a + b, a + c) <==> Under(b, c)
    ensures (a + c)[|a|..] == c
    ensures Under(b, c) ==> (a + c)[|a + b|..] == c[|b|..]
  {
    if Under(a + b, a + c) { assert b == (a + b)[|a|..] == (a + c)[|a|..|a + b|] == c[..|b|]; }
    if Under(b, c) { assert a + b == (a + c)[..|a + b|]; }
  }

  // ---------------------------------------------------------------- primitives

  predicate CanCreateIn(fs: Tree, p: Path) { |p| > 0 && IsDirAt(fs, p[..|p| - 1]) }

  predicate NothingBelow(fs: Tree, d: Path) {
    forall p | p in fs :: Under(d, p) ==> p == d
  }

  /** When `rename` succeeds: the source exists, the destination's parent is a directory, and the
      destination is free, a file for a file, or an empty directory for a directory. */
  predicate CanReplace(fs: Tree, src: Path, dst: Path) {
    && src in fs
    && CanCreateIn(fs, dst)
    && (dst in fs ==> fs[src].File? == fs[dst].File?)
    && (IsDirAt(fs, dst) ==> NothingBelow(fs, dst))
  }

  /** `fs'` is `fs` with some entries under `root` gone and nothing else changed. */
  ghost predicate PartlyRemoved(fs: Tree, fs': Tree, root: Path) {
    && (forall p | p in fs' :: p in fs && fs'[p] == fs[p])
    && (forall p | p in fs :: !Under(root, p) ==> p in fs')
  }

  /** `fs'` differs from `fs` at most under `root`. */
  ghost predicate ChangedOnlyUnder(fs: Tree, fs': Tree, root: Path) {
    forall p | !Under(root, p) :: SameAt(fs, fs', p)
  }

  /** A file system whose primitive operations may fail at any call.  A failed operation raises `OSError`
      in the source and reports `false` here.  A `reliable` disk fails only where the operation itself
      is impossible; an `exclusive` one is written by nobody else.  `failures` counts the failed operations. */
  class Disk {
    const reliable: bool
    const exclusive: bool
    var fs: Tree
    ghost var failures: nat

    constructor (fs: Tree, reliable: bool, exclusive: bool)
      ensures this.fs == fs && this.reliable == reliable && this.exclusive == exclusive
    {
      this.fs := fs;
      this.reliable := reliable;
      this.exclusive := exclusive;
      this.failures := 0;
    }

    method Fault() returns (fault: bool)
      ensures reliable ==> !fault
    {
      fault := *;
      if reliable { fault := false; }
    }

    /** `os.replace`: moves a whole subtree. */
    method Replace(src: Path, dst: Path) returns (ok: bool)
      requires Apart(src, dst)
      modifies this
      ensures failures == old(failures) + if ok then 0 else 1
      ensures ok ==> CanReplace(old(fs), src, dst) && fs == Moved(old(fs), src, dst)
      ensures !ok ==> fs == old(fs)
      ensures reliable && CanReplace(old(fs), src, dst) ==> ok
    {
      var fault := Fault();
      ok := !fault && CanReplace(fs, src, dst);
      if ok { fs := Moved(fs, src, dst); }
      if !ok { failures := failures + 1; }
    }

    /** `shutil.rmtree` on a directory, `unlink` on a file: a failure may leave part of the tree behind. */
    method Remove(root: Path) returns (ok: bool)
      modifies this
      ensures failures == old(failures) + if ok then 0 else 1
      ensures ok ==> fs == Without(old(fs), root)
      ensures PartlyRemoved(old(fs), fs, root)
      ensures reliable ==> ok
    {
      var fault := Fault();
      if fault {
        var kept: set<Path> := *;
        fs := map p | p in fs && (!Under(root, p) || p in kept) :: fs[p];
        ok := false;
        failures := failures + 1;
      } else {
        fs := Without(fs, root);
        ok := true;
      }
    }

    /** `shutil.copytree` / `_copy_tree`: a failure may leave anything under the destination. */
    method CopyTree(t: Tree, dst: Path) returns (ok: bool)
      modifies this
      ensures failures == old(failures) + if ok then 0 else 1
      ensures ok ==> fs == Graft(old(fs), dst, t)
      ensures ChangedOnlyUnder(old(fs), fs, dst)
      ensures reliable ==> ok
    {
      var fault := Fault();
      if fault {
        var partial: Tree := *;
        fs := Graft(fs, dst, partial);
      } else {
        fs := Graft(fs, dst, t);
      }
      ok := !fault;
      if fault { failures := failures + 1; }
    }

    method Mkdir(p: Path, mode: nat) returns (ok: bool)
      modifies this
      ensures failures == old(failures) + if ok then 0 else 1
      ensures ok ==> p !in old(fs) && CanCreateIn(old(fs), p) && fs == old(fs)[p := Dir(mode)]
      ensures !ok ==> fs == old(fs)
      ensures reliable && p !in old(fs) && CanCreateIn(old(fs), p) ==> ok
    {
      var fault := Fault();
      ok := !fault && p !in fs && CanCreateIn(fs, p);
      if ok { fs := fs[p := Dir(mode)]; }
      if !ok { failures := failures + 1; }
    }

    method Chmod(p: Path, mode: nat) returns (ok: bool)
      modifies this
      ensures failures == old(failures) + if ok then 0 else 1
      ensures ok ==> p in old(fs) && fs == old(fs)[p := old(fs)[p].(mode := mode)]
      ensures !ok ==> fs == old(fs)
      ensures reliable && p in old(fs) ==> ok
    {
      var fault := Fault();
      ok := !fault && p in fs;
      if ok { fs := fs[p := fs[p].(mode := mode)]; }
      if !ok { failures := failures + 1; }
    }

    /** A temporary file written, given its mode and renamed over `p`. */
    method WriteFile(p: Path, content: Content, mode: nat) returns (ok: bool)
      modifies this
      ensures failures == old(failures) + if ok then 0 else 1
      ensures ok ==> CanCreateIn(old(fs), p) && !IsDirAt(old(fs), p) && fs == old(fs)[p := File(content, mode)]
      ensures !ok ==> fs == old(fs)
      ensures reliable && CanCreateIn(old(fs), p) && !IsDirAt(old(fs), p) ==> ok
    {
      var fault := Fault();
      ok := !fault && CanCreateIn(fs, p) && !IsDirAt(fs, p);
      if ok { fs := fs[p := File(content, mode)]; }
      if !ok { failures := failures + 1; }
    }

    method Unlink(p: Path) returns (ok: bool)
      modifies this
      ensures failures == old(failures) + if ok then 0 else 1
      ensures ok ==> IsFileAt(old(fs), p) && fs == old(fs) - {p}
      ensures !ok ==> fs == old(fs)
      ensures reliable && IsFileAt(old(fs), p) ==> ok
    {
      var fault := Fault();
      ok := !fault && IsFileAt(fs, p);
      if ok { fs := fs - {p}; }
      if !ok { failures := failures + 1; }
    }

    method Rmdir(p: Path) returns (ok: bool)
      modifies this
      ensures failures == old(failures) + if ok then 0 else 1
      ensures ok ==> IsDirAt(old(fs), p) && NothingBelow(old(fs), p) && fs == old(fs) - {p}
      ensures !ok ==> fs == old(fs)
      ensures reliable && IsDirAt(old(fs), p) && NothingBelow(old(fs), p) ==> ok
    {
      var fault := Fault();
      ok := !fault && IsDirAt(fs, p) && NothingBelow(fs, p);
      if ok { fs := fs - {p}; }
      if !ok { failures := failures + 1; }
    }
  }
}
