/** The migration registry and its breadth-first search. */
module MigrationPaths {
  import opened Wrappers
  import opened Order

  type Version = string

  /** A versioned document; anything without a schema version has none. */
  datatype Document = Document(version: Option<Version>, body: string)

  /** A transform may answer differently each time it is called, so it also gets the number of the call. */
  type Transform = (Document, nat) -> Document

  datatype MigrationEdge = MigrationEdge(
    artifact: string,
    source: Version,
    target: Version,
    lossless: bool,
    transform: Option<Transform>,
    changes: seq<string>)

  // ---------------------------------------------------------------- the registry

  predicate EdgeLess(a: MigrationEdge, b: MigrationEdge) {
    || StringLess(a.artifact, b.artifact)
    || (a.artifact == b.artifact && StringLess(a.source, b.source))
    || (a.artifact == b.artifact && a.source == b.source && StringLess(a.target, b.target))
  }

  lemma EdgesAreOrdered()
    ensures Consistent(EdgeLess)
  {
    StringsAreOrdered();
    TotalIsConsistent(StringLess);
    forall a, b | EdgeLess(a, b)
      ensures !EdgeLess(b, a)
    {
      assert StringLess(a.artifact, b.artifact) ==> !StringLess(b.artifact, a.artifact);
      assert StringLess(a.source, b.source) ==> !StringLess(b.source, a.source);
      assert StringLess(a.target, b.target) ==> !StringLess(b.target, a.target);
    }
    forall a, b, c | !EdgeLess(b, a) && !EdgeLess(c, b)
      ensures !EdgeLess(c, a)
    {
      NotAfterChain(a, b, c);
    }
  }

  lemma NotAfterChain(a: MigrationEdge, b: MigrationEdge, c: MigrationEdge)
    requires StrictTotal(StringLess) && !EdgeLess(b, a) && !EdgeLess(c, b)
    ensures !EdgeLess(c, a)
  {
    assert StringLess(a.artifact, b.artifact) || a.artifact == b.artifact;
    assert StringLess(b.artifact, c.artifact) || b.artifact == c.artifact;
    if a.artifact == b.artifact == c.artifact {
      assert StringLess(a.source, b.source) || a.source == b.source;
      assert StringLess(b.source, c.source) || b.source == c.source;
      if a.source == b.source == c.source {
        assert StringLess(a.target, b.target) || a.target == b.target;
        assert StringLess(b.target, c.target) || b.target == c.target;
      }
    }
  }

  ghost predicate SortedOnce(changes: seq<string>) { Sorted(StringLess, changes) && Unique(changes) }

  /** The registry's edges: sorted, each identity once, none from a version to itself. */
  ghost predicate Registered(edges: seq<MigrationEdge>) {
    && (forall i, j | 0 <= i < j < |edges| :: EdgeLess(edges[i], edges[j]))
    && (forall e | e in edges :: e.source != e.target && SortedOnce(e.changes))
  }

  predicate SameIdentity(a: MigrationEdge, b: MigrationEdge) {
    a.artifact == b.artifact && a.source == b.source && a.target == b.target
  }

  /** Some two edges lead from one version of an artifact to another one. */
  ghost predicate ListedTwice(edges: seq<MigrationEdge>) {
    exists i, j :: 0 <= i < j < |edges| && edges[i].artifact == edges[j].artifact &&
                   edges[i].source == edges[j].source && edges[i].target == edges[j].target
  }

  datatype Registry = Registry(edges: seq<MigrationEdge>) | DuplicateEdges | IdentityEdge | ChangesUnsorted

  /** The constructor's checks, in their order. */
  method BuildRegistry(edges: seq<MigrationEdge>) returns (registry: Registry)
    ensures registry.Registry? ==> Registered(registry.edges) && multiset(registry.edges) == multiset(edges)
    ensures registry.DuplicateEdges? <==> ListedTwice(edges)
    ensures registry.IdentityEdge? ==> exists e :: e in edges && e.source == e.target
    ensures registry.ChangesUnsorted? ==> exists e :: e in edges && !SortedOnce(e.changes)
    ensures registry.Registry? <==>
              && !ListedTwice(edges)
              && (forall e | e in edges :: e.source != e.target && SortedOnce(e.changes))
  {
    TwiceListed(edges);
    hide EdgeLess, SameIdentity, ListedTwice, SortedOnce, Unique;
    var items := Sort(EdgeLess, edges);
    EdgesAreOrdered();
    SortSorted(EdgeLess, edges);
    SortMembers(EdgeLess, edges);
    if exists i, j | 0 <= i < j < |items| :: SameIdentity(items[i], items[j]) {
      TwiceAnywhere(items, edges);
      return DuplicateEdges;
    }
    TwiceAnywhere(edges, items);
    if exists i | 0 <= i < |items| :: items[i].source == items[i].target {
      assert forall i | 0 <= i < |items| :: items[i] in items;
      return IdentityEdge;
    }
    for k := 0 to |items|
      invariant forall m | 0 <= m < k :: SortedOnce(items[m].changes)
    {
      assert items[k] in items;
      var listed := CheckChanges(items[k].changes);
      if !listed { return ChangesUnsorted; }
    }
    StrictlySorted(items);
    registry := Registry(items);
  }

  lemma TwiceListed(edges: seq<MigrationEdge>)
    ensures ListedTwice(edges) <==> exists i, j :: 0 <= i < j < |edges| && SameIdentity(edges[i], edges[j])
  {
    if i, j :| 0 <= i < j < |edges| && SameIdentity(edges[i], edges[j]) { assert edges[i].artifact == edges[j].artifact; }
    if i, j :| 0 <= i < j < |edges| && edges[i].artifact == edges[j].artifact && edges[i].source == edges[j].source &&
               edges[i].target == edges[j].target {
      assert SameIdentity(edges[i], edges[j]);
    }
  }

  lemma TwiceAnywhere(a: seq<MigrationEdge>, b: seq<MigrationEdge>)
    requires multiset(a) == multiset(b)
    ensures (exists i, j :: 0 <= i < j < |a| && SameIdentity(a[i], a[j])) ==> exists k, m :: 0 <= k < m < |b| && SameIdentity(b[k], b[m])
  {
    if i, j :| 0 <= i < j < |a| && SameIdentity(a[i], a[j]) { SameTwice(a, b, i, j); }
  }

  /** Two positions with one identity stay two positions in every rearrangement. */
  lemma SameTwice(a: seq<MigrationEdge>, b: seq<MigrationEdge>, i: nat, j: nat)
    requires multiset(a) == multiset(b) && i < j < |a| && SameIdentity(a[i], a[j])
    ensures exists k, m :: 0 <= k < m < |b| && SameIdentity(b[k], b[m])
  {
    if a[i] == a[j] {
      assert a == a[..i] + [a[i]] + a[i + 1..j] + [a[j]] + a[j + 1..];
      assert multiset(a)[a[i]] >= 2;
      TwoPlaces(b, a[i]);
    } else {
      assert a[i] in multiset(b) && a[j] in multiset(b);
      var k :| 0 <= k < |b| && b[k] == a[i];
      var m :| 0 <= m < |b| && b[m] == a[j];
      assert k < m || m < k;
      assert SameIdentity(b[if k < m then k else m], b[if k < m then m else k]);
    }
  }

  lemma TwoPlaces(b: seq<MigrationEdge>, x: MigrationEdge)
    requires multiset(b)[x] >= 2
    ensures exists k, m :: 0 <= k < m < |b| && SameIdentity(b[k], b[m])
  {
    if forall k, m | 0 <= k < m < |b| :: b[k] != b[m] { UniqueCount(b, x); }
    var k, m :| 0 <= k < m < |b| && b[k] == b[m];
    assert SameIdentity(b[k], b[m]);
  }

  lemma StrictlySorted(items: seq<MigrationEdge>)
    requires Sorted(EdgeLess, items) && forall i, j | 0 <= i < j < |items| :: !SameIdentity(items[i], items[j])
    ensures forall i, j | 0 <= i < j < |items| :: EdgeLess(items[i], items[j])
  {
    StringsAreOrdered();
    forall i, j | 0 <= i < j < |items|
      ensures EdgeLess(items[i], items[j])
    {
      var a, b := items[i], items[j];
      assert !EdgeLess(b, a) && !SameIdentity(a, b);
      assert StringLess(a.artifact, b.artifact) || a.artifact == b.artifact;
      assert StringLess(a.source, b.source) || a.source == b.source || StringLess(b.source, a.source);
      assert StringLess(a.target, b.target) || a.target == b.target || StringLess(b.target, a.target);
    }
  }

  /** `changes == tuple(sorted(set(changes)))`. */
  method CheckChanges(changes: seq<string>) returns (fine: bool)
    ensures fine <==> SortedOnce(changes)
  {
    StringsAreOrdered();
    TotalIsConsistent(StringLess);
    var listed := SortedSet(StringLess, set c | c in changes);
    if SortedOnce(changes) { SortedUnique(StringLess, changes, listed); }
    fine := changes == listed;
  }

  // ---------------------------------------------------------------- paths and their order

  /** The versions a path passes, one for each edge. */
  function Trail(path: seq<MigrationEdge>): (trail: seq<Version>)
    ensures |trail| == |path|
  {
    seq(|path|, i requires 0 <= i < |path| => path[i].target)
  }

  /** A chain of registered edges of the artifact from one version to another. */
  ghost predicate PathTo(edges: seq<MigrationEdge>, artifact: string, start: Version, end: Version, path: seq<MigrationEdge>)
    decreases |path|
  {
    if path == [] then start == end
    else
      var last := path[|path| - 1];
      last in edges && last.artifact == artifact && last.target == end
      && PathTo(edges, artifact, start, last.source, path[..|path| - 1])
  }

  /** Shorter first, and among equally long trails the one that is smaller at the first difference. */
  predicate Before(a: seq<Version>, b: seq<Version>)
    decreases |a|
  {
    if |a| != |b| then |a| < |b|
    else if a == [] then false
    else
      var n := |a| - 1;
      Before(a[..n], b[..n]) || (a[..n] == b[..n] && StringLess(a[n], b[n]))
  }

  predicate NotLater(a: seq<Version>, b: seq<Version>) { a == b || Before(a, b) }

  /** The trails agree up to some place, and the first one is smaller there. */
  ghost predicate SmallerAtDifference(a: seq<Version>, b: seq<Version>) {
    |a| == |b| && exists i :: 0 <= i < |a| && a[..i] == b[..i] && StringLess(a[i], b[i])
  }

  /** What `Before` says, at the first difference. */
  lemma {:induction false} BeforeAtFirstDifference(a: seq<Version>, b: seq<Version>)
    ensures Before(a, b) <==> |a| < |b| || SmallerAtDifference(a, b)
    decreases |a|
  {
    hide StringLess;
    if |a| == |b| && a != [] {
      var n := |a| - 1;
      BeforeAtFirstDifference(a[..n], b[..n]);
      DifferenceInFront(a, b);
    }
  }

  lemma DifferenceInFront(a: seq<Version>, b: seq<Version>)
    requires |a| == |b| && a != []
    ensures var n := |a| - 1;
            SmallerAtDifference(a, b) <==> SmallerAtDifference(a[..n], b[..n]) || (a[..n] == b[..n] && StringLess(a[n], b[n]))
  {
    hide StringLess;
    var n := |a| - 1;
    if SmallerAtDifference(a[..n], b[..n]) {
      var i :| 0 <= i < n && a[..n][..i] == b[..n][..i] && StringLess(a[..n][i], b[..n][i]);
      assert a[..i] == a[..n][..i] && b[..i] == b[..n][..i];
    }
    if SmallerAtDifference(a, b) {
      var i :| 0 <= i < |a| && a[..i] == b[..i] && StringLess(a[i], b[i]);
      if i < n { assert a[..n][..i] == a[..i] && b[..n][..i] == b[..i]; }
    }
  }

  lemma {:induction false} BeforeTransitive(a: seq<Version>, b: seq<Version>, c: seq<Version>)
    requires Before(a, b) && Before(b, c)
    ensures Before(a, c)
    decreases |a|
  {
    if |a| == |b| == |c| && a != [] {
      var n := |a| - 1;
      StringsAreOrdered();
      if Before(a[..n], b[..n]) && Before(b[..n], c[..n]) { BeforeTransitive(a[..n], b[..n], c[..n]); }
    }
  }

  lemma NotLaterChain(a: seq<Version>, b: seq<Version>, c: seq<Version>)
    requires NotLater(a, b) && NotLater(b, c)
    ensures NotLater(a, c)
    ensures Before(a, b) || Before(b, c) ==> Before(a, c)
  {
    if Before(a, b) && Before(b, c) { BeforeTransitive(a, b, c); }
  }

  /** Extending keeps the order; the extension of one trail is ordered by its last version. */
  lemma ExtendTrails(a: seq<Version>, b: seq<Version>, v: Version, w: Version)
    ensures Before(a, b) ==> Before(a + [v], b + [w])
    ensures NotLater(a, b) && (v == w || StringLess(v, w)) ==> NotLater(a + [v], b + [w])
    ensures StringLess(v, w) ==> Before(a + [v], a + [w])
  {
    var x, y, n := a + [v], b + [w], |a|;
    assert x[..n] == a;
    if |a| == |b| { assert y[..n] == b; }
    assert (a + [w])[..n] == a;
  }

  // ---------------------------------------------------------------- outgoing edges

  /** The artifact's edges from a version, in registry order. */
  function Outgoing(edges: seq<MigrationEdge>, artifact: string, v: Version): seq<MigrationEdge> {
    if edges == [] then []
    else
      var rest, e := Outgoing(edges[..|edges| - 1], artifact, v), edges[|edges| - 1];
      if e.artifact == artifact && e.source == v then rest + [e] else rest
  }

  lemma {:induction false} OutgoingMembers(edges: seq<MigrationEdge>, artifact: string, v: Version)
    ensures forall e :: e in Outgoing(edges, artifact, v) <==> e in edges && e.artifact == artifact && e.source == v
  {
    if edges != [] {
      OutgoingMembers(edges[..|edges| - 1], artifact, v);
      assert edges == edges[..|edges| - 1] + [edges[|edges| - 1]];
    }
  }

  ghost predicate ByTarget(out: seq<MigrationEdge>) {
    forall i, j | 0 <= i < j < |out| :: StringLess(out[i].target, out[j].target)
  }

  lemma ByTargetMore(out: seq<MigrationEdge>, e: MigrationEdge)
    requires ByTarget(out) && forall x | x in out :: StringLess(x.target, e.target)
    ensures ByTarget(out + [e])
  {
    hide StringLess;
    var all := out + [e];
    forall i, j | 0 <= i < j < |all|
      ensures StringLess(all[i].target, all[j].target)
    {
      assert all[i] == out[i] && out[i] in out;
      if j < |out| { assert all[j] == out[j]; }
    }
  }

  /** They are listed by target. */
  lemma {:induction false} OutgoingSorted(edges: seq<MigrationEdge>, artifact: string, v: Version)
    requires forall i, j | 0 <= i < j < |edges| :: EdgeLess(edges[i], edges[j])
    ensures ByTarget(Outgoing(edges, artifact, v))
  {
    if edges != [] {
      var front, e := edges[..|edges| - 1], edges[|edges| - 1];
      OutgoingSorted(front, artifact, v);
      OutgoingMembers(front, artifact, v);
      if e.artifact == artifact && e.source == v {
        forall x | x in Outgoing(front, artifact, v)
          ensures StringLess(x.target, e.target)
        {
          var k :| 0 <= k < |front| && front[k] == x;
          assert EdgeLess(edges[k], e);
          StringLessIrreflexive(artifact);
          StringLessIrreflexive(v);
        }
        ByTargetMore(Outgoing(front, artifact, v), e);
      }
    }
  }

  method BuildOutgoing(edges: seq<MigrationEdge>, artifact: string) returns (outgoing: map<Version, seq<MigrationEdge>>)
    ensures forall v :: (if v in outgoing then outgoing[v] else []) == Outgoing(edges, artifact, v)
  {
    outgoing := map[];
    assert edges[..0] == [];
    for k := 0 to |edges|
      invariant forall v :: (if v in outgoing then outgoing[v] else []) == Outgoing(edges[..k], artifact, v)
    {
      var edge := edges[k];
      assert edges[..k + 1][..k] == edges[..k];
      if edge.artifact == artifact {
        var before := if edge.source in outgoing then outgoing[edge.source] else [];
        outgoing := outgoing[edge.source := before + [edge]];
      }
    }
    assert edges[..|edges|] == edges;
  }

  // ---------------------------------------------------------------- the search

  datatype Waiting = Waiting(version: Version, path: seq<MigrationEdge>)

  ghost predicate InQueue(queue: seq<Waiting>, v: Version) { exists w :: w in queue && w.version == v }

  /** The best known paths: real ones, none to the target yet. */
  ghost predicate Sound(edges: seq<MigrationEdge>, artifact: string, start: Version, end: Version,
                        found: map<Version, seq<MigrationEdge>>) {
    && start in found && found[start] == [] && end !in found
    && forall v | v in found :: PathTo(edges, artifact, start, v, found[v])
  }

  /** The queue holds best paths in ascending order, all later than the last one taken and each one edge longer than one taken. */
  ghost predicate QueueFine(found: map<Version, seq<MigrationEdge>>, queue: seq<Waiting>, last: seq<Version>) {
    && (forall w | w in queue :: w.version in found && w.path == found[w.version])
    && (forall w | w in queue :: Before(last, Trail(w.path)) && w.path != [] && NotLater(Trail(w.path)[..|w.path| - 1], last))
    && (forall i, j | 0 <= i < j < |queue| :: Before(Trail(queue[i].path), Trail(queue[j].path)))
    && (forall v | v in found && !InQueue(queue, v) :: NotLater(Trail(found[v]), last))
  }

  /** Following the edge led nowhere better than what is known of its end. */
  ghost predicate Followed(found: map<Version, seq<MigrationEdge>>, u: Version, e: MigrationEdge) {
    u in found && e.target in found && NotLater(Trail(found[e.target]), Trail(found[u]) + [e.target])
  }

  /** All edges of `u` have been followed. */
  ghost predicate Exhausted(edges: seq<MigrationEdge>, artifact: string, found: map<Version, seq<MigrationEdge>>, u: Version) {
    forall e | e in Outgoing(edges, artifact, u) :: Followed(found, u, e)
  }

  /** Everything found is exhausted, waits, or is under way with its first `j` edges followed. */
  ghost predicate Explored(edges: seq<MigrationEdge>, artifact: string, found: map<Version, seq<MigrationEdge>>,
                           queue: seq<Waiting>, current: Option<Version>, j: int) {
    && (forall u | u in found && !InQueue(queue, u) && current != Some(u) :: Exhausted(edges, artifact, found, u))
    && (current.Some? ==>
          current.value in found && 0 <= j <= |Outgoing(edges, artifact, current.value)|
          && forall i | 0 <= i < j :: Followed(found, current.value, Outgoing(edges, artifact, current.value)[i]))
  }

  /** The next candidate would be later than all that waits. */
  ghost predicate HasRoom(queue: seq<Waiting>, trail: seq<Version>, out: seq<MigrationEdge>, j: nat) {
    j < |out| ==> forall w | w in queue :: Before(Trail(w.path), trail + [out[j].target])
  }

  /** A path either ends where something no later is known, or is no earlier than the candidate. */
  lemma {:induction false} AlongPath(edges: seq<MigrationEdge>, artifact: string, start: Version, end: Version,
                                     found: map<Version, seq<MigrationEdge>>, queue: seq<Waiting>, current: Version, j: nat,
                                     v: Version, path: seq<MigrationEdge>)
    requires Sound(edges, artifact, start, end, found) && Explored(edges, artifact, found, queue, Some(current), j)
    requires QueueFine(found, queue, Trail(found[current])) && !InQueue(queue, current)
    requires ByTarget(Outgoing(edges, artifact, current)) && j < |Outgoing(edges, artifact, current)|
    requires PathTo(edges, artifact, start, v, path)
    ensures (v in found && NotLater(Trail(found[v]), Trail(path)))
            || NotLater(Trail(found[current]) + [Outgoing(edges, artifact, current)[j].target], Trail(path))
    decreases |path|
  {
    if path != [] {
      var front, e := path[..|path| - 1], path[|path| - 1];
      var candidate := Trail(found[current]) + [Outgoing(edges, artifact, current)[j].target];
      AlongPath(edges, artifact, start, end, found, queue, current, j, e.source, front);
      assert Trail(path) == Trail(front) + [e.target];
      assert Before(Trail(front), Trail(path));
      if NotLater(candidate, Trail(front)) {
        NotLaterChain(candidate, Trail(front), Trail(path));
      } else {
        OneEdgeOn(edges, artifact, found, queue, current, j, e, Trail(front));
      }
    }
  }

  lemma OneEdgeOn(edges: seq<MigrationEdge>, artifact: string, found: map<Version, seq<MigrationEdge>>, queue: seq<Waiting>,
                  current: Version, j: nat, e: MigrationEdge, trail: seq<Version>)
    requires Explored(edges, artifact, found, queue, Some(current), j) && QueueFine(found, queue, Trail(found[current]))
    requires !InQueue(queue, current) && ByTarget(Outgoing(edges, artifact, current)) && j < |Outgoing(edges, artifact, current)|
    requires e in edges && e.artifact == artifact && e.source in found && NotLater(Trail(found[e.source]), trail)
    ensures (e.target in found && NotLater(Trail(found[e.target]), trail + [e.target]))
            || NotLater(Trail(found[current]) + [Outgoing(edges, artifact, current)[j].target], trail + [e.target])
  {
    var u, out := e.source, Outgoing(edges, artifact, current);
    OutgoingMembers(edges, artifact, u);
    hide Before, NotLater, StringLess, Outgoing, Trail;
    if InQueue(queue, u) {
      var w :| w in queue && w.version == u;
      assert Before(Trail(found[current]), Trail(found[u]));
      BeforeThen(Trail(found[current]), Trail(found[u]), trail);
      ExtendTrails(Trail(found[current]), trail, out[j].target, e.target);
      BeforeIsNotLater(Trail(found[current]) + [out[j].target], trail + [e.target]);
    } else {
      if u == current {
        var m :| 0 <= m < |out| && out[m] == e;
        if m >= j {
          ExtendTrails(Trail(found[current]), trail, out[j].target, e.target);
        } else {
          assert Followed(found, u, e);
        }
      } else {
        assert Exhausted(edges, artifact, found, u);
      }
      if Followed(found, u, e) { FollowedOn(found, u, e, trail); }
    }
  }

  lemma BeforeThen(a: seq<Version>, b: seq<Version>, c: seq<Version>)
    requires Before(a, b) && NotLater(b, c)
    ensures Before(a, c)
  {
    NotLaterChain(a, b, c);
  }

  lemma BeforeIsNotLater(a: seq<Version>, b: seq<Version>)
    ensures Before(a, b) ==> NotLater(a, b)
  {
  }

  lemma FollowedOn(found: map<Version, seq<MigrationEdge>>, u: Version, e: MigrationEdge, trail: seq<Version>)
    requires Followed(found, u, e) && NotLater(Trail(found[u]), trail)
    ensures NotLater(Trail(found[e.target]), trail + [e.target])
  {
    ExtendTrails(Trail(found[u]), trail, e.target, e.target);
    NotLaterChain(Trail(found[e.target]), Trail(found[u]) + [e.target], trail + [e.target]);
  }

  /** When nothing waits, every path ends at a known version. */
  lemma {:induction false} AllIsFound(edges: seq<MigrationEdge>, artifact: string, start: Version, end: Version,
                                      found: map<Version, seq<MigrationEdge>>, v: Version, path: seq<MigrationEdge>)
    requires Sound(edges, artifact, start, end, found) && Explored(edges, artifact, found, [], None, 0)
    requires PathTo(edges, artifact, start, v, path)
    ensures v in found
    decreases |path|
  {
    if path != [] {
      var front, e := path[..|path| - 1], path[|path| - 1];
      AllIsFound(edges, artifact, start, end, found, e.source, front);
      OutgoingMembers(edges, artifact, e.source);
      assert Exhausted(edges, artifact, found, e.source);
      assert Followed(found, e.source, e);
    }
  }

  // ---------------------------------------------------------------- steps of the search

  /** Between two turns of the loop; at the start only the first version waits. */
  ghost predicate Turn(edges: seq<MigrationEdge>, artifact: string, start: Version, end: Version,
                       found: map<Version, seq<MigrationEdge>>, queue: seq<Waiting>, last: Option<seq<Version>>) {
    && Sound(edges, artifact, start, end, found)
    && Explored(edges, artifact, found, queue, None, 0)
    && match last
       case None => found.Keys == {start} && queue == [Waiting(start, [])]
       case Some(trail) => QueueFine(found, queue, trail)
  }

  /** Within a turn: `j` edges of the current version have been followed. */
  ghost predicate Following(edges: seq<MigrationEdge>, artifact: string, start: Version, end: Version,
                            found: map<Version, seq<MigrationEdge>>, queue: seq<Waiting>, current: Waiting, j: nat) {
    var out := Outgoing(edges, artifact, current.version);
    && Sound(edges, artifact, start, end, found)
    && Explored(edges, artifact, found, queue, Some(current.version), j)
    && current.version in found && found[current.version] == current.path
    && QueueFine(found, queue, Trail(current.path)) && !InQueue(queue, current.version)
    && HasRoom(queue, Trail(current.path), out, j) && ByTarget(out) && j <= |out|
  }

  lemma {:induction false} BeforeIrreflexive(a: seq<Version>)
    ensures !Before(a, a)
    decreases |a|
  {
    if a != [] {
      BeforeIrreflexive(a[..|a| - 1]);
      StringLessIrreflexive(a[|a| - 1]);
    }
  }

  lemma TurnBegins(edges: seq<MigrationEdge>, artifact: string, start: Version, end: Version)
    requires start != end
    ensures Turn(edges, artifact, start, end, map[start := []], [Waiting(start, [])], None)
  {
    var queue := [Waiting(start, [])];
    assert queue[0] in queue;
    assert InQueue(queue, start);
  }

  lemma TakeFirst(edges: seq<MigrationEdge>, artifact: string, start: Version, end: Version,
                  found: map<Version, seq<MigrationEdge>>, queue: seq<Waiting>, last: Option<seq<Version>>)
    requires Registered(edges) && Turn(edges, artifact, start, end, found, queue, last) && queue != []
    ensures Following(edges, artifact, start, end, found, queue[1..], queue[0], 0)
  {
    OutgoingSorted(edges, artifact, queue[0].version);
    hide Outgoing, Before, NotLater, Trail, ByTarget, Registered, QueueFine, Explored, Sound, HasRoom;
    InFirstOrRest(queue);
    match last
    case None => OnlyFirst(edges, artifact, start, end, found, queue);
    case Some(trail) =>
      FirstIsNext(found, queue, trail);
      RoomAtFirst(found, queue, trail, Outgoing(edges, artifact, queue[0].version));
      FirstIsCurrent(edges, artifact, found, queue);
  }

  lemma FirstIsCurrent(edges: seq<MigrationEdge>, artifact: string, found: map<Version, seq<MigrationEdge>>, queue: seq<Waiting>)
    requires Explored(edges, artifact, found, queue, None, 0) && queue != [] && queue[0].version in found
    ensures Explored(edges, artifact, found, queue[1..], Some(queue[0].version), 0)
  {
    hide Outgoing, Exhausted, InQueue;
    InFirstOrRest(queue);
  }

  lemma OnlyFirst(edges: seq<MigrationEdge>, artifact: string, start: Version, end: Version,
                  found: map<Version, seq<MigrationEdge>>, queue: seq<Waiting>)
    requires Sound(edges, artifact, start, end, found) && Explored(edges, artifact, found, queue, None, 0)
    requires found.Keys == {start} && queue == [Waiting(start, [])]
    ensures queue[0].version in found && found[queue[0].version] == queue[0].path
    ensures QueueFine(found, queue[1..], Trail(queue[0].path)) && !InQueue(queue[1..], queue[0].version)
    ensures HasRoom(queue[1..], Trail(queue[0].path), Outgoing(edges, artifact, queue[0].version), 0)
    ensures Explored(edges, artifact, found, queue[1..], Some(queue[0].version), 0)
  {
    hide Outgoing, Before, Trail, PathTo;
    assert queue[1..] == [];
    NotLaterItself(Trail(queue[0].path));
    FirstIsCurrent(edges, artifact, found, queue);
  }

  lemma InFirstOrRest(queue: seq<Waiting>)
    requires queue != []
    ensures forall v :: InQueue(queue, v) <==> v == queue[0].version || InQueue(queue[1..], v)
  {
    var w, rest := queue[0], queue[1..];
    assert queue == [w] + rest;
    forall v
      ensures InQueue(queue, v) <==> v == w.version || InQueue(rest, v)
    {
      if InQueue(rest, v) {
        var x :| x in rest && x.version == v;
        assert x in queue;
      }
      assert w in queue;
    }
  }

  lemma NotLaterItself(a: seq<Version>)
    ensures NotLater(a, a)
  {
  }

  lemma FirstIsNext(found: map<Version, seq<MigrationEdge>>, queue: seq<Waiting>, last: seq<Version>)
    requires QueueFine(found, queue, last) && queue != []
    ensures QueueFine(found, queue[1..], Trail(queue[0].path)) && !InQueue(queue[1..], queue[0].version)
    ensures queue[0].version in found && found[queue[0].version] == queue[0].path
  {
    var w, rest := queue[0], queue[1..];
    RestIsLater(found, queue, last);
    RestAscends(found, queue, last);
    RestIsTaken(found, queue, last);
    assert w in queue;
    hide Before, NotLater, Trail;
  }

  lemma RestIsLater(found: map<Version, seq<MigrationEdge>>, queue: seq<Waiting>, last: seq<Version>)
    requires QueueFine(found, queue, last) && queue != []
    ensures forall x | x in queue[1..] :: x in queue && Before(Trail(queue[0].path), Trail(x.path)) && x.version != queue[0].version
    ensures forall x | x in queue[1..] :: x.path != [] && NotLater(Trail(x.path)[..|x.path| - 1], Trail(queue[0].path))
  {
    hide Before, NotLater, Trail, QueueFine;
    forall x | x in queue[1..]
      ensures x in queue && Before(Trail(queue[0].path), Trail(x.path)) && x.version != queue[0].version
      ensures x.path != [] && NotLater(Trail(x.path)[..|x.path| - 1], Trail(queue[0].path))
    {
      var i :| 0 <= i < |queue[1..]| && queue[1..][i] == x;
      LaterInQueue(found, queue, last, i + 1);
      assert x == queue[i + 1];
    }
  }

  lemma RestAscends(found: map<Version, seq<MigrationEdge>>, queue: seq<Waiting>, last: seq<Version>)
    requires QueueFine(found, queue, last) && queue != []
    ensures forall i, j | 0 <= i < j < |queue[1..]| :: Before(Trail(queue[1..][i].path), Trail(queue[1..][j].path))
  {
    hide Before, NotLater, Trail;
    forall i, j | 0 <= i < j < |queue[1..]|
      ensures Before(Trail(queue[1..][i].path), Trail(queue[1..][j].path))
    {
      assert queue[1..][i] == queue[i + 1] && queue[1..][j] == queue[j + 1];
    }
  }

  lemma RestIsTaken(found: map<Version, seq<MigrationEdge>>, queue: seq<Waiting>, last: seq<Version>)
    requires QueueFine(found, queue, last) && queue != []
    ensures forall v | v in found && !InQueue(queue[1..], v) :: NotLater(Trail(found[v]), Trail(queue[0].path))
  {
    var w := queue[0];
    assert w in queue;
    hide Before, NotLater, Trail;
    InFirstOrRest(queue);
    forall v | v in found && !InQueue(queue[1..], v)
      ensures NotLater(Trail(found[v]), Trail(w.path))
    {
      if v == w.version { NotLaterItself(Trail(w.path)); } else { ThenBefore(Trail(found[v]), last, Trail(w.path)); }
    }
  }

  lemma LaterInQueue(found: map<Version, seq<MigrationEdge>>, queue: seq<Waiting>, last: seq<Version>, k: nat)
    requires QueueFine(found, queue, last) && 0 < k < |queue|
    ensures var x, w := queue[k], queue[0];
            && Before(Trail(w.path), Trail(x.path)) && x.version != w.version
            && x.path != [] && NotLater(Trail(x.path)[..|x.path| - 1], Trail(w.path))
  {
    hide Before, NotLater, Trail;
    var x, w := queue[k], queue[0];
    assert x in queue && w in queue;
    BeforeIrreflexive(Trail(w.path));
    ThenBefore(Trail(x.path)[..|x.path| - 1], last, Trail(w.path));
  }

  lemma ThenBefore(a: seq<Version>, b: seq<Version>, c: seq<Version>)
    requires NotLater(a, b) && Before(b, c)
    ensures Before(a, c) && NotLater(a, c)
  {
    NotLaterChain(a, b, c);
  }

  lemma RoomAtFirst(found: map<Version, seq<MigrationEdge>>, queue: seq<Waiting>, last: seq<Version>, out: seq<MigrationEdge>)
    requires QueueFine(found, queue, last) && queue != []
    ensures HasRoom(queue[1..], Trail(queue[0].path), out, 0)
  {
    var w, rest := queue[0], queue[1..];
    hide Before, NotLater, QueueFine, Trail;
    assert queue == [w] + rest;
    if 0 < |out| {
      forall x | x in rest
        ensures Before(Trail(x.path), Trail(w.path) + [out[0].target])
      {
        RoomFor(found, queue, last, w, x, out[0].target);
      }
    }
  }

  lemma RoomFor(found: map<Version, seq<MigrationEdge>>, queue: seq<Waiting>, last: seq<Version>, w: Waiting, x: Waiting, v: Version)
    requires QueueFine(found, queue, last) && w in queue && x in queue
    ensures Before(Trail(x.path), Trail(w.path) + [v])
  {
    hide Before, NotLater;
    var n := |x.path| - 1;
    ThenBefore(Trail(x.path)[..n], last, Trail(w.path));
    ExtendTrails(Trail(x.path)[..n], Trail(w.path), Trail(x.path)[n], v);
    assert Trail(x.path) == Trail(x.path)[..n] + [Trail(x.path)[n]];
  }

  /** An edge to a known version: what is known of it is no later. */
  lemma FollowKnown(edges: seq<MigrationEdge>, artifact: string, start: Version, end: Version,
                    found: map<Version, seq<MigrationEdge>>, queue: seq<Waiting>, current: Waiting, j: nat)
    requires Following(edges, artifact, start, end, found, queue, current, j)
    requires var out := Outgoing(edges, artifact, current.version); j < |out| && out[j].target in found
    ensures Following(edges, artifact, start, end, found, queue, current, j + 1)
  {
    hide Outgoing, Before, NotLater, Trail, StringLess;
    var out := Outgoing(edges, artifact, current.version);
    var e, trail := out[j], Trail(current.path);
    if InQueue(queue, e.target) {
      var w :| w in queue && w.version == e.target;
      BeforeIsNotLater(Trail(w.path), trail + [e.target]);
    } else {
      LonglyLater(Trail(found[e.target]), trail, e.target);
    }
    assert Followed(found, current.version, e);
    MoreRoom(queue, trail, out, j);
  }

  lemma LonglyLater(a: seq<Version>, b: seq<Version>, v: Version)
    requires NotLater(a, b)
    ensures NotLater(a, b + [v]) && Before(b, b + [v])
  {
    NotLaterChain(a, b, b + [v]);
  }

  lemma MoreRoom(queue: seq<Waiting>, trail: seq<Version>, out: seq<MigrationEdge>, j: nat)
    requires HasRoom(queue, trail, out, j) && ByTarget(out) && j < |out|
    ensures HasRoom(queue, trail, out, j + 1)
  {
    hide Before, StringLess;
    if j + 1 < |out| {
      assert StringLess(out[j].target, out[j + 1].target);
      ExtendTrails(trail, trail, out[j].target, out[j + 1].target);
      forall w | w in queue
        ensures Before(Trail(w.path), trail + [out[j + 1].target])
      {
        BeforeTransitive(Trail(w.path), trail + [out[j].target], trail + [out[j + 1].target]);
      }
    }
  }

  /** An edge to a new version: it joins the end of the queue. */
  lemma FollowNew(edges: seq<MigrationEdge>, artifact: string, start: Version, end: Version,
                  found: map<Version, seq<MigrationEdge>>, queue: seq<Waiting>, current: Waiting, j: nat)
    requires Following(edges, artifact, start, end, found, queue, current, j)
    requires var out := Outgoing(edges, artifact, current.version);
             j < |out| && out[j].target !in found && out[j].target != end
    ensures var e := Outgoing(edges, artifact, current.version)[j];
            Following(edges, artifact, start, end, found[e.target := current.path + [e]],
                      queue + [Waiting(e.target, current.path + [e])], current, j + 1)
  {
    var out := Outgoing(edges, artifact, current.version);
    var e, trail := out[j], Trail(current.path);
    var path := current.path + [e];
    OneLonger(edges, artifact, start, current.version, current.path, e);
    hide Outgoing, Before, NotLater, Trail, StringLess, PathTo, QueueFine, Explored, HasRoom, ByTarget, InQueue, Sound;
    SoundGrows(edges, artifact, start, end, found, e.target, path);
    InQueueMore(queue, Waiting(e.target, path));
    MoreRoomWith(queue, trail, out, j, path);
    assert forall w | w in queue :: Before(Trail(w.path), Trail(path)) by { RoomMeans(queue, trail, out, j); }
    QueueGrows(found, queue, trail, e.target, path);
    ExploredGrows(edges, artifact, found, queue, current.version, j, path);
  }

  lemma SoundGrows(edges: seq<MigrationEdge>, artifact: string, start: Version, end: Version,
                   found: map<Version, seq<MigrationEdge>>, v: Version, path: seq<MigrationEdge>)
    requires Sound(edges, artifact, start, end, found) && v !in found && v != end && PathTo(edges, artifact, start, v, path)
    ensures Sound(edges, artifact, start, end, found[v := path])
  {
    hide PathTo;
  }

  lemma RoomMeans(queue: seq<Waiting>, trail: seq<Version>, out: seq<MigrationEdge>, j: nat)
    requires HasRoom(queue, trail, out, j) && j < |out|
    ensures forall w | w in queue :: Before(Trail(w.path), trail + [out[j].target])
  {
  }

  lemma OneLonger(edges: seq<MigrationEdge>, artifact: string, start: Version, v: Version, path: seq<MigrationEdge>, e: MigrationEdge)
    requires PathTo(edges, artifact, start, v, path) && e in Outgoing(edges, artifact, v)
    ensures PathTo(edges, artifact, start, e.target, path + [e])
    ensures Trail(path + [e]) == Trail(path) + [e.target] && Trail(path + [e])[..|path + [e]| - 1] == Trail(path)
  {
    OutgoingMembers(edges, artifact, v);
    assert (path + [e])[..|path|] == path;
  }

  lemma ExploredGrows(edges: seq<MigrationEdge>, artifact: string, found: map<Version, seq<MigrationEdge>>, queue: seq<Waiting>,
                      v: Version, j: nat, path: seq<MigrationEdge>)
    requires Explored(edges, artifact, found, queue, Some(v), j) && j < |Outgoing(edges, artifact, v)|
    requires var e := Outgoing(edges, artifact, v)[j]; e.target !in found && Trail(path) == Trail(found[v]) + [e.target]
    ensures var e := Outgoing(edges, artifact, v)[j];
            Explored(edges, artifact, found[e.target := path], queue + [Waiting(e.target, path)], Some(v), j + 1)
  {
    hide Outgoing, Before, NotLater, Trail;
    var out := Outgoing(edges, artifact, v);
    var found', queue' := found[out[j].target := path], queue + [Waiting(out[j].target, path)];
    InQueueMore(queue, Waiting(out[j].target, path));
    NotLaterItself(Trail(path));
    hide InQueue;
    forall u | u in found' && !InQueue(queue', u) && u != v
      ensures Exhausted(edges, artifact, found', u)
    {
      assert Exhausted(edges, artifact, found, u);
      forall x | x in Outgoing(edges, artifact, u) ensures Followed(found', u, x) { assert Followed(found, u, x); }
    }
    forall i | 0 <= i < j + 1
      ensures Followed(found', v, out[i])
    {
      if i < j { assert Followed(found, v, out[i]); }
    }
  }

  lemma InQueueMore(queue: seq<Waiting>, w: Waiting)
    ensures forall v :: InQueue(queue + [w], v) <==> InQueue(queue, v) || v == w.version
  {
    assert (queue + [w])[|queue|] == w;
    forall v | InQueue(queue, v)
      ensures InQueue(queue + [w], v)
    {
      var x :| x in queue && x.version == v;
      assert x in queue + [w];
    }
  }

  lemma MoreRoomWith(queue: seq<Waiting>, trail: seq<Version>, out: seq<MigrationEdge>, j: nat, path: seq<MigrationEdge>)
    requires HasRoom(queue, trail, out, j) && ByTarget(out) && j < |out| && Trail(path) == trail + [out[j].target]
    ensures HasRoom(queue + [Waiting(out[j].target, path)], trail, out, j + 1)
  {
    MoreRoom(queue, trail, out, j);
    hide Before, StringLess, Trail;
    if j + 1 < |out| {
      assert StringLess(out[j].target, out[j + 1].target);
      ExtendTrails(trail, trail, out[j].target, out[j + 1].target);
    }
  }

  lemma QueueGrows(found: map<Version, seq<MigrationEdge>>, queue: seq<Waiting>, trail: seq<Version>, v: Version, path: seq<MigrationEdge>)
    requires QueueFine(found, queue, trail) && v !in found && path != []
    requires Trail(path) == trail + [v] && Trail(path)[..|path| - 1] == trail
    requires forall w | w in queue :: Before(Trail(w.path), Trail(path))
    ensures QueueFine(found[v := path], queue + [Waiting(v, path)], trail)
  {
    hide Before, NotLater, Trail;
    LonglyLater(trail, trail, v) by { NotLaterItself(trail); }
    NotLaterItself(trail);
    InQueueMore(queue, Waiting(v, path));
    var queue' := queue + [Waiting(v, path)];
    forall i, j | 0 <= i < j < |queue'|
      ensures Before(Trail(queue'[i].path), Trail(queue'[j].path))
    {
      assert queue'[i] == queue[i] && queue[i] in queue;
      if j < |queue| { assert queue'[j] == queue[j]; }
    }
  }

  lemma TurnEnds(edges: seq<MigrationEdge>, artifact: string, start: Version, end: Version,
                 found: map<Version, seq<MigrationEdge>>, queue: seq<Waiting>, current: Waiting)
    requires Following(edges, artifact, start, end, found, queue, current, |Outgoing(edges, artifact, current.version)|)
    ensures Turn(edges, artifact, start, end, found, queue, Some(Trail(current.path)))
  {
    hide Outgoing, Before, NotLater, Trail;
    forall e | e in Outgoing(edges, artifact, current.version)
      ensures Followed(found, current.version, e)
    {
      var i :| 0 <= i < |Outgoing(edges, artifact, current.version)| && Outgoing(edges, artifact, current.version)[i] == e;
    }
  }

  datatype Search = Found(path: seq<MigrationEdge>) | InvalidIdentity | NoPath

  ghost predicate LeastPath(edges: seq<MigrationEdge>, artifact: string, start: Version, end: Version, path: seq<MigrationEdge>) {
    && PathTo(edges, artifact, start, end, path)
    && forall other | PathTo(edges, artifact, start, end, other) :: NotLater(Trail(path), Trail(other))
  }

  lemma NoStepNeeded(edges: seq<MigrationEdge>, artifact: string, v: Version)
    ensures LeastPath(edges, artifact, v, v, [])
  {
  }

  lemma CandidateIsLeast(edges: seq<MigrationEdge>, artifact: string, start: Version, end: Version,
                         found: map<Version, seq<MigrationEdge>>, queue: seq<Waiting>, current: Waiting, j: nat)
    requires Following(edges, artifact, start, end, found, queue, current, j)
    requires j < |Outgoing(edges, artifact, current.version)| && Outgoing(edges, artifact, current.version)[j].target == end
    ensures LeastPath(edges, artifact, start, end, current.path + [Outgoing(edges, artifact, current.version)[j]])
  {
    var e := Outgoing(edges, artifact, current.version)[j];
    var path := current.path + [e];
    OutgoingMembers(edges, artifact, current.version);
    assert path[..|path| - 1] == current.path;
    assert Trail(path) == Trail(current.path) + [end];
    hide Outgoing, NotLater, Trail;
    forall other | PathTo(edges, artifact, start, end, other)
      ensures NotLater(Trail(path), Trail(other))
    {
      AlongPath(edges, artifact, start, end, found, queue, current.version, j, end, other);
    }
  }

  /** The inner loop: every edge from the current version, until one arrives. */
  method FollowEdges(ghost edges: seq<MigrationEdge>, ghost artifact: string, ghost start: Version, end: Version,
                     out: seq<MigrationEdge>, current: Waiting, queue0: seq<Waiting>, visited0: set<Version>,
                     ghost found0: map<Version, seq<MigrationEdge>>)
    returns (arrived: Option<seq<MigrationEdge>>, queue: seq<Waiting>, visited: set<Version>, ghost found: map<Version, seq<MigrationEdge>>)
    requires Following(edges, artifact, start, end, found0, queue0, current, 0)
    requires out == Outgoing(edges, artifact, current.version) && visited0 == found0.Keys
    ensures arrived.Some? ==> LeastPath(edges, artifact, start, end, arrived.value)
    ensures arrived.None? ==> Following(edges, artifact, start, end, found, queue, current, |out|)
    ensures visited == found.Keys && visited0 <= visited <= visited0 + Reachable(edges, start)
    ensures visited == visited0 ==> queue == queue0
  {
    hide *;
    arrived, queue, visited, found := None, queue0, visited0, found0;
    for j := 0 to |out|
      invariant arrived.None? && Following(edges, artifact, start, end, found, queue, current, j)
      invariant visited == found.Keys && visited0 <= visited <= visited0 + Reachable(edges, start)
      invariant visited == visited0 ==> queue == queue0
    {
      var edge := out[j];
      var candidate := current.path + [edge];
      if edge.target == end {
        CandidateIsLeast(edges, artifact, start, end, found, queue, current, j);
        arrived := Some(candidate);
        return;
      }
      if edge.target !in visited {
        FollowNew(edges, artifact, start, end, found, queue, current, j);
        TargetIsReachable(edges, artifact, start, current.version, edge);
        found := found[edge.target := candidate];
        visited := visited + {edge.target};
        queue := queue + [Waiting(edge.target, candidate)];
      } else {
        FollowKnown(edges, artifact, start, end, found, queue, current, j);
      }
    }
  }

  /** `MigrationRegistry.path`: the first among the shortest paths, and none only when there is none. */
  method FindPath(edges: seq<MigrationEdge>, artifact: string, start: Version, end: Version) returns (search: Search)
    requires Registered(edges)
    ensures search.InvalidIdentity? <==> artifact == "" || start == "" || end == ""
    ensures search.Found? ==> LeastPath(edges, artifact, start, end, search.path)
    ensures search.NoPath? ==> forall path :: !PathTo(edges, artifact, start, end, path)
  {
    if artifact == "" || start == "" || end == "" { return InvalidIdentity; }
    if start == end {
      NoStepNeeded(edges, artifact, start);
      return Found([]);
    }
    var outgoing := BuildOutgoing(edges, artifact);
    var queue := [Waiting(start, [])];
    var visited := {start};
    ghost var found, last: Option<seq<Version>> := map[start := []], None;
    ghost var bound := Reachable(edges, start);
    TurnBegins(edges, artifact, start, end);
    StartIsReachable(edges, start);
    hide *;
    while queue != []
      invariant Turn(edges, artifact, start, end, found, queue, last)
      invariant visited == found.Keys && visited <= bound
      decreases |bound - visited|, |queue|
    {
      var current := queue[0];
      TakeFirst(edges, artifact, start, end, found, queue, last);
      ghost var visited0, queue0 := visited, queue;
      queue := queue[1..];
      var out := if current.version in outgoing then outgoing[current.version] else [];
      var arrived;
      arrived, queue, visited, found := FollowEdges(edges, artifact, start, end, out, current, queue, visited, found);
      if arrived.Some? { return Found(arrived.value); }
      TurnEnds(edges, artifact, start, end, found, queue, current);
      last := Some(Trail(current.path));
      if visited != visited0 { FewerLeft(bound, visited0, visited); }
    }
    forall path { NoneIsLeft(edges, artifact, start, end, found, last, path); }
    search := NoPath;
  }

  ghost function Reachable(edges: seq<MigrationEdge>, start: Version): set<Version> {
    {start} + set i | 0 <= i < |edges| :: edges[i].target
  }

  lemma StartIsReachable(edges: seq<MigrationEdge>, start: Version)
    ensures start in Reachable(edges, start)
  {
  }

  lemma TargetIsReachable(edges: seq<MigrationEdge>, artifact: string, start: Version, v: Version, e: MigrationEdge)
    requires e in Outgoing(edges, artifact, v)
    ensures e.target in Reachable(edges, start)
  {
    OutgoingMembers(edges, artifact, v);
  }

  lemma FewerLeft(bound: set<Version>, before: set<Version>, after: set<Version>)
    requires before <= after <= bound && before != after
    ensures |bound - after| < |bound - before|
  {
    var added := after - before;
    assert after == before + added;
    assert added != {};
    assert bound - before == (bound - after) + added;
  }

  lemma NoneIsLeft(edges: seq<MigrationEdge>, artifact: string, start: Version, end: Version,
                   found: map<Version, seq<MigrationEdge>>, last: Option<seq<Version>>, path: seq<MigrationEdge>)
    requires Turn(edges, artifact, start, end, found, [], last)
    ensures !PathTo(edges, artifact, start, end, path)
  {
    if PathTo(edges, artifact, start, end, path) { AllIsFound(edges, artifact, start, end, found, end, path); }
  }
}
