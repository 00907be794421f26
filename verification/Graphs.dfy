/** Directed graphs, and Kahn's algorithm over edge lists in which an edge may be listed more than once. */
module Graphs {
  import opened Order

  type Id = string
  datatype Edge = Edge(source: Id, target: Id)

  ghost predicate Walk(edges: set<Edge>, w: seq<Id>) {
    |w| > 0 && forall i | 0 <= i < |w| - 1 :: Edge(w[i], w[i + 1]) in edges
  }

  /** A closed walk of at least one edge. */
  ghost predicate Cycle(edges: set<Edge>, w: seq<Id>) {
    Walk(edges, w) && |w| > 1 && w[0] == w[|w| - 1]
  }

  ghost predicate Acyclic(edges: set<Edge>) {
    forall w :: !Cycle(edges, w)
  }

  ghost predicate Within(edges: set<Edge>, nodes: set<Id>) {
    forall e | e in edges :: e.source in nodes && e.target in nodes
  }

  ghost predicate Reaches(edges: set<Edge>, a: Id, b: Id) {
    exists w :: Walk(edges, w) && w[0] == a && w[|w| - 1] == b
  }

  function Elements(s: seq<Id>): set<Id> { set x | x in s }

  function EdgeSet(edges: seq<Edge>): set<Edge> { set e | e in edges }

  /** Every node once, and every edge from an earlier to a later node. */
  ghost predicate Topological(nodes: set<Id>, edges: set<Edge>, order: seq<Id>) {
    && Unique(order) && Elements(order) == nodes
    && forall i, j | 0 <= i < |order| && 0 <= j < |order| :: Edge(order[i], order[j]) in edges ==> i < j
  }

  // ---------------------------------------------------------------- order excludes cycles

  lemma {:induction false} OrderAlongWalk(nodes: set<Id>, edges: set<Edge>, order: seq<Id>, w: seq<Id>, i: nat)
    requires Topological(nodes, edges, order) && Within(edges, nodes) && Walk(edges, w)
    requires |w| > 1 && i < |order| && order[i] == w[0]
    ensures exists j :: i < j < |order| && order[j] == w[|w| - 1]
  {
    assert Edge(w[0], w[1]) in edges;
    assert w[1] in Elements(order);
    var k :| 0 <= k < |order| && order[k] == w[1];
    if |w| > 2 {
      assert Walk(edges, w[1..]) by {
        forall m | 0 <= m < |w[1..]| - 1
          ensures Edge(w[1..][m], w[1..][m + 1]) in edges
        {
          assert Edge(w[m + 1], w[m + 2]) in edges;
        }
      }
      OrderAlongWalk(nodes, edges, order, w[1..], k);
    }
  }

  lemma OrderedIsAcyclic(nodes: set<Id>, edges: set<Edge>, order: seq<Id>)
    requires Topological(nodes, edges, order) && Within(edges, nodes)
    ensures Acyclic(edges)
  {
    forall w
      ensures !Cycle(edges, w)
    {
      if Cycle(edges, w) {
        assert Edge(w[0], w[1]) in edges;
        assert w[0] in Elements(order);
        var i :| 0 <= i < |order| && order[i] == w[0];
        OrderAlongWalk(nodes, edges, order, w, i);
      }
    }
  }

  // ---------------------------------------------------------------- a stuck set holds a cycle

  lemma {:induction false} PigeonHole(w: seq<Id>, s: set<Id>)
    requires |w| > |s| && forall x | x in w :: x in s
    ensures !Unique(w)
  {
    if Unique(w) {
      UniqueIsSmall(w, s);
      assert false;
    }
  }

  lemma {:induction false} UniqueIsSmall(w: seq<Id>, s: set<Id>)
    requires Unique(w) && forall x | x in w :: x in s
    ensures |w| <= |s|
    ensures |w| == |s| ==> Elements(w) == s
  {
    if w != [] {
      FirstOfUnique(w);
      UniqueIsSmall(w[1..], s - {w[0]}) by {
        assert forall y | y in w[1..] :: y in w;
      }
    }
  }

  lemma FirstOfUnique(w: seq<Id>)
    requires Unique(w) && w != []
    ensures Unique(w[1..]) && w[0] !in w[1..] && w[0] in w
    ensures Elements(w) == {w[0]} + Elements(w[1..])
  {
    assert w == [w[0]] + w[1..];
  }

  /** Some member of `s` leads to `v`. */
  ghost predicate Fed(edges: set<Edge>, s: set<Id>, v: Id) {
    exists u :: u in s && Edge(u, v) in edges
  }

  /** A backward walk of any length inside a set whose members all have a predecessor in it. */
  lemma {:induction false} BackwardWalk(edges: set<Edge>, s: set<Id>, start: Id, n: nat) returns (w: seq<Id>)
    requires start in s && forall v | v in s :: Fed(edges, s, v)
    ensures Walk(edges, w) && |w| == n + 1 && forall x | x in w :: x in s
  {
    if n == 0 {
      w := [start];
    } else {
      var rest := BackwardWalk(edges, s, start, n - 1);
      assert rest[0] in rest && Fed(edges, s, rest[0]);
      var u :| u in s && Edge(u, rest[0]) in edges;
      w := [u] + rest;
      forall i | 0 <= i < |w| - 1
        ensures Edge(w[i], w[i + 1]) in edges
      {
        if i > 0 { assert Edge(rest[i - 1], rest[i]) in edges; }
      }
    }
  }

  lemma StuckIsCyclic(edges: set<Edge>, s: set<Id>)
    requires s != {} && forall v | v in s :: Fed(edges, s, v)
    ensures !Acyclic(edges)
  {
    hide Fed;
    var start :| start in s;
    var w := BackwardWalk(edges, s, start, |s|);
    PigeonHole(w, s);
    var i, j :| 0 <= i < j < |w| && w[i] == w[j];
    SubWalk(edges, w, i, j);
    assert Cycle(edges, w[i..j + 1]);
  }

  lemma SubWalk(edges: set<Edge>, w: seq<Id>, i: nat, j: nat)
    requires Walk(edges, w) && i <= j < |w|
    ensures Walk(edges, w[i..j + 1])
  {
    var c := w[i..j + 1];
    forall k | 0 <= k < |c| - 1
      ensures Edge(c[k], c[k + 1]) in edges
    {
      assert Edge(w[i + k], w[i + k + 1]) in edges;
    }
  }

  // ---------------------------------------------------------------- reachability

  ghost predicate ReachedFrom(edges: set<Edge>, start: set<Id>, v: Id) {
    exists s :: s in start && Reaches(edges, s, v)
  }

  lemma OneStepMore(edges: set<Edge>, start: set<Id>, u: Id, v: Id)
    requires ReachedFrom(edges, start, u) && Edge(u, v) in edges
    ensures ReachedFrom(edges, start, v)
  {
    var s :| s in start && Reaches(edges, s, u);
    var w :| Walk(edges, w) && w[0] == s && w[|w| - 1] == u;
    var longer := w + [v];
    forall i | 0 <= i < |longer| - 1
      ensures Edge(longer[i], longer[i + 1]) in edges
    {
      if i < |w| - 1 { assert Edge(w[i], w[i + 1]) in edges; }
    }
    assert Walk(edges, longer) && longer[0] == s && longer[|longer| - 1] == v;
  }

  lemma StartIsReached(edges: set<Edge>, start: set<Id>, s: Id)
    requires s in start
    ensures ReachedFrom(edges, start, s)
  {
    var w := [s];
    assert Walk(edges, w) && w[0] == s && w[|w| - 1] == s;
  }

  lemma {:induction false} ClosedHoldsWalks(edges: set<Edge>, closed: set<Id>, w: seq<Id>)
    requires Walk(edges, w) && w[0] in closed
    requires forall e | e in edges && e.source in closed :: e.target in closed
    ensures w[|w| - 1] in closed
  {
    if |w| > 1 {
      assert Edge(w[0], w[1]) in edges;
      SubWalk(edges, w, 1, |w| - 1);
      assert w[1..] == w[1..|w| - 1 + 1];
      ClosedHoldsWalks(edges, closed, w[1..]);
    }
  }

  /** A set that starts right, is closed and holds only reached nodes is the set of reached nodes. */
  lemma ClosedIsReached(edges: set<Edge>, start: set<Id>, closed: set<Id>)
    requires start <= closed && forall v | v in closed :: ReachedFrom(edges, start, v)
    requires forall e | e in edges && e.source in closed :: e.target in closed
    ensures forall v :: v in closed <==> ReachedFrom(edges, start, v)
  {
    forall v | ReachedFrom(edges, start, v)
      ensures v in closed
    {
      var s :| s in start && Reaches(edges, s, v);
      var w :| Walk(edges, w) && w[0] == s && w[|w| - 1] == v;
      ClosedHoldsWalks(edges, closed, w);
    }
  }

  // ---------------------------------------------------------------- counting edges

  /** The targets of the edges that leave `u`, in the order they are listed. */
  function Targets(edges: seq<Edge>, u: Id): seq<Id> {
    if edges == [] then []
    else
      var e, rest := edges[|edges| - 1], Targets(edges[..|edges| - 1], u);
      if e.source == u then rest + [e.target] else rest
  }

  /** How many listed edges lead to `v` from a node outside `done`. */
  function Pending(edges: seq<Edge>, done: set<Id>, v: Id): nat {
    if edges == [] then 0
    else
      var e := edges[|edges| - 1];
      Pending(edges[..|edges| - 1], done, v) + if e.target == v && e.source !in done then 1 else 0
  }

  lemma {:induction false} FinishingOne(edges: seq<Edge>, done: set<Id>, u: Id, v: Id)
    requires u !in done
    ensures Pending(edges, done, v) == Pending(edges, done + {u}, v) + multiset(Targets(edges, u))[v]
  {
    if edges != [] {
      FinishingOne(edges[..|edges| - 1], done, u, v);
    }
  }

  lemma {:induction false} PendingEdge(edges: seq<Edge>, done: set<Id>, v: Id)
    ensures Pending(edges, done, v) > 0 <==> exists u :: u !in done && Edge(u, v) in edges
  {
    if edges != [] {
      var front, e := edges[..|edges| - 1], edges[|edges| - 1];
      PendingEdge(front, done, v);
      assert edges == front + [e];
      if e.target == v && e.source !in done {
        assert Edge(e.source, v) in edges;
      }
    }
  }

  lemma {:induction false} TargetEdge(edges: seq<Edge>, u: Id, v: Id)
    ensures v in Targets(edges, u) <==> Edge(u, v) in edges
  {
    if edges != [] {
      var front, e := edges[..|edges| - 1], edges[|edges| - 1];
      TargetEdge(front, u, v);
      assert edges == front + [e];
    }
  }

  // ---------------------------------------------------------------- Kahn's algorithm

  /** The counters and lists after the first `k` edges. */
  ghost predicate Counters(nodes: set<Id>, edges: seq<Edge>, k: int, incoming: map<Id, nat>, outgoing: map<Id, seq<Id>>) {
    && 0 <= k <= |edges| && incoming.Keys == nodes && outgoing.Keys == nodes
    && forall v | v in nodes :: incoming[v] == Pending(edges[..k], {}, v) && outgoing[v] == Targets(edges[..k], v)
  }

  lemma CountersStep(nodes: set<Id>, edges: seq<Edge>, k: nat, incoming: map<Id, nat>, outgoing: map<Id, seq<Id>>)
    requires Within(EdgeSet(edges), nodes) && k < |edges| && Counters(nodes, edges, k, incoming, outgoing)
    ensures edges[k].source in nodes && edges[k].target in nodes && incoming.Keys == nodes && outgoing.Keys == nodes
    ensures var e := edges[k];
            Counters(nodes, edges, k + 1, incoming[e.target := incoming[e.target] + 1],
                     outgoing[e.source := outgoing[e.source] + [e.target]])
  {
    assert edges[k] in EdgeSet(edges);
    assert edges[..k + 1][..k] == edges[..k] && edges[..k + 1][k] == edges[k];
  }

  /** The counters and lists every variant starts from. */
  method CountEdges(nodes: set<Id>, edges: seq<Edge>) returns (incoming: map<Id, nat>, outgoing: map<Id, seq<Id>>)
    requires Within(EdgeSet(edges), nodes)
    ensures incoming.Keys == nodes && forall v | v in nodes :: incoming[v] == Pending(edges, {}, v)
    ensures outgoing.Keys == nodes && forall v | v in nodes :: outgoing[v] == Targets(edges, v)
  {
    incoming := map v | v in nodes :: 0;
    outgoing := map v | v in nodes :: [];
    assert edges[..0] == [];
    for k := 0 to |edges|
      invariant Counters(nodes, edges, k, incoming, outgoing)
    {
      hide *;
      CountersStep(nodes, edges, k, incoming, outgoing);
      incoming := incoming[edges[k].target := incoming[edges[k].target] + 1];
      outgoing := outgoing[edges[k].source := outgoing[edges[k].source] + [edges[k].target]];
    }
    assert edges[..|edges|] == edges;
  }

  /** The state of the algorithm: finished nodes in order, ready nodes, and counters for all. */
  ghost predicate KahnState(nodes: set<Id>, edges: seq<Edge>, done: seq<Id>, queue: seq<Id>, incoming: map<Id, nat>) {
    && Unique(done) && Unique(queue)
    && incoming.Keys == nodes
    && (forall v | v in done :: v in nodes && v !in queue)
    && (forall v | v in queue :: v in nodes)
    && (forall v | v in nodes :: incoming[v] == Pending(edges, Elements(done), v))
    && (forall v | v in nodes :: incoming[v] == 0 <==> v in done || v in queue)
    && (forall i, j | 0 <= i < |done| && 0 <= j < |done| :: Edge(done[i], done[j]) in edges ==> i < j)
  }

  /** The counters and the queue after the first `k` targets have been relaxed. */
  ghost predicate RelaxState(start: map<Id, nat>, queue0: seq<Id>, targets: seq<Id>, k: int,
                             incoming: map<Id, nat>, queue: seq<Id>) {
    && 0 <= k <= |targets|
    && Counted(start, targets, k, incoming)
    && Queued(queue0, targets, k, incoming, queue)
  }

  ghost predicate Counted(start: map<Id, nat>, targets: seq<Id>, k: nat, incoming: map<Id, nat>)
    requires k <= |targets|
  {
    && incoming.Keys == start.Keys
    && forall v | v in start :: incoming[v] + multiset(targets[..k])[v] == start[v]
  }

  ghost predicate Queued(queue0: seq<Id>, targets: seq<Id>, k: nat, incoming: map<Id, nat>, queue: seq<Id>)
    requires k <= |targets|
  {
    && queue0 <= queue && Unique(queue[|queue0|..])
    && forall v :: v in queue[|queue0|..] <==> v in targets[..k] && v in incoming && incoming[v] == 0
  }

  lemma CountedPrefix(targets: seq<Id>, k: nat)
    requires k < |targets|
    ensures multiset(targets[..k + 1]) == multiset(targets[..k]) + multiset{targets[k]}
    ensures multiset(targets[..k])[targets[k]] + 1 <= multiset(targets)[targets[k]]
  {
    assert targets[..k + 1] == targets[..k] + [targets[k]];
    assert targets == targets[..k + 1] + targets[k + 1..];
  }

  lemma RelaxStep(start: map<Id, nat>, queue0: seq<Id>, targets: seq<Id>, k: nat,
                  incoming: map<Id, nat>, queue: seq<Id>)
    requires RelaxState(start, queue0, targets, k, incoming, queue) && k < |targets|
    requires forall v | v in targets :: v in start
    requires forall v | v in start :: multiset(targets)[v] <= start[v]
    ensures targets[k] in incoming && incoming[targets[k]] > 0
    ensures var v := targets[k];
            var incoming' := incoming[v := incoming[v] - 1];
            RelaxState(start, queue0, targets, k + 1, incoming', if incoming'[v] == 0 then queue + [v] else queue)
  {
    hide Counted, Queued;
    assert targets[k] in targets;
    CounterStep(start, targets, k, incoming);
    QueueStep(queue0, targets, k, incoming, queue);
  }

  lemma CounterStep(start: map<Id, nat>, targets: seq<Id>, k: nat, incoming: map<Id, nat>)
    requires k < |targets| && targets[k] in start && Counted(start, targets, k, incoming)
    requires forall v | v in start :: multiset(targets)[v] <= start[v]
    ensures targets[k] in incoming && incoming[targets[k]] > 0
    ensures Counted(start, targets, k + 1, incoming[targets[k] := incoming[targets[k]] - 1])
  {
    var x := targets[k];
    CountedPrefix(targets, k);
    assert incoming[x] + multiset(targets[..k])[x] == start[x];
    var incoming' := incoming[x := incoming[x] - 1];
    forall u | u in start
      ensures incoming'[u] + multiset(targets[..k + 1])[u] == start[u]
    {
      assert incoming[u] + multiset(targets[..k])[u] == start[u];
    }
  }

  lemma QueueStep(queue0: seq<Id>, targets: seq<Id>, k: nat, incoming: map<Id, nat>, queue: seq<Id>)
    requires k < |targets| && Queued(queue0, targets, k, incoming, queue)
    requires targets[k] in incoming && incoming[targets[k]] > 0
    ensures var v := targets[k];
            var incoming' := incoming[v := incoming[v] - 1];
            Queued(queue0, targets, k + 1, incoming', if incoming'[v] == 0 then queue + [v] else queue)
  {
    var v := targets[k];
    var incoming' := incoming[v := incoming[v] - 1];
    var queue' := if incoming'[v] == 0 then queue + [v] else queue;
    assert targets[..k + 1] == targets[..k] + [v];
    var old1, new1 := queue[|queue0|..], queue'[|queue0|..];
    assert new1 == if incoming'[v] == 0 then old1 + [v] else old1;
    assert v !in old1;
    forall u
      ensures u in new1 <==> u in targets[..k + 1] && u in incoming' && incoming'[u] == 0
    {
      assert u in old1 <==> u in targets[..k] && u in incoming && incoming[u] == 0;
    }
  }

  /** The inner loop: every target loses one incoming edge and becomes ready when none is left. */
  method Relax(targets: seq<Id>, start: map<Id, nat>, queue0: seq<Id>) returns (incoming: map<Id, nat>, queue: seq<Id>)
    requires forall v | v in targets :: v in start
    requires forall v | v in start :: multiset(targets)[v] <= start[v]
    ensures RelaxState(start, queue0, targets, |targets|, incoming, queue)
  {
    incoming, queue := start, queue0;
    RelaxBegins(start, queue0, targets);
    for k := 0 to |targets|
      invariant RelaxState(start, queue0, targets, k, incoming, queue)
    {
      hide RelaxState;
      RelaxStep(start, queue0, targets, k, incoming, queue);
      incoming := incoming[targets[k] := incoming[targets[k]] - 1];
      if incoming[targets[k]] == 0 {
        queue := queue + [targets[k]];
      }
    }
  }

  lemma RelaxBegins(start: map<Id, nat>, queue0: seq<Id>, targets: seq<Id>)
    ensures RelaxState(start, queue0, targets, 0, start, queue0)
  {
    assert queue0[|queue0|..] == [] && targets[..0] == [];
  }

  // ---------------------------------------------------------------- one node finished

  lemma KahnBegins(nodes: set<Id>, edges: seq<Edge>, queue: seq<Id>, incoming: map<Id, nat>)
    requires incoming.Keys == nodes && forall v | v in nodes :: incoming[v] == Pending(edges, {}, v)
    requires Unique(queue) && forall v :: v in queue <==> v in nodes && incoming[v] == 0
    ensures KahnState(nodes, edges, [], queue, incoming)
  {
    assert Elements([]) == {};
  }

  /** Only the members of the queue matter, so it may be kept in any order. */
  lemma QueueOrder(nodes: set<Id>, edges: seq<Edge>, done: seq<Id>, queue: seq<Id>, queue': seq<Id>, incoming: map<Id, nat>)
    requires KahnState(nodes, edges, done, queue, incoming)
    requires Unique(queue') && forall v :: v in queue' <==> v in queue
    ensures KahnState(nodes, edges, done, queue', incoming)
  {
  }

  /** Finishing any ready node and relaxing its targets keeps the state. */
  lemma KahnStep(nodes: set<Id>, edges: seq<Edge>, done: seq<Id>, queue: seq<Id>, incoming: map<Id, nat>,
                 u: Id, rest: seq<Id>, targets: seq<Id>, incoming': map<Id, nat>, queue': seq<Id>)
    requires Within(EdgeSet(edges), nodes) && KahnState(nodes, edges, done, queue, incoming)
    requires u in queue && Unique(rest) && forall v :: v in rest <==> v in queue && v != u
    requires multiset(targets) == multiset(Targets(edges, u))
    requires RelaxState(incoming, rest, targets, |targets|, incoming', queue')
    ensures KahnState(nodes, edges, done + [u], queue', incoming')
  {
    assert targets[..|targets|] == targets;
    assert Elements(done + [u]) == Elements(done) + {u};
    var added := queue'[|rest|..];
    assert queue' == rest + added;
    forall v | v in nodes
      ensures incoming'[v] == Pending(edges, Elements(done + [u]), v)
      ensures v in targets <==> Edge(u, v) in edges
    {
      FinishingOne(edges, Elements(done), u, v);
      TargetEdge(edges, u, v);
      assert v in targets <==> v in multiset(targets);
      assert v in Targets(edges, u) <==> v in multiset(Targets(edges, u));
    }
    FreshIsNew(nodes, edges, done, queue, incoming, u, targets, incoming', added);
    QueueGrows(rest, added);
    DoneStaysOrdered(nodes, edges, done, queue, incoming, u);
    forall v | v in nodes
      ensures incoming'[v] == 0 <==> v in done + [u] || v in queue'
    {
      assert incoming[v] == 0 <==> v in done || v in queue;
      assert v in queue' <==> v in rest || v in added;
      PendingEdge(edges, Elements(done), v);
      assert v !in targets ==> incoming'[v] == incoming[v];
    }
  }

  lemma QueueGrows(rest: seq<Id>, added: seq<Id>)
    requires Unique(rest) && Unique(added) && forall v | v in added :: v !in rest
    ensures Unique(rest + added)
  {
    var q := rest + added;
    forall i, j | 0 <= i < j < |q|
      ensures q[i] != q[j]
    {
      if i < |rest| <= j { assert q[j] in added && q[i] in rest; }
    }
  }

  /** A node that becomes ready now was neither finished nor ready before. */
  lemma FreshIsNew(nodes: set<Id>, edges: seq<Edge>, done: seq<Id>, queue: seq<Id>, incoming: map<Id, nat>,
                   u: Id, targets: seq<Id>, incoming': map<Id, nat>, added: seq<Id>)
    requires KahnState(nodes, edges, done, queue, incoming) && u in queue
    requires forall v | v in nodes :: v in targets <==> Edge(u, v) in edges
    requires forall v | v in added :: v in targets && v in nodes
    ensures forall v | v in added :: v !in done && v !in queue
  {
    forall v | v in added
      ensures v !in done && v !in queue
    {
      PendingEdge(edges, Elements(done), v);
      assert u !in Elements(done) && Edge(u, v) in edges;
      assert incoming[v] > 0;
    }
  }

  lemma DoneStaysOrdered(nodes: set<Id>, edges: seq<Edge>, done: seq<Id>, queue: seq<Id>, incoming: map<Id, nat>, u: Id)
    requires KahnState(nodes, edges, done, queue, incoming) && u in queue
    ensures Unique(done + [u])
    ensures var d := done + [u]; forall i, j | 0 <= i < |d| && 0 <= j < |d| :: Edge(d[i], d[j]) in edges ==> i < j
  {
    var d := done + [u];
    forall x | x in d
      ensures Edge(u, x) !in edges
    {
      assert x in nodes && incoming[x] == 0;
      PendingEdge(edges, Elements(done), x);
      assert u !in Elements(done);
    }
    forall i, j | 0 <= i < |d| && 0 <= j < |d| && Edge(d[i], d[j]) in edges
      ensures i < j
    {
      assert d[j] in d;
      if i < |done| && j < |done| { assert Edge(done[i], done[j]) in edges; }
    }
  }

  /** The verdict: all nodes are finished exactly when there is no cycle. */
  lemma KahnVerdict(nodes: set<Id>, edges: seq<Edge>, done: seq<Id>, incoming: map<Id, nat>)
    requires Within(EdgeSet(edges), nodes) && KahnState(nodes, edges, done, [], incoming)
    ensures |done| == |nodes| <==> Acyclic(EdgeSet(edges))
    ensures |done| == |nodes| ==> Topological(nodes, EdgeSet(edges), done)
  {
    UniqueIsSmall(done, nodes);
    if |done| == |nodes| {
      OrderedIsAcyclic(nodes, EdgeSet(edges), done);
    } else {
      var rest := nodes - Elements(done);
      SomethingIsLeft(done, nodes);
      forall v | v in rest
        ensures Fed(EdgeSet(edges), rest, v)
      {
        PendingEdge(edges, Elements(done), v);
        var u :| u !in Elements(done) && Edge(u, v) in edges;
        assert Edge(u, v) in EdgeSet(edges) && u in rest;
      }
      StuckIsCyclic(EdgeSet(edges), rest);
    }
  }

  lemma SomethingIsLeft(done: seq<Id>, nodes: set<Id>)
    requires Unique(done) && (forall v | v in done :: v in nodes) && |done| != |nodes|
    ensures nodes - Elements(done) != {}
  {
    UniqueCountsElements(done);
    assert nodes == Elements(done) + (nodes - Elements(done));
  }

  lemma {:induction false} UniqueCountsElements(w: seq<Id>)
    requires Unique(w)
    ensures |Elements(w)| == |w|
  {
    if w != [] {
      FirstOfUnique(w);
      UniqueCountsElements(w[1..]);
    }
  }
}
