/** Kahn's algorithm with a sorted queue: the order in which the resolver lists packages. */
module PriorityOrder {
  import opened Order
  import opened Graphs
  import opened Packages

  type Less = (Id, Id) -> bool

  // ---------------------------------------------------------------- the least topological order

  /** All predecessors of `v` are placed and `v` itself is not. */
  ghost predicate Ready(nodes: set<Id>, edges: set<Edge>, placed: set<Id>, v: Id) {
    v in nodes && v !in placed && forall e | e in edges && e.target == v :: e.source in placed
  }

  ghost predicate LeastReady(less: Less, nodes: set<Id>, edges: set<Edge>, placed: seq<Id>, u: Id) {
    forall v | Ready(nodes, edges, Elements(placed), v) :: !less(v, u)
  }

  ghost predicate Greedy(less: Less, nodes: set<Id>, edges: set<Edge>, order: seq<Id>) {
    forall i | 0 <= i < |order| :: LeastReady(less, nodes, edges, order[..i], order[i])
  }

  /** `a` comes no later than `b` when they are compared at their first difference. */
  ghost predicate NotAfter(less: Less, a: seq<Id>, b: seq<Id>) {
    a == b || exists i :: 0 <= i < |a| && i < |b| && a[..i] == b[..i] && less(a[i], b[i])
  }

  ghost predicate LeastTopological(less: Less, nodes: set<Id>, edges: set<Edge>, order: seq<Id>) {
    && Topological(nodes, edges, order)
    && forall other | Topological(nodes, edges, other) :: NotAfter(less, order, other)
  }

  lemma {:induction false} CompareFrom(less: Less, nodes: set<Id>, edges: set<Edge>, order: seq<Id>, other: seq<Id>, i: nat)
    requires StrictTotal(less) && Within(edges, nodes)
    requires Topological(nodes, edges, order) && Topological(nodes, edges, other) && Greedy(less, nodes, edges, order)
    requires |order| == |other| && i <= |order| && order[..i] == other[..i]
    ensures NotAfter(less, order, other)
    decreases |order| - i
  {
    if i == |order| {
      assert order[..i] == order && other[..i] == other;
    } else if order[i] == other[i] {
      assert order[..i + 1] == order[..i] + [order[i]] && other[..i + 1] == other[..i] + [other[i]];
      CompareFrom(less, nodes, edges, order, other, i + 1);
    } else {
      NextIsReady(nodes, edges, other, i);
      assert LeastReady(less, nodes, edges, order[..i], order[i]);
      assert less(order[i], other[i]);
    }
  }

  lemma NextIsReady(nodes: set<Id>, edges: set<Edge>, order: seq<Id>, i: nat)
    requires Within(edges, nodes) && Topological(nodes, edges, order) && i < |order|
    ensures Ready(nodes, edges, Elements(order[..i]), order[i])
  {
    assert order[i] in Elements(order);
    assert order[i] !in order[..i];
    forall e | e in edges && e.target == order[i]
      ensures e.source in order[..i]
    {
      assert e.source in Elements(order);
      var j :| 0 <= j < |order| && order[j] == e.source;
      assert Edge(order[j], order[i]) in edges;
      assert order[..i][j] == e.source;
    }
  }

  /** Always placing the least ready node gives the lexicographically least topological order. */
  lemma GreedyIsLeast(less: Less, nodes: set<Id>, edges: set<Edge>, order: seq<Id>)
    requires StrictTotal(less) && Within(edges, nodes)
    requires Topological(nodes, edges, order) && Greedy(less, nodes, edges, order)
    ensures LeastTopological(less, nodes, edges, order)
  {
    forall other | Topological(nodes, edges, other)
      ensures NotAfter(less, order, other)
    {
      UniqueCountsElements(order);
      UniqueCountsElements(other);
      CompareFrom(less, nodes, edges, order, other, 0);
    }
  }

  /** A ready node may be placed at once instead of later. */
  lemma PlacedAtOnce(nodes: set<Id>, edges: set<Edge>, order: seq<Id>, i: nat, k: nat)
    requires Topological(nodes, edges, order) && i <= k < |order|
    requires Ready(nodes, edges, Elements(order[..i]), order[k])
    ensures Topological(nodes, edges, order[..i] + [order[k]] + order[i..k] + order[k + 1..])
  {
    var other := order[..i] + [order[k]] + order[i..k] + order[k + 1..];
    MovedUp(order, i, k);
    forall a, b | 0 <= a < |other| && 0 <= b < |other| && Edge(other[a], other[b]) in edges
      ensures a < b
    {
      var a', b' := Origin(i, k, a), Origin(i, k, b);
      assert other[a] == order[a'] && other[b] == order[b'];
      if b == i { PlacedBefore(order, i, a'); }
    }
  }

  lemma PlacedBefore(order: seq<Id>, i: nat, a: nat)
    requires Unique(order) && i <= |order| && a < |order| && order[a] in Elements(order[..i])
    ensures a < i
  {
    var c :| 0 <= c < i && order[..i][c] == order[a];
    assert order[c] == order[a];
  }

  lemma MovedUp(order: seq<Id>, i: nat, k: nat)
    requires Unique(order) && i <= k < |order|
    ensures var other := order[..i] + [order[k]] + order[i..k] + order[k + 1..];
            && |other| == |order| && (forall a | 0 <= a < |other| :: other[a] == order[Origin(i, k, a)])
            && Unique(other) && Elements(other) == Elements(order)
  {
    var x := order[k];
    var other := order[..i] + [x] + order[i..k] + order[k + 1..];
    assert order == order[..i] + order[i..k] + [x] + order[k + 1..];
    assert Elements(other) == Elements(order);
  }

  /** Where the entry at position `a` stood before entry `k` was moved to position `i`. */
  ghost function Origin(i: nat, k: nat, a: nat): nat {
    if a < i then a else if a == i then k else if a <= k then a - 1 else a
  }

  /** The least topological order is greedy: whatever waits for nothing more is not less than what is placed. */
  lemma LeastIsGreedy(less: Less, nodes: set<Id>, edges: set<Edge>, order: seq<Id>)
    requires StrictTotal(less) && LeastTopological(less, nodes, edges, order)
    ensures Greedy(less, nodes, edges, order)
  {
    forall i, v | 0 <= i < |order| && Ready(nodes, edges, Elements(order[..i]), v)
      ensures !less(v, order[i])
    {
      assert v in Elements(order);
      var k :| 0 <= k < |order| && order[k] == v;
      assert forall j | 0 <= j < i :: order[..i][j] == order[j] && order[j] in order[..i];
      assert k >= i;
      if less(v, order[i]) { NotSooner(less, nodes, edges, order, i, k); }
    }
  }

  lemma NotSooner(less: Less, nodes: set<Id>, edges: set<Edge>, order: seq<Id>, i: nat, k: nat)
    requires StrictTotal(less) && LeastTopological(less, nodes, edges, order) && i <= k < |order|
    requires Ready(nodes, edges, Elements(order[..i]), order[k])
    ensures !less(order[k], order[i])
  {
    var other := order[..i] + [order[k]] + order[i..k] + order[k + 1..];
    PlacedAtOnce(nodes, edges, order, i, k);
    assert NotAfter(less, order, other);
    hide NotAfter, Topological, LeastTopological, Ready;
    if less(order[k], order[i]) { DifferAt(less, order, other, i); }
  }

  lemma DifferAt(less: Less, a: seq<Id>, b: seq<Id>, i: nat)
    requires StrictTotal(less) && NotAfter(less, a, b)
    requires i < |a| && i < |b| && a[..i] == b[..i] && a[i] != b[i]
    ensures less(a[i], b[i])
  {
    var j :| 0 <= j < |a| && j < |b| && a[..j] == b[..j] && less(a[j], b[j]);
    assert forall k | 0 <= k < i :: a[k] == a[..i][k] == b[..i][k] == b[k];
    assert forall k | 0 <= k < j :: a[k] == a[..j][k] == b[..j][k] == b[k];
    assert i == j;
  }

  // ---------------------------------------------------------------- counters without repeated edges

  /** The edges of the dependencies, each from provider to consumer. */
  function Flows(dependencies: seq<Dependency>): set<Edge> {
    set d | d in dependencies :: Edge(d.need.id, d.consumer)
  }

  ghost predicate Linked(nodes: set<Id>, flows: set<Edge>, incoming: map<Id, nat>, outgoing: map<Id, set<Id>>, kept: seq<Edge>) {
    Unique(kept) && EdgeSet(kept) == flows && CountsKept(nodes, incoming, outgoing, kept)
  }

  ghost predicate CountsKept(nodes: set<Id>, incoming: map<Id, nat>, outgoing: map<Id, set<Id>>, kept: seq<Edge>) {
    && incoming.Keys == nodes && outgoing.Keys == nodes
    && forall v | v in nodes :: incoming[v] == Pending(kept, {}, v) && outgoing[v] == Elements(Targets(kept, v))
  }

  /** A consumer already listed under its provider is an edge already kept. */
  lemma LinkedAlready(nodes: set<Id>, flows: set<Edge>, incoming: map<Id, nat>, outgoing: map<Id, set<Id>>, kept: seq<Edge>, e: Edge)
    requires Linked(nodes, flows, incoming, outgoing, kept) && e.source in nodes && e.target in nodes
    ensures incoming.Keys == nodes && outgoing.Keys == nodes
    ensures e.target in outgoing[e.source] <==> e in flows
  {
    TargetEdge(kept, e.source, e.target);
    assert e in kept <==> e in EdgeSet(kept);
  }

  lemma LinkOne(nodes: set<Id>, flows: set<Edge>, incoming: map<Id, nat>, outgoing: map<Id, set<Id>>, kept: seq<Edge>, e: Edge)
    requires Linked(nodes, flows, incoming, outgoing, kept) && e.source in nodes && e.target in nodes && e !in flows
    ensures incoming.Keys == nodes && outgoing.Keys == nodes
    ensures Linked(nodes, flows + {e}, incoming[e.target := incoming[e.target] + 1],
                   outgoing[e.source := outgoing[e.source] + {e.target}], kept + [e])
  {
    CountOne(nodes, incoming, outgoing, kept, e);
    hide CountsKept;
    assert EdgeSet(kept + [e]) == EdgeSet(kept) + {e};
    assert e !in EdgeSet(kept);
  }

  lemma CountOne(nodes: set<Id>, incoming: map<Id, nat>, outgoing: map<Id, set<Id>>, kept: seq<Edge>, e: Edge)
    requires CountsKept(nodes, incoming, outgoing, kept) && e.source in nodes && e.target in nodes
    ensures incoming.Keys == nodes && outgoing.Keys == nodes
    ensures CountsKept(nodes, incoming[e.target := incoming[e.target] + 1],
                       outgoing[e.source := outgoing[e.source] + {e.target}], kept + [e])
  {
    hide Pending, Targets, Elements;
    var incoming' := incoming[e.target := incoming[e.target] + 1];
    var outgoing' := outgoing[e.source := outgoing[e.source] + {e.target}];
    forall v | v in nodes
      ensures incoming'[v] == Pending(kept + [e], {}, v) && outgoing'[v] == Elements(Targets(kept + [e], v))
    {
      AppendEdge(kept, e, v);
    }
  }

  lemma AppendEdge(kept: seq<Edge>, e: Edge, v: Id)
    ensures Pending(kept + [e], {}, v) == Pending(kept, {}, v) + if e.target == v then 1 else 0
    ensures Elements(Targets(kept + [e], v)) == Elements(Targets(kept, v)) + if e.source == v then {e.target} else {}
  {
    var kept' := kept + [e];
    assert kept'[..|kept'| - 1] == kept;
  }

  method Link(nodes: set<Id>, dependencies: seq<Dependency>)
    returns (incoming: map<Id, nat>, outgoing: map<Id, set<Id>>, ghost kept: seq<Edge>)
    requires Within(Flows(dependencies), nodes)
    ensures Linked(nodes, Flows(dependencies), incoming, outgoing, kept)
  {
    hide *;
    incoming := map v | v in nodes :: 0;
    outgoing := map v | v in nodes :: {};
    kept := [];
    LinkBegins(nodes, dependencies, incoming, outgoing);
    for k := 0 to |dependencies|
      invariant Linked(nodes, Flows(dependencies[..k]), incoming, outgoing, kept)
    {
      var d := dependencies[k];
      ghost var e := Edge(d.need.id, d.consumer);
      FlowsGrow(nodes, dependencies, k);
      LinkedAlready(nodes, Flows(dependencies[..k]), incoming, outgoing, kept, e);
      if d.consumer !in outgoing[d.need.id] {
        LinkOne(nodes, Flows(dependencies[..k]), incoming, outgoing, kept, e);
        outgoing := outgoing[d.need.id := outgoing[d.need.id] + {d.consumer}];
        incoming := incoming[d.consumer := incoming[d.consumer] + 1];
        kept := kept + [e];
      } else {
        assert Flows(dependencies[..k]) + {e} == Flows(dependencies[..k]);
      }
    }
    assert dependencies[..|dependencies|] == dependencies;
  }

  lemma LinkBegins(nodes: set<Id>, dependencies: seq<Dependency>, incoming: map<Id, nat>, outgoing: map<Id, set<Id>>)
    requires incoming == map v | v in nodes :: 0
    requires outgoing == map v | v in nodes :: {}
    ensures Linked(nodes, Flows(dependencies[..0]), incoming, outgoing, [])
  {
    assert dependencies[..0] == [];
  }

  lemma FlowsGrow(nodes: set<Id>, dependencies: seq<Dependency>, k: nat)
    requires k < |dependencies| && Within(Flows(dependencies), nodes)
    ensures dependencies[k].need.id in nodes && dependencies[k].consumer in nodes
    ensures Flows(dependencies[..k + 1]) == Flows(dependencies[..k]) + {Edge(dependencies[k].need.id, dependencies[k].consumer)}
  {
    assert dependencies[..k + 1] == dependencies[..k] + [dependencies[k]];
    assert dependencies[k] in dependencies;
    assert Edge(dependencies[k].need.id, dependencies[k].consumer) in Flows(dependencies);
  }

  lemma {:induction false} TargetsAreUnique(kept: seq<Edge>, u: Id)
    requires Unique(kept)
    ensures Unique(Targets(kept, u))
  {
    if kept != [] {
      var front, e := kept[..|kept| - 1], kept[|kept| - 1];
      TargetsAreUnique(front, u);
      TargetEdge(front, u, e.target);
      assert e !in front;
    }
  }

  lemma {:induction false} UniqueSameMultiset(a: seq<Id>, b: seq<Id>)
    requires Unique(a) && Unique(b) && Elements(a) == Elements(b)
    ensures multiset(a) == multiset(b)
  {
    forall x
      ensures multiset(a)[x] == multiset(b)[x]
    {
      UniqueCount(a, x);
      UniqueCount(b, x);
      assert x in a <==> x in Elements(a);
      assert x in b <==> x in Elements(b);
      assert x in multiset(a) <==> x in a;
      assert x in multiset(b) <==> x in b;
    }
  }

  // ---------------------------------------------------------------- the sorted queue

  /** One finished package: each consumer loses a provider, and the queue is sorted again after each arrival. */
  method Release(less: Less, targets: seq<Id>, start: map<Id, nat>, queue0: seq<Id>)
    returns (incoming: map<Id, nat>, queue: seq<Id>, ghost plain: seq<Id>)
    requires Consistent(less) && Sorted(less, queue0)
    requires forall v | v in targets :: v in start
    requires forall v | v in start :: multiset(targets)[v] <= start[v]
    ensures RelaxState(start, queue0, targets, |targets|, incoming, plain)
    ensures multiset(queue) == multiset(plain) && Sorted(less, queue)
  {
    hide *;
    incoming, queue, plain := start, queue0, queue0;
    RelaxBegins(start, queue0, targets);
    for k := 0 to |targets|
      invariant RelaxState(start, queue0, targets, k, incoming, plain)
      invariant multiset(queue) == multiset(plain) && Sorted(less, queue)
    {
      RelaxStep(start, queue0, targets, k, incoming, plain);
      incoming := incoming[targets[k] := incoming[targets[k]] - 1];
      if incoming[targets[k]] == 0 {
        SortSorted(less, queue + [targets[k]]);
        queue := Sort(less, queue + [targets[k]]);
        plain := plain + [targets[k]];
      }
    }
  }

  lemma FirstIsLeast(less: Less, nodes: set<Id>, kept: seq<Edge>, done: seq<Id>, queue: seq<Id>, incoming: map<Id, nat>)
    requires StrictTotal(less) && KahnState(nodes, kept, done, queue, incoming) && Sorted(less, queue) && queue != []
    ensures LeastReady(less, nodes, EdgeSet(kept), done, queue[0])
  {
    forall v | Ready(nodes, EdgeSet(kept), Elements(done), v)
      ensures !less(v, queue[0])
    {
      PendingEdge(kept, Elements(done), v);
      assert forall u :: Edge(u, v) in kept ==> Edge(u, v) in EdgeSet(kept);
      assert incoming[v] == 0;
      var j :| 0 <= j < |queue| && queue[j] == v;
    }
  }

  lemma GreedyGrows(less: Less, nodes: set<Id>, edges: set<Edge>, done: seq<Id>, u: Id)
    requires Greedy(less, nodes, edges, done) && LeastReady(less, nodes, edges, done, u)
    ensures Greedy(less, nodes, edges, done + [u])
  {
    hide LeastReady;
    var all := done + [u];
    forall i | 0 <= i < |all|
      ensures LeastReady(less, nodes, edges, all[..i], all[i])
    {
      if i < |done| {
        assert all[..i] == done[..i] && LeastReady(less, nodes, edges, done[..i], done[i]);
      } else {
        assert all[..i] == done;
      }
    }
  }

  lemma RestOfQueue(less: Less, queue: seq<Id>)
    requires Sorted(less, queue) && queue != [] && Unique(queue)
    ensures Sorted(less, queue[1..]) && Unique(queue[1..])
    ensures forall v :: v in queue[1..] <==> v in queue && v != queue[0]
  {
    assert queue == [queue[0]] + queue[1..];
  }

  lemma SameMembers(a: seq<Id>, b: seq<Id>)
    requires multiset(a) == multiset(b) && Unique(a)
    ensures Unique(b) && forall v :: v in b <==> v in a
  {
    UniqueByMultiset(a, b);
    forall v ensures v in b <==> v in a { assert v in multiset(a) <==> v in multiset(b); }
  }

  lemma QueueIsUnique(nodes: set<Id>, edges: seq<Edge>, done: seq<Id>, queue: seq<Id>, incoming: map<Id, nat>)
    requires KahnState(nodes, edges, done, queue, incoming)
    ensures Unique(queue) && incoming.Keys == nodes && (forall v | v in queue :: v in nodes)
    ensures |done| + |queue| <= |nodes|
  {
    QueueGrows(done, queue);
    UniqueIsSmall(done + queue, nodes);
  }

  lemma TargetsFit(nodes: set<Id>, flows: set<Edge>, outgoing: map<Id, set<Id>>, kept: seq<Edge>, done: seq<Id>,
                   queue: seq<Id>, incoming: map<Id, nat>, u: Id, targets: seq<Id>)
    requires Unique(kept) && EdgeSet(kept) == flows && Within(flows, nodes)
    requires KahnState(nodes, kept, done, queue, incoming) && u in queue
    requires Unique(targets) && (forall v :: v in targets <==> v in Targets(kept, u))
    ensures multiset(targets) == multiset(Targets(kept, u))
    ensures forall v | v in targets :: v in incoming
    ensures forall v | v in incoming :: multiset(targets)[v] <= incoming[v]
  {
    TargetsAreUnique(kept, u);
    assert Elements(targets) == Elements(Targets(kept, u));
    UniqueSameMultiset(targets, Targets(kept, u));
    forall v | v in targets
      ensures v in incoming
    {
      TargetEdge(kept, u, v);
      assert Edge(u, v) in EdgeSet(kept);
    }
    forall v | v in incoming
      ensures multiset(targets)[v] <= incoming[v]
    {
      FinishingOne(kept, Elements(done), u, v);
    }
  }

  method Arrange(less: Less, nodes: set<Id>, dependencies: seq<Dependency>) returns (ordered: seq<Id>)
    requires StrictTotal(less) && Within(Flows(dependencies), nodes)
    ensures |ordered| == |nodes| <==> Acyclic(Flows(dependencies))
    ensures |ordered| == |nodes| ==> LeastTopological(less, nodes, Flows(dependencies), ordered)
  {
    TotalIsConsistent(less);
    var incoming, outgoing, kept := Link(nodes, dependencies);
    var queue := SortedSet(less, set v | v in nodes && incoming[v] == 0);
    KahnBegins(nodes, kept, queue, incoming);
    ordered := [];
    hide StrictTotal, Consistent, KahnState, RelaxState, Pending, Targets, Sorted, Greedy, LeastReady, Within, Flows, Unique;
    assert Greedy(less, nodes, EdgeSet(kept), ordered) by { GreedyBegins(less, nodes, EdgeSet(kept)); }
    while queue != []
      invariant KahnState(nodes, kept, ordered, queue, incoming)
      invariant Sorted(less, queue) && Greedy(less, nodes, EdgeSet(kept), ordered)
      decreases |nodes| - |ordered|
    {
      var u, rest := queue[0], queue[1..];
      QueueIsUnique(nodes, kept, ordered, queue, incoming);
      FirstIsLeast(less, nodes, kept, ordered, queue, incoming);
      GreedyGrows(less, nodes, EdgeSet(kept), ordered, u);
      RestOfQueue(less, queue);
      var targets := SortedSet(less, outgoing[u]);
      TargetsFit(nodes, Flows(dependencies), outgoing, kept, ordered, queue, incoming, u, targets);
      var incoming', queue', plain := Release(less, targets, incoming, rest);
      KahnStep(nodes, kept, ordered, queue, incoming, u, rest, targets, incoming', plain);
      QueueIsUnique(nodes, kept, ordered + [u], plain, incoming');
      SameMembers(plain, queue');
      QueueOrder(nodes, kept, ordered + [u], plain, queue', incoming');
      ordered, incoming, queue := ordered + [u], incoming', queue';
    }
    KahnVerdict(nodes, kept, ordered, incoming);
    if |ordered| == |nodes| { GreedyIsLeast(less, nodes, EdgeSet(kept), ordered); }
  }

  lemma GreedyBegins(less: Less, nodes: set<Id>, edges: set<Edge>)
    ensures Greedy(less, nodes, edges, [])
  {
  }
}
