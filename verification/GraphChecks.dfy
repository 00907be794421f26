/** The graph checks of the package-lock and workflow-plan validators. */
module GraphChecks {
  import opened Order
  import opened Graphs

  predicate ById(a: Id, b: Id) { StringLess(a, b) }

  /** The ids without incoming edges, in the order given. */
  method ReadyNodes(ids: seq<Id>, incoming: map<Id, nat>) returns (queue: seq<Id>)
    requires Unique(ids) && forall v | v in ids :: v in incoming
    ensures Unique(queue) && forall v :: v in queue <==> v in ids && incoming[v] == 0
  {
    queue := [];
    for k := 0 to |ids|
      invariant Unique(queue) && forall v :: v in queue <==> v in ids[..k] && v in incoming && incoming[v] == 0
    {
      assert ids[k] in ids && ids[k] !in ids[..k] && ids[..k + 1] == ids[..k] + [ids[k]];
      if incoming[ids[k]] == 0 { queue := queue + [ids[k]]; }
    }
    assert ids[..|ids|] == ids;
  }

  lemma RelaxFits(nodes: set<Id>, edges: seq<Edge>, done: seq<Id>, queue: seq<Id>, incoming: map<Id, nat>,
                  u: Id, targets: seq<Id>)
    requires Within(EdgeSet(edges), nodes) && KahnState(nodes, edges, done, queue, incoming) && u in queue
    requires multiset(targets) == multiset(Targets(edges, u))
    ensures forall v | v in targets :: v in incoming
    ensures forall v | v in incoming :: multiset(targets)[v] <= incoming[v]
  {
    forall v | v in targets
      ensures v in incoming
    {
      assert v in multiset(targets) && v in multiset(Targets(edges, u));
      TargetEdge(edges, u, v);
      assert Edge(u, v) in EdgeSet(edges);
    }
    forall v | v in incoming
      ensures multiset(targets)[v] <= incoming[v]
    {
      FinishingOne(edges, Elements(done), u, v);
    }
  }

  lemma FewDone(nodes: set<Id>, edges: seq<Edge>, done: seq<Id>, queue: seq<Id>, incoming: map<Id, nat>)
    requires KahnState(nodes, edges, done, queue, incoming)
    ensures |done| + |queue| <= |nodes|
  {
    QueueGrows(done, queue);
    UniqueIsSmall(done + queue, nodes);
  }

  /** The check of `validate_package_lock`: the queue is a stack. */
  method LockGraphIsAcyclic(ids: seq<Id>, edges: seq<Edge>) returns (accepted: bool)
    requires Unique(ids) && Within(EdgeSet(edges), Elements(ids))
    ensures accepted <==> Acyclic(EdgeSet(edges))
  {
    ghost var nodes := Elements(ids);
    var incoming, outgoing := CountEdges(Elements(ids), edges);
    var queue := ReadyNodes(ids, incoming);
    KahnBegins(nodes, edges, queue, incoming);
    var visited := 0;
    ghost var done: seq<Id> := [];
    while queue != []
      invariant KahnState(nodes, edges, done, queue, incoming) && visited == |done|
      decreases |nodes| - |done|
    {
      var u, rest := queue[|queue| - 1], queue[..|queue| - 1];
      visited := visited + 1;
      FewDone(nodes, edges, done, queue, incoming);
      RelaxFits(nodes, edges, done, queue, incoming, u, outgoing[u]);
      var incoming', queue' := Relax(outgoing[u], incoming, rest);
      LastIsApart(queue);
      KahnStep(nodes, edges, done, queue, incoming, u, rest, outgoing[u], incoming', queue');
      done, incoming, queue := done + [u], incoming', queue';
    }
    KahnVerdict(nodes, edges, done, incoming);
    UniqueCountsElements(ids);
    accepted := visited == |ids|;
  }

  lemma LastIsApart(queue: seq<Id>)
    requires Unique(queue) && queue != []
    ensures Unique(queue[..|queue| - 1])
    ensures forall v :: v in queue[..|queue| - 1] <==> v in queue && v != queue[|queue| - 1]
  {
    var u, rest := queue[|queue| - 1], queue[..|queue| - 1];
    assert queue == rest + [u];
  }

  lemma FirstIsApart(queue: seq<Id>)
    requires Unique(queue) && queue != []
    ensures Unique(queue[1..])
    ensures forall v :: v in queue[1..] <==> v in queue && v != queue[0]
  {
    assert queue == [queue[0]] + queue[1..];
  }

  lemma StateFits(nodes: set<Id>, edges: seq<Edge>, done: seq<Id>, queue: seq<Id>, incoming: map<Id, nat>)
    requires KahnState(nodes, edges, done, queue, incoming)
    ensures Unique(queue) && forall v | v in queue :: v in nodes
  {
  }

  /** The check of `validate_workflow_plan`: the queue is first in, first out, and edges may repeat. */
  method PlanGraphIsAcyclic(ids: seq<Id>, edges: seq<Edge>) returns (accepted: bool)
    requires Unique(ids) && Within(EdgeSet(edges), Elements(ids))
    ensures accepted <==> Acyclic(EdgeSet(edges))
  {
    ghost var nodes := Elements(ids);
    var incoming, outgoing := CountEdges(Elements(ids), edges);
    var ready := ReadyNodes(ids, incoming);
    var queue := Sort(ById, ready);
    SortMembers(ById, ready);
    UniqueByMultiset(ready, queue);
    KahnBegins(nodes, edges, queue, incoming);
    var visited := 0;
    ghost var done: seq<Id> := [];
    hide KahnState, RelaxState, Pending, Targets;
    while queue != []
      invariant KahnState(nodes, edges, done, queue, incoming) && visited == |done|
      decreases |nodes| - |done|
    {
      var u, rest := queue[0], queue[1..];
      StateFits(nodes, edges, done, queue, incoming);
      visited := visited + 1;
      var targets := Sort(ById, outgoing[u]);
      FewDone(nodes, edges, done, queue, incoming);
      RelaxFits(nodes, edges, done, queue, incoming, u, targets);
      var incoming', queue' := Relax(targets, incoming, rest);
      FirstIsApart(queue);
      KahnStep(nodes, edges, done, queue, incoming, u, rest, targets, incoming', queue');
      done, incoming, queue := done + [u], incoming', queue';
    }
    KahnVerdict(nodes, edges, done, incoming);
    UniqueCountsElements(ids);
    accepted := visited == |ids|;
  }

  // ---------------------------------------------------------------- the selected closure

  ghost predicate AllReached(edges: set<Edge>, start: set<Id>, found: set<Id>) {
    start <= found && forall v | v in found :: ReachedFrom(edges, start, v)
  }

  ghost predicate ClosedUpTo(edges: seq<Edge>, k: int, found: set<Id>) {
    0 <= k <= |edges| && forall i | 0 <= i < k && edges[i].source in found :: edges[i].target in found
  }

  lemma FollowEdge(edges: seq<Edge>, start: set<Id>, found: set<Id>, e: Edge)
    requires AllReached(EdgeSet(edges), start, found) && e in edges && e.source in found
    ensures AllReached(EdgeSet(edges), start, found + {e.target})
  {
    assert Edge(e.source, e.target) in EdgeSet(edges);
    OneStepMore(EdgeSet(edges), start, e.source, e.target);
  }

  /** One pass over the edges: adds targets of reached sources, and changes nothing only when all are there. */
  method FollowEdges(edges: seq<Edge>, ghost start: set<Id>, before: set<Id>) returns (reachable: set<Id>, changed: bool)
    requires AllReached(EdgeSet(edges), start, before)
    ensures AllReached(EdgeSet(edges), start, reachable)
    ensures before <= reachable <= before + set e | e in edges :: e.target
    ensures changed ==> before < reachable
    ensures !changed ==> reachable == before && ClosedUpTo(edges, |edges|, reachable)
  {
    hide AllReached;
    reachable, changed := before, false;
    for k := 0 to |edges|
      invariant AllReached(EdgeSet(edges), start, reachable)
      invariant before <= reachable <= before + set e | e in edges :: e.target
      invariant changed ==> before < reachable
      invariant !changed ==> reachable == before && ClosedUpTo(edges, k, reachable)
    {
      var e := edges[k];
      if e.source in reachable && e.target !in reachable {
        FollowEdge(edges, start, reachable, e);
        reachable := reachable + {e.target};
        changed := true;
      }
    }
  }

  /** The fixed-point loop of `validate_package_lock`. */
  method SelectedClosure(edges: seq<Edge>, start: set<Id>) returns (reachable: set<Id>)
    ensures forall v :: v in reachable <==> ReachedFrom(EdgeSet(edges), start, v)
  {
    ghost var bound := start + set e | e in edges :: e.target;
    reachable := start;
    AllStart(edges, start);
    hide AllReached, ClosedUpTo, ReachedFrom;
    var changed := true;
    while changed
      invariant reachable <= bound && AllReached(EdgeSet(edges), start, reachable)
      invariant !changed ==> ClosedUpTo(edges, |edges|, reachable)
      decreases |bound - reachable|, changed
    {
      ghost var before := reachable;
      reachable, changed := FollowEdges(edges, start, reachable);
      if changed { Shrinks(bound, before, reachable); }
    }
    ClosedIsAll(edges, start, reachable);
  }

  lemma AllStart(edges: seq<Edge>, start: set<Id>)
    ensures AllReached(EdgeSet(edges), start, start)
  {
    forall s | s in start { StartIsReached(EdgeSet(edges), start, s); }
  }

  lemma ClosedIsAll(edges: seq<Edge>, start: set<Id>, found: set<Id>)
    requires AllReached(EdgeSet(edges), start, found) && ClosedUpTo(edges, |edges|, found)
    ensures forall v :: v in found <==> ReachedFrom(EdgeSet(edges), start, v)
  {
    hide ReachedFrom;
    forall e | e in EdgeSet(edges) && e.source in found
      ensures e.target in found
    {
      var i :| 0 <= i < |edges| && edges[i] == e;
    }
    ClosedIsReached(EdgeSet(edges), start, found);
  }

  lemma Shrinks(bound: set<Id>, before: set<Id>, after: set<Id>)
    requires before < after <= bound
    ensures |bound - after| < |bound - before|
  {
    var added := after - before;
    assert after == before + added;
    assert added != {};
    assert bound - before == (bound - after) + added;
  }

  // ---------------------------------------------------------------- the lock validator's graph part

  predicate EdgeLess(a: Edge, b: Edge) {
    StringLess(a.source, b.source) || (a.source == b.source && StringLess(a.target, b.target))
  }

  lemma EdgesAreOrdered()
    ensures StrictTotal(EdgeLess) && Consistent(EdgeLess)
  {
    StringsAreOrdered();
    forall a, b ensures EdgeLess(a, b) || EdgeLess(b, a) || a == b {}
    TotalIsConsistent(EdgeLess);
  }

  /** What the lock validator demands of its dependency edges. */
  ghost predicate LockGraphValid(ids: seq<Id>, edges: seq<Edge>, selected: set<Id>) {
    && (forall e | e in edges :: e.source in ids && e.target in ids && e.source != e.target)
    && Sorted(EdgeLess, edges) && Unique(edges)
    && Acyclic(EdgeSet(edges))
    && (forall v :: ReachedFrom(EdgeSet(edges), {"core"} + selected, v) <==> v in ids)
  }

  method ValidateLockGraph(ids: seq<Id>, edges: seq<Edge>, selected: set<Id>) returns (accepted: bool)
    requires Unique(ids)
    ensures accepted <==> LockGraphValid(ids, edges, selected)
  {
    if !(forall e | e in edges :: e.source in ids && e.target in ids && e.source != e.target) { return false; }
    EdgesAreOrdered();
    var canonical := SortedSet(EdgeLess, EdgeSet(edges));
    if edges != canonical {
      if Sorted(EdgeLess, edges) && Unique(edges) {
        SortedUnique(EdgeLess, edges, canonical);
        assert false;
      }
      return false;
    }
    assert forall e | e in EdgeSet(edges) :: e.source in Elements(ids) && e.target in Elements(ids);
    var acyclic := LockGraphIsAcyclic(ids, edges);
    if !acyclic { return false; }
    var reachable := SelectedClosure(edges, {"core"} + selected);
    accepted := reachable == Elements(ids);
  }
}
