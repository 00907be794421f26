/** Resolving a selection: the closure, the optional dependencies inside it, the package order and the reasons. */
module Resolver {
  import opened Wrappers
  import opened Order
  import opened Graphs
  import opened Packages
  import opened ClosureSearch
  import opened PriorityOrder

  datatype Resolution = Resolution(
    order: seq<Id>,
    disciplines: seq<Id>,
    runtimeConfigs: seq<Id>,
    dependencies: seq<Dependency>,
    reasons: map<Id, seq<string>>)

  datatype Outcome = Ok(resolution: Resolution) | Err(fault: Fault)

  // ---------------------------------------------------------------- what a resolution has to be

  ghost function Flipped(edges: set<Edge>): set<Edge> { set e | e in edges :: Edge(e.target, e.source) }

  /** The reasons a selection gives by itself; a later group replaces an earlier one. */
  function Granted(selection: Selection): map<Id, set<string>> {
    map["core" := {"core"}]
    + (map p | p in selection.platforms :: {"platform:" + p})
    + (map d | d in selection.disciplines :: {"discipline:" + d})
    + (map c | c in selection.runtimeConfigs :: {"runtime-config:" + c})
  }

  ghost predicate HasReason(catalog: Catalog, selection: Selection, closure: set<Id>, id: Id, reason: string) {
    || (id in Granted(selection) && reason in Granted(selection)[id])
    || exists d: Dependency :: Declares(catalog, d) && d.consumer in closure && d.need.required && d.need.id == id
                               && reason == "dependency:" + d.consumer
  }

  ghost predicate ExactReasons(catalog: Catalog, selection: Selection, closure: set<Id>, reasons: map<Id, seq<string>>) {
    && reasons.Keys == closure
    && forall id | id in closure :: ReasonsAt(catalog, selection, closure, id, reasons[id])
  }

  ghost predicate ReasonsAt(catalog: Catalog, selection: Selection, closure: set<Id>, id: Id, reasons: seq<string>) {
    && Sorted(StringLess, reasons) && Unique(reasons)
    && forall reason :: reason in reasons <==> HasReason(catalog, selection, closure, id, reason)
  }

  /** Every dependency between members of the closure, once, sorted by its ends. */
  ghost predicate ExactDependencies(catalog: Catalog, closure: set<Id>, dependencies: seq<Dependency>) {
    && Sorted(DependencyLess, dependencies) && Unique(dependencies)
    && forall d: Dependency :: d in dependencies <==> Declares(catalog, d) && d.consumer in closure && d.need.id in closure
  }

  ghost predicate Resolved(catalog: Catalog, satisfies: Satisfies, selection: Selection, r: Resolution) {
    var closure := Closure(catalog, Explicit(selection));
    && LeastTopological(ByKey(catalog), closure, Flipped(Inside(catalog, closure)), r.order)
    && ExactDependencies(catalog, closure, r.dependencies)
    && (forall d: Dependency | d in r.dependencies :: d.need.id in catalog && satisfies(catalog[d.need.id].version, d.need.version))
    && ExactReasons(catalog, selection, closure, r.reasons)
    && Sorted(StringLess, r.disciplines) && multiset(r.disciplines) == multiset(selection.disciplines)
    && Sorted(StringLess, r.runtimeConfigs) && multiset(r.runtimeConfigs) == multiset(selection.runtimeConfigs)
  }

  /** Every need of `id` that is selected at all is already placed. */
  ghost predicate WaitsForNothing(catalog: Catalog, placed: seq<Id>, order: seq<Id>, id: Id)
    requires id in catalog
  {
    forall need | need in catalog[id].needs && need.id in order :: need.id in placed
  }

  /** Of two packages the later one might have been placed instead of, the first is of a preferred kind or, within
      a kind, has the smaller id. */
  lemma PlacedByPreference(catalog: Catalog, satisfies: Satisfies, selection: Selection, r: Resolution, i: nat, j: nat)
    requires Resolved(catalog, satisfies, selection, r) && i < j < |r.order|
    requires r.order[i] in catalog && r.order[j] in catalog
    requires WaitsForNothing(catalog, r.order[..i], r.order, r.order[j])
    ensures var a, b := PreferredKind(catalog, r.order[i]), PreferredKind(catalog, r.order[j]);
            KindBefore(a, b) || (!KindBefore(b, a) && StringLess(r.order[i], r.order[j]))
  {
    var closure := Closure(catalog, Explicit(selection));
    var edges, less, u, v := Flipped(Inside(catalog, closure)), ByKey(catalog), r.order[i], r.order[j];
    KeysAreOrdered(catalog);
    LeastIsGreedy(less, closure, edges, r.order);
    OrderIsComplete(less, closure, edges, r.order);
    ReadyAt(catalog, closure, r.order, i, j);
    assert LeastReady(less, closure, edges, r.order[..i], u);
    assert less(u, v) && KeyLess(catalog, u, v) by { assert Unique(r.order); }
    KeyOrderIsByKind(catalog, u, v);
  }

  lemma ReadyAt(catalog: Catalog, closure: set<Id>, order: seq<Id>, i: nat, j: nat)
    requires i < j < |order| && Unique(order) && Elements(order) == closure && order[j] in catalog
    requires WaitsForNothing(catalog, order[..i], order, order[j])
    ensures Ready(closure, Flipped(Inside(catalog, closure)), Elements(order[..i]), order[j])
  {
    assert order[j] in Elements(order);
    forall e | e in Flipped(Inside(catalog, closure)) && e.target == order[j]
      ensures e.source in Elements(order[..i])
    {
      InsideEdge(catalog, closure, Edge(e.target, e.source));
      assert e.source in Elements(order);
    }
  }

  predicate OfKind(catalog: Catalog, id: Id, kind: string) {
    id in catalog && catalog[id].kind == kind
  }

  /** The requested ids that are not packages of the kind, in order. */
  ghost predicate Strangers(catalog: Catalog, requested: seq<Id>, kind: string, ids: seq<Id>) {
    ids != [] && Sorted(StringLess, ids) && forall v :: v in ids <==> v in requested && !OfKind(catalog, v, kind)
  }

  ghost function RequiredWithin(catalog: Catalog, s: set<Id>): set<Edge> {
    set e | e in Required(catalog) && e.source in s
  }

  /** What each fault claims; resolution fails exactly when some claim is true. */
  ghost predicate Genuine(catalog: Catalog, satisfies: Satisfies, selection: Selection, fault: Fault) {
    var closure := Closure(catalog, Explicit(selection));
    match fault
    case CoreMissing => "core" !in catalog
    case DuplicateDisciplines => !Unique(selection.disciplines)
    case UnknownDisciplines(ids) => Strangers(catalog, selection.disciplines, "discipline", ids)
    case DuplicateRuntimeConfigs => !Unique(selection.runtimeConfigs)
    case UnknownRuntimeConfigs(ids) => Strangers(catalog, selection.runtimeConfigs, "runtime-config", ids)
    case OptionalMismatch(d) =>
      && Declares(catalog, d) && !d.need.required && d.consumer in closure && d.need.id in closure
      && d.need.id in catalog && !satisfies(catalog[d.need.id].version, d.need.version)
    case OptionalCycle => Acyclic(RequiredWithin(catalog, closure)) && !Acyclic(Inside(catalog, closure))
    case _ => SearchFault(catalog, satisfies, Explicit(selection), fault)
  }

  // ---------------------------------------------------------------- graphs seen from both ends

  lemma FlippedCycle(edges: set<Edge>, w: seq<Id>)
    requires Cycle(edges, w)
    ensures !Acyclic(Flipped(edges))
  {
    var back := seq(|w|, i requires 0 <= i < |w| => w[|w| - 1 - i]);
    forall i | 0 <= i < |back| - 1
      ensures Edge(back[i], back[i + 1]) in Flipped(edges)
    {
      var k := |w| - 2 - i;
      assert Edge(w[k], w[k + 1]) in edges;
    }
    assert Cycle(Flipped(edges), back);
  }

  lemma FlippedIsAcyclic(edges: set<Edge>)
    ensures Acyclic(Flipped(edges)) <==> Acyclic(edges)
  {
    if !Acyclic(edges) {
      var w :| Cycle(edges, w);
      FlippedCycle(edges, w);
    }
    if !Acyclic(Flipped(edges)) {
      var w :| Cycle(Flipped(edges), w);
      FlippedCycle(Flipped(edges), w);
      assert Flipped(Flipped(edges)) == edges by {
        forall e | e in edges
          ensures e in Flipped(Flipped(edges))
        {
          assert Edge(e.target, e.source) in Flipped(edges);
        }
      }
    }
  }

  /** Packages that finished one after the other form no required cycle. */
  lemma FinishedIsAcyclic(catalog: Catalog, satisfies: Satisfies, start: set<Id>, finished: seq<Id>)
    requires Finished(catalog, satisfies, start, finished)
    ensures Acyclic(RequiredWithin(catalog, Elements(finished)))
  {
    var nodes, edges := Elements(finished), RequiredWithin(catalog, Elements(finished));
    forall i, j | 0 <= i < |finished| && 0 <= j < |finished| && Edge(finished[j], finished[i]) in edges
      ensures i < j
    {
      FinishedEdge(catalog, satisfies, start, finished, j, finished[i]);
      var k :| 0 <= k < j && finished[..j][k] == finished[i];
      assert finished[k] == finished[i];
    }
    forall e | e in Flipped(edges)
      ensures e.source in nodes && e.target in nodes
    {
      assert Edge(e.target, e.source) in edges;
      var j :| 0 <= j < |finished| && finished[j] == e.target;
      FinishedEdge(catalog, satisfies, start, finished, j, e.source);
    }
    assert Topological(nodes, Flipped(edges), finished) by {
      forall i, j | 0 <= i < |finished| && 0 <= j < |finished| && Edge(finished[i], finished[j]) in Flipped(edges)
        ensures i < j
      {
        assert Edge(finished[j], finished[i]) in edges;
      }
    }
    OrderedIsAcyclic(nodes, Flipped(edges), finished);
    FlippedIsAcyclic(edges);
  }

  lemma FinishedEdge(catalog: Catalog, satisfies: Satisfies, start: set<Id>, finished: seq<Id>, j: nat, provider: Id)
    requires Finished(catalog, satisfies, start, finished) && j < |finished| && Edge(finished[j], provider) in Required(catalog)
    ensures provider in finished[..j] && provider in finished
  {
    RequiredEdge(catalog, Edge(finished[j], provider));
    var d: Dependency :| Declares(catalog, d) && d.need.required && Edge(finished[j], provider) == Edge(d.consumer, d.need.id);
    assert Met(catalog, satisfies, finished[..j], finished[j]);
    assert NeedMet(catalog, satisfies, finished[..j], d.need);
  }

  /** A cycle of required dependencies that starts in the closure lies in it. */
  lemma {:induction false} WalkInside(catalog: Catalog, s: set<Id>, w: seq<Id>)
    requires ClosedUnder(catalog, s) && Walk(Required(catalog), w) && w[0] in s
    ensures Walk(Inside(catalog, s), w)
  {
    if |w| > 1 {
      assert Edge(w[0], w[1]) in Required(catalog);
      RequiredEdge(catalog, Edge(w[0], w[1]));
      var d: Dependency :| Declares(catalog, d) && d.need.required && Edge(w[0], w[1]) == Edge(d.consumer, d.need.id);
      InsideEdge(catalog, s, Edge(w[0], w[1]));
      SubWalk(Required(catalog), w, 1, |w| - 1);
      assert w[1..|w| - 1 + 1] == w[1..];
      WalkInside(catalog, s, w[1..]);
      forall i | 0 <= i < |w| - 1
        ensures Edge(w[i], w[i + 1]) in Inside(catalog, s)
      {
        if i > 0 { assert Edge(w[1..][i - 1], w[1..][i]) in Inside(catalog, s); }
      }
    }
  }

  // ---------------------------------------------------------------- the requested ids

  lemma {:induction false} RepeatsShrink(s: seq<Id>)
    ensures |Elements(s)| == |s| <==> Unique(s)
    ensures |Elements(s)| <= |s|
  {
    if s != [] {
      RepeatsShrink(s[1..]);
      assert s == [s[0]] + s[1..];
      assert Elements(s) == {s[0]} + Elements(s[1..]);
      if Unique(s) {
        FirstOfUnique(s);
      } else if s[0] in s[1..] {
        assert Elements(s) == Elements(s[1..]);
      } else {
        assert !Unique(s[1..]);
      }
    }
  }

  /** The requested ids that are not packages of the kind, sorted. */
  method FindStrangers(catalog: Catalog, requested: seq<Id>, kind: string) returns (ids: seq<Id>)
    ensures ids != [] ==> Strangers(catalog, requested, kind, ids)
    ensures ids == [] ==> forall v | v in requested :: OfKind(catalog, v, kind)
  {
    var found: seq<Id> := [];
    for k := 0 to |requested|
      invariant forall v :: v in found <==> v in requested[..k] && !OfKind(catalog, v, kind)
    {
      assert requested[..k + 1] == requested[..k] + [requested[k]];
      if !OfKind(catalog, requested[k], kind) { found := found + [requested[k]]; }
    }
    assert requested[..|requested|] == requested;
    StringsAreOrdered();
    TotalIsConsistent(StringLess);
    SortSorted(StringLess, found);
    SortMembers(StringLess, found);
    ids := Sort(StringLess, found);
  }

  method CheckRequest(catalog: Catalog, satisfies: Satisfies, selection: Selection) returns (fault: Option<Fault>)
    ensures fault.Some? ==> Genuine(catalog, satisfies, selection, fault.value)
    ensures fault.None? ==> RequestIsFine(catalog, selection)
  {
    hide Explicit, Closure, Unique;
    if "core" !in catalog { return Some(CoreMissing); }
    RepeatsShrink(selection.disciplines);
    if |selection.disciplines| != |Elements(selection.disciplines)| { return Some(DuplicateDisciplines); }
    var strange := FindStrangers(catalog, selection.disciplines, "discipline");
    if strange != [] { return Some(UnknownDisciplines(strange)); }
    RepeatsShrink(selection.runtimeConfigs);
    if |selection.runtimeConfigs| != |Elements(selection.runtimeConfigs)| { return Some(DuplicateRuntimeConfigs); }
    strange := FindStrangers(catalog, selection.runtimeConfigs, "runtime-config");
    if strange != [] { return Some(UnknownRuntimeConfigs(strange)); }
    return None;
  }

  ghost predicate RequestIsFine(catalog: Catalog, selection: Selection) {
    && "core" in catalog
    && Unique(selection.disciplines) && (forall v | v in selection.disciplines :: OfKind(catalog, v, "discipline"))
    && Unique(selection.runtimeConfigs) && (forall v | v in selection.runtimeConfigs :: OfKind(catalog, v, "runtime-config"))
  }

  // ---------------------------------------------------------------- the closure

  /** The search is complete: it has finished the closure, and recorded all of its declarations. */
  ghost predicate Gathered(catalog: Catalog, satisfies: Satisfies, selection: Selection, finished: seq<Id>, log: seq<Dependency>) {
    && Finished(catalog, satisfies, Explicit(selection), finished)
    && Elements(finished) == Closure(catalog, Explicit(selection))
    && Covers(catalog, Elements(finished), log)
    && (forall id | id in finished :: id in catalog)
  }

  lemma GatherAll(catalog: Catalog, satisfies: Satisfies, selection: Selection, finished: seq<Id>, log: seq<Dependency>)
    requires Finished(catalog, satisfies, Explicit(selection), finished)
    requires Extends(catalog, [], [], finished, log)
    requires forall id | id in Explicit(selection) :: id in finished
    ensures Gathered(catalog, satisfies, selection, finished, log)
  {
    hide Explicit, ReachedFrom, Required, Closure, Covers, ClosedUnder, Unique;
    var start, closed := Explicit(selection), Elements(finished);
    ClosureIsLeast(catalog, start);
    ClosureIsReached(catalog, start);
    FinishedIsClosed(catalog, satisfies, start, finished);
    assert finished[0..] == finished && log[0..] == log;
    assert start <= closed;
    assert Closure(catalog, start) <= closed;
    assert forall v | v in closed :: ReachedFrom(Required(catalog), start, v);
    assert closed <= Closure(catalog, start);
  }

  lemma FinishedIsClosed(catalog: Catalog, satisfies: Satisfies, start: set<Id>, finished: seq<Id>)
    requires Finished(catalog, satisfies, start, finished)
    ensures ClosedUnder(catalog, Elements(finished))
    ensures forall id | id in finished :: id in catalog
  {
    forall d: Dependency | Declares(catalog, d) && d.need.required && d.consumer in Elements(finished)
      ensures d.need.id in Elements(finished)
    {
      MetNeed(catalog, satisfies, start, finished, d);
    }
    forall id | id in finished
      ensures id in catalog
    {
      var i :| 0 <= i < |finished| && finished[i] == id;
      assert Met(catalog, satisfies, finished[..i], finished[i]);
    }
  }

  lemma MetNeed(catalog: Catalog, satisfies: Satisfies, start: set<Id>, finished: seq<Id>, d: Dependency)
    requires Finished(catalog, satisfies, start, finished)
    requires Declares(catalog, d) && d.need.required && d.consumer in finished
    ensures d.need.id in finished && d.need.id in catalog && satisfies(catalog[d.need.id].version, d.need.version)
  {
    var i :| 0 <= i < |finished| && finished[i] == d.consumer;
    assert Met(catalog, satisfies, finished[..i], finished[i]);
    assert NeedMet(catalog, satisfies, finished[..i], d.need);
  }

  lemma ExtendMore(catalog: Catalog, finished: seq<Id>, log: seq<Dependency>, finished': seq<Id>, log': seq<Dependency>)
    requires Extends(catalog, [], [], finished, log) && Extends(catalog, finished, log, finished', log') && Unique(finished')
    ensures Extends(catalog, [], [], finished', log')
  {
    assert finished[0..] == finished && log[0..] == log && finished'[0..] == finished' && log'[0..] == log';
    var more, added := finished'[|finished|..], log'[|log|..];
    assert finished' == finished + more && log' == log + added;
    SplitUnique(finished', 0, |finished|);
    assert finished'[0..|finished|] == finished;
    CoverMore(catalog, Elements(finished), log, Elements(more), added);
    assert Elements(finished + more) == Elements(finished) + Elements(more);
  }

  /** Visits the selected packages in order. */
  method Gather(catalog: Catalog, satisfies: Satisfies, selection: Selection)
    returns (fault: Option<Fault>, search: Search)
    requires Loaded(catalog)
    ensures fault.Some? ==> SearchFault(catalog, satisfies, Explicit(selection), fault.value)
    ensures fault.None? ==> Gathered(catalog, satisfies, selection, search.finished, search.log)
    ensures fault.None? ==> search.resolved == Elements(search.finished)
    ensures fault.None? ==> Recording(Granted(selection), search.log, search.dependencies, search.optionals, search.reasons)
  {
    hide Explicit, Granted, Recording, Extends, Finished, Chain, Loaded, ReachedFrom, Required, Gathered, StringLess;
    search := new Search(catalog, satisfies, Explicit(selection), Granted(selection));
    StringsAreOrdered();
    TotalIsConsistent(StringLess);
    var ids := SortedSet(StringLess, Explicit(selection));
    hide StrictTotal, Consistent, Sorted, Unique;
    NothingAdded(catalog, [], []);
    fault := None;
    for k := 0 to |ids|
      invariant fault.None? && search.Valid() && search.visiting == []
      invariant search.catalog == catalog && search.satisfies == satisfies && search.start == Explicit(selection)
      invariant search.granted == Granted(selection)
      invariant Extends(catalog, [], [], search.finished, search.log)
      invariant forall i | 0 <= i < k :: ids[i] in search.finished
    {
      StartIsReached(Required(catalog), Explicit(selection), ids[k]);
      ghost var finished, log := search.finished, search.log;
      fault := search.Visit(ids[k]);
      if fault.Some? { return; }
      UnderWay(catalog, satisfies, Explicit(selection), search.resolved, search.visiting, search.finished);
      ExtendMore(catalog, finished, log, search.finished, search.log);
      ExtendsKeeps(catalog, finished, log, search.finished, search.log);
    }
    GatherAll(catalog, satisfies, selection, search.finished, search.log);
  }

  lemma ExtendsKeeps(catalog: Catalog, finished: seq<Id>, log: seq<Dependency>, finished': seq<Id>, log': seq<Dependency>)
    requires Extends(catalog, finished, log, finished', log')
    ensures forall v | v in finished :: v in finished'
  {
    forall v | v in finished
      ensures v in finished'
    {
      var i :| 0 <= i < |finished| && finished[i] == v;
      assert finished'[i] == v;
    }
  }

  // ---------------------------------------------------------------- optional dependencies

  ghost predicate Taken(dependencies: seq<Dependency>, optionals: seq<Dependency>, resolved: set<Id>, all: seq<Dependency>) {
    && (Unique(dependencies + optionals) ==> Unique(all))
    && forall d: Dependency :: d in all <==> d in dependencies || (d in optionals && d.need.id in resolved)
  }

  lemma TakeOne(dependencies: seq<Dependency>, optionals: seq<Dependency>, k: nat, resolved: set<Id>, all: seq<Dependency>)
    requires k < |optionals| && Taken(dependencies, optionals[..k], resolved, all)
    ensures Taken(dependencies, optionals[..k + 1], resolved,
                  if optionals[k].need.id in resolved then all + [optionals[k]] else all)
  {
    var d := optionals[k];
    assert optionals[..k + 1] == optionals[..k] + [d];
    assert d in all ==> d in dependencies + optionals[..k];
    if Unique(dependencies + optionals[..k + 1]) {
      assert dependencies + optionals[..k + 1] == (dependencies + optionals[..k]) + [d];
      UniqueFront(dependencies + optionals[..k], d);
    }
  }

  /** Optional dependencies count only when their package is in the closure anyway. */
  method TakeOptionals(catalog: Catalog, satisfies: Satisfies, optionals: seq<Dependency>, resolved: set<Id>, dependencies: seq<Dependency>)
    returns (all: seq<Dependency>, fault: Option<Fault>)
    requires forall id | id in resolved :: id in catalog
    ensures fault.None? ==> Taken(dependencies, Sort(DependencyLess, optionals), resolved, all)
    ensures fault.None? ==> forall d: Dependency | d in optionals && d.need.id in resolved :: satisfies(catalog[d.need.id].version, d.need.version)
    ensures fault.Some? ==> fault.value.OptionalMismatch? && fault.value.dependency in optionals
                            && fault.value.dependency.need.id in resolved
                            && !satisfies(catalog[fault.value.dependency.need.id].version, fault.value.dependency.need.version)
  {
    hide Taken, DependencyLess;
    var sorted := Sort(DependencyLess, optionals);
    SortMembers(DependencyLess, optionals);
    all := dependencies;
    TakeNone(dependencies, sorted, resolved);
    for k := 0 to |sorted|
      invariant Taken(dependencies, sorted[..k], resolved, all)
      invariant forall i | 0 <= i < k && sorted[i].need.id in resolved :: satisfies(catalog[sorted[i].need.id].version, sorted[i].need.version)
    {
      var d := sorted[k];
      assert d in sorted;
      TakeOne(dependencies, sorted, k, resolved, all);
      if d.need.id in resolved {
        if !satisfies(catalog[d.need.id].version, d.need.version) { return all, Some(OptionalMismatch(d)); }
        all := all + [d];
      }
    }
    assert sorted[..|sorted|] == sorted;
    fault := None;
  }

  lemma TakeNone(dependencies: seq<Dependency>, optionals: seq<Dependency>, resolved: set<Id>)
    ensures Taken(dependencies, optionals[..0], resolved, dependencies)
  {
    assert dependencies + optionals[..0] == dependencies;
  }

  // ---------------------------------------------------------------- resolution

  /** The dependencies of the plan are those inside the closure, and their flow is the closure's graph turned round. */
  lemma InsideIsTaken(catalog: Catalog, satisfies: Satisfies, selection: Selection, finished: seq<Id>, log: seq<Dependency>, all: seq<Dependency>)
    requires Gathered(catalog, satisfies, selection, finished, log)
    requires Taken(RequiredOf(log), Sort(DependencyLess, OptionalOf(log)), Elements(finished), all)
    ensures Unique(all)
    ensures forall d: Dependency :: d in all <==> Declares(catalog, d) && d.consumer in Elements(finished) && d.need.id in Elements(finished)
  {
    RequiredOfMembers(log);
    OptionalOfMembers(log);
    var optionals := Sort(DependencyLess, OptionalOf(log));
    SortMembers(DependencyLess, OptionalOf(log));
    UniqueByMultiset(OptionalOf(log), optionals);
    assert Unique(RequiredOf(log) + optionals) by {
      var both := RequiredOf(log) + optionals;
      forall i, j | 0 <= i < j < |both|
        ensures both[i] != both[j]
      {
        if i < |RequiredOf(log)| <= j { assert both[i] in RequiredOf(log) && both[j] in optionals; }
      }
    }
    forall d: Dependency
      ensures d in all <==> Declares(catalog, d) && d.consumer in Elements(finished) && d.need.id in Elements(finished)
    {
      if Declares(catalog, d) && d.need.required && d.consumer in Elements(finished) {
        MetNeed(catalog, satisfies, Explicit(selection), finished, d);
      }
    }
  }

  lemma FlowsAreInside(catalog: Catalog, closure: set<Id>, all: seq<Dependency>)
    requires forall d: Dependency :: d in all <==> Declares(catalog, d) && d.consumer in closure && d.need.id in closure
    ensures Flows(all) == Flipped(Inside(catalog, closure))
    ensures Within(Flows(all), closure)
  {
    forall e
      ensures e in Flows(all) <==> e in Flipped(Inside(catalog, closure))
    {
      InsideEdge(catalog, closure, Edge(e.target, e.source));
      if e in Flows(all) {
        var d: Dependency :| d in all && e == Edge(d.need.id, d.consumer);
        assert Declares(catalog, d);
      }
      if Edge(e.target, e.source) in Inside(catalog, closure) {
        var d: Dependency :| Declares(catalog, d) && d.consumer in closure && d.need.id in closure && Edge(e.target, e.source) == Edge(d.consumer, d.need.id);
        assert d in all;
      }
    }
  }

  lemma SortedDependencies(catalog: Catalog, closure: set<Id>, all: seq<Dependency>)
    requires Unique(all)
    requires forall d: Dependency :: d in all <==> Declares(catalog, d) && d.consumer in closure && d.need.id in closure
    ensures ExactDependencies(catalog, closure, Sort(DependencyLess, all))
  {
    DependenciesAreOrdered();
    SortSorted(DependencyLess, all);
    SortMembers(DependencyLess, all);
    UniqueByMultiset(all, Sort(DependencyLess, all));
  }

  lemma ReasonsAreExact(catalog: Catalog, satisfies: Satisfies, selection: Selection, finished: seq<Id>, log: seq<Dependency>, id: Id)
    requires Gathered(catalog, satisfies, selection, finished, log) && id in finished
    ensures var reasons := ReasonsOf(Granted(selection), log);
            id in reasons && forall reason :: reason in reasons[id] <==> HasReason(catalog, selection, Elements(finished), id, reason)
  {
    var granted := Granted(selection);
    ReasonsOfMembers(granted, log);
    var reasons := ReasonsOf(granted, log);
    if id !in granted {
      WantedBy(catalog, satisfies, selection, finished, log, id);
    }
    assert forall d: Dependency :: d in log <==> Declares(catalog, d) && d.consumer in Elements(finished);
    forall reason
      ensures reason in reasons[id] <==> HasReason(catalog, selection, Elements(finished), id, reason)
    {
      assert reason in reasons[id] <==> Reason(granted, log, id, reason);
    }
  }

  /** A package of the closure that was not selected is required by another. */
  lemma WantedBy(catalog: Catalog, satisfies: Satisfies, selection: Selection, finished: seq<Id>, log: seq<Dependency>, id: Id)
    requires Gathered(catalog, satisfies, selection, finished, log) && id in finished && id !in Explicit(selection)
    ensures exists d: Dependency :: d in log && d.need.required && d.need.id == id
  {
    var edges, start := Required(catalog), Explicit(selection);
    assert ReachedFrom(edges, start, id);
    var a :| a in start && Reaches(edges, a, id);
    var w :| Walk(edges, w) && w[0] == a && w[|w| - 1] == id;
    assert |w| > 1;
    var n := |w| - 2;
    assert Edge(w[n], w[n + 1]) in edges;
    RequiredEdge(catalog, Edge(w[n], id));
    var d: Dependency :| Declares(catalog, d) && d.need.required && Edge(w[n], id) == Edge(d.consumer, d.need.id);
    SubWalk(edges, w, 0, n);
    assert w[0..n + 1][|w[0..n + 1]| - 1] == w[n];
    assert Reaches(edges, a, w[n]);
    ClosureIsReached(catalog, start);
    assert w[n] in Elements(finished);
    assert d in log;
  }

  method SortReasons(ordered: seq<Id>, reasons: map<Id, set<string>>) returns (sorted: map<Id, seq<string>>)
    requires forall id | id in ordered :: id in reasons
    ensures sorted.Keys == Elements(ordered)
    ensures forall id | id in ordered :: Sorted(StringLess, sorted[id]) && Unique(sorted[id]) && forall r :: r in sorted[id] <==> r in reasons[id]
  {
    StringsAreOrdered();
    TotalIsConsistent(StringLess);
    sorted := map[];
    for k := 0 to |ordered|
      invariant sorted.Keys == Elements(ordered[..k])
      invariant forall id | id in sorted :: id in ordered && Sorted(StringLess, sorted[id]) && Unique(sorted[id]) && forall r :: r in sorted[id] <==> r in reasons[id]
    {
      assert ordered[..k + 1] == ordered[..k] + [ordered[k]];
      assert ordered[k] in ordered;
      var listed := SortedSet(StringLess, reasons[ordered[k]]);
      sorted := sorted[ordered[k] := listed];
    }
    assert ordered[..|ordered|] == ordered;
  }

  /** When every stage succeeds no fault is genuine. */
  lemma NothingIsWrong(catalog: Catalog, satisfies: Satisfies, selection: Selection, finished: seq<Id>, log: seq<Dependency>, fault: Fault)
    requires RequestIsFine(catalog, selection) && Gathered(catalog, satisfies, selection, finished, log)
    requires forall id | id in Explicit(selection) :: id in finished
    requires forall d: Dependency | d in OptionalOf(log) && d.need.id in Elements(finished) :: satisfies(catalog[d.need.id].version, d.need.version)
    requires Acyclic(Inside(catalog, Elements(finished)))
    ensures !Genuine(catalog, satisfies, selection, fault)
  {
    hide Explicit, ReachedFrom, Required, Closure, Inside, Unique;
    var start, closure := Explicit(selection), Elements(finished);
    ClosureIsReached(catalog, start);
    OptionalOfMembers(log);
    match fault
    case UnknownDisciplines(ids) => NoStrangers(catalog, selection.disciplines, "discipline", ids);
    case UnknownRuntimeConfigs(ids) => NoStrangers(catalog, selection.runtimeConfigs, "runtime-config", ids);
    case MissingPackage(d) => PulledIsMet(catalog, satisfies, selection, finished, log, d);
    case VersionMismatch(d) => PulledIsMet(catalog, satisfies, selection, finished, log, d);
    case RequiredCycle(path) =>
      FinishedIsClosed(catalog, satisfies, start, finished);
      CycleInside(catalog, satisfies, start, closure, path);
    case _ =>
  }

  lemma CycleInside(catalog: Catalog, satisfies: Satisfies, start: set<Id>, closure: set<Id>, path: seq<Id>)
    requires ClosedUnder(catalog, closure) && forall v :: ReachedFrom(Required(catalog), start, v) ==> v in closure
    ensures SearchFault(catalog, satisfies, start, RequiredCycle(path)) ==> !Acyclic(Inside(catalog, closure))
  {
    if SearchFault(catalog, satisfies, start, RequiredCycle(path)) {
      WalkInside(catalog, closure, path);
      assert Cycle(Inside(catalog, closure), path);
    }
  }

  lemma NoStrangers(catalog: Catalog, requested: seq<Id>, kind: string, ids: seq<Id>)
    requires forall v | v in requested :: OfKind(catalog, v, kind)
    ensures !Strangers(catalog, requested, kind, ids)
  {
    if ids != [] { assert ids[0] in ids; }
  }

  lemma PulledIsMet(catalog: Catalog, satisfies: Satisfies, selection: Selection, finished: seq<Id>, log: seq<Dependency>, d: Dependency)
    requires Gathered(catalog, satisfies, selection, finished, log)
    ensures Pulled(catalog, Explicit(selection), d) && d.need.required ==>
              d.need.id in catalog && satisfies(catalog[d.need.id].version, d.need.version)
  {
    ClosureIsReached(catalog, Explicit(selection));
    if Pulled(catalog, Explicit(selection), d) && d.need.required {
      assert d.consumer in Elements(finished);
      MetNeed(catalog, satisfies, Explicit(selection), finished, d);
    }
  }

  /** A cycle is reported exactly when the dependencies inside the closure have one. */
  lemma CyclesAreReported(catalog: Catalog, satisfies: Satisfies, selection: Selection)
    ensures (exists fault: Fault :: (fault.RequiredCycle? || fault.OptionalCycle?) && Genuine(catalog, satisfies, selection, fault))
            <==> !Acyclic(Inside(catalog, Closure(catalog, Explicit(selection))))
  {
    var start := Explicit(selection);
    var closure := Closure(catalog, start);
    ClosureIsLeast(catalog, start);
    ClosureIsReached(catalog, start);
    hide Explicit, Closure, ReachedFrom, Inside, ClosedUnder;
    if fault: Fault :| (fault.RequiredCycle? || fault.OptionalCycle?) && Genuine(catalog, satisfies, selection, fault) {
      if fault.RequiredCycle? { CycleInside(catalog, satisfies, start, closure, fault.path); }
    }
    if !Acyclic(RequiredWithin(catalog, closure)) {
      var w :| Cycle(RequiredWithin(catalog, closure), w);
      RequiredCycleIsFault(catalog, satisfies, start, closure, w);
      assert Genuine(catalog, satisfies, selection, RequiredCycle(w));
      CycleInside(catalog, satisfies, start, closure, w);
    } else if !Acyclic(Inside(catalog, closure)) {
      assert Genuine(catalog, satisfies, selection, OptionalCycle);
    }
  }

  lemma RequiredCycleIsFault(catalog: Catalog, satisfies: Satisfies, start: set<Id>, closure: set<Id>, w: seq<Id>)
    requires forall v :: v in closure <==> ReachedFrom(Required(catalog), start, v)
    requires Cycle(RequiredWithin(catalog, closure), w)
    ensures SearchFault(catalog, satisfies, start, RequiredCycle(w))
  {
    forall i | 0 <= i < |w| - 1
      ensures Edge(w[i], w[i + 1]) in Required(catalog)
    {
      assert Edge(w[i], w[i + 1]) in RequiredWithin(catalog, closure);
    }
    assert Edge(w[0], w[1]) in RequiredWithin(catalog, closure);
  }

  /** `_resolve_packages`: the one right resolution, or a fault that is really there; and a fault only when there is one. */
  method Resolve(catalog: Catalog, satisfies: Satisfies, selection: Selection) returns (outcome: Outcome)
    requires Loaded(catalog)
    ensures outcome.Err? ==> Genuine(catalog, satisfies, selection, outcome.fault)
    ensures outcome.Ok? ==> Resolved(catalog, satisfies, selection, outcome.resolution)
    ensures outcome.Ok? ==> forall fault :: !Genuine(catalog, satisfies, selection, fault)
  {
    hide Explicit, Closure, Genuine, Resolved, RequestIsFine, Gathered, Recording, Taken, Granted, Acyclic, LeastTopological,
         Flows, Inside, Flipped, Elements, Sorted, Unique, Loaded, SearchFault, DependencyLess, StringLess, Within;
    var fault := CheckRequest(catalog, satisfies, selection);
    if fault.Some? { return Err(fault.value); }
    var search: Search;
    fault, search := Gather(catalog, satisfies, selection);
    if fault.Some? {
      SearchFaultIsGenuine(catalog, satisfies, selection, fault.value);
      return Err(fault.value);
    }
    ghost var finished, log := search.finished, search.log;
    GatheredBasics(catalog, satisfies, selection, finished, log, search.dependencies, search.optionals, search.reasons);
    var all;
    all, fault := TakeOptionals(catalog, satisfies, search.optionals, search.resolved, search.dependencies);
    if fault.Some? {
      OptionalFaultIsGenuine(catalog, satisfies, selection, finished, log, fault.value);
      return Err(fault.value);
    }
    InsideIsTaken(catalog, satisfies, selection, finished, log, all);
    FlowsAreInside(catalog, search.resolved, all);
    FlippedIsAcyclic(Inside(catalog, search.resolved));
    KeysAreOrdered(catalog);
    var ordered := Arrange(ByKey(catalog), search.resolved, all);
    if |ordered| != |search.resolved| {
      CycleIsGenuine(catalog, satisfies, selection, finished, log);
      return Err(OptionalCycle);
    }
    OrderIsComplete(ByKey(catalog), search.resolved, Flows(all), ordered);
    var reasons := SortReasons(ordered, search.reasons);
    var resolution := Resolution(ordered, Sort(StringLess, selection.disciplines), Sort(StringLess, selection.runtimeConfigs),
                                 Sort(DependencyLess, all), reasons);
    ResolutionIsRight(catalog, satisfies, selection, finished, log, all, resolution);
    forall f { NothingIsWrong(catalog, satisfies, selection, finished, log, f); }
    outcome := Ok(resolution);
  }

  lemma SearchFaultIsGenuine(catalog: Catalog, satisfies: Satisfies, selection: Selection, fault: Fault)
    requires SearchFault(catalog, satisfies, Explicit(selection), fault)
    ensures Genuine(catalog, satisfies, selection, fault)
  {
  }

  lemma GatheredBasics(catalog: Catalog, satisfies: Satisfies, selection: Selection, finished: seq<Id>, log: seq<Dependency>,
                       dependencies: seq<Dependency>, optionals: seq<Dependency>, reasons: map<Id, set<string>>)
    requires Gathered(catalog, satisfies, selection, finished, log)
    requires Recording(Granted(selection), log, dependencies, optionals, reasons)
    ensures dependencies == RequiredOf(log) && optionals == OptionalOf(log)
    ensures forall id | id in Elements(finished) :: id in catalog && id in reasons
    ensures forall id | id in Explicit(selection) :: id in finished
    ensures Elements(finished) == Closure(catalog, Explicit(selection))
    ensures forall id | id in Elements(finished) :: forall reason :: reason in reasons[id] <==> HasReason(catalog, selection, Elements(finished), id, reason)
  {
    ClosureIsLeast(catalog, Explicit(selection));
    forall id | id in finished { ReasonsAreExact(catalog, satisfies, selection, finished, log, id); }
  }

  lemma OptionalFaultIsGenuine(catalog: Catalog, satisfies: Satisfies, selection: Selection, finished: seq<Id>, log: seq<Dependency>, fault: Fault)
    requires Gathered(catalog, satisfies, selection, finished, log)
    requires fault.OptionalMismatch? && fault.dependency in OptionalOf(log) && fault.dependency.need.id in Elements(finished)
    requires fault.dependency.need.id in catalog
    requires !satisfies(catalog[fault.dependency.need.id].version, fault.dependency.need.version)
    ensures Genuine(catalog, satisfies, selection, fault)
  {
    OptionalOfMembers(log);
  }

  lemma CycleIsGenuine(catalog: Catalog, satisfies: Satisfies, selection: Selection, finished: seq<Id>, log: seq<Dependency>)
    requires Gathered(catalog, satisfies, selection, finished, log) && !Acyclic(Inside(catalog, Elements(finished)))
    ensures Genuine(catalog, satisfies, selection, OptionalCycle)
  {
    FinishedIsAcyclic(catalog, satisfies, Explicit(selection), finished);
  }

  lemma OrderIsComplete(less: Less, nodes: set<Id>, edges: set<Edge>, order: seq<Id>)
    requires LeastTopological(less, nodes, edges, order)
    ensures Elements(order) == nodes && forall id :: id in order <==> id in nodes
  {
    assert forall id :: id in order <==> id in Elements(order);
  }

  lemma ResolutionIsRight(catalog: Catalog, satisfies: Satisfies, selection: Selection, finished: seq<Id>, log: seq<Dependency>,
                          all: seq<Dependency>, r: Resolution)
    requires Gathered(catalog, satisfies, selection, finished, log)
    requires Unique(all)
    requires forall d: Dependency :: d in all <==> Declares(catalog, d) && d.consumer in Elements(finished) && d.need.id in Elements(finished)
    requires forall d: Dependency | d in OptionalOf(log) && d.need.id in Elements(finished) ::
               d.need.id in catalog && satisfies(catalog[d.need.id].version, d.need.version)
    requires LeastTopological(ByKey(catalog), Elements(finished), Flows(all), r.order)
    requires r.dependencies == Sort(DependencyLess, all)
    requires r.disciplines == Sort(StringLess, selection.disciplines) && r.runtimeConfigs == Sort(StringLess, selection.runtimeConfigs)
    requires r.reasons.Keys == Elements(finished)
    requires forall id | id in Elements(finished) :: ReasonsAt(catalog, selection, Elements(finished), id, r.reasons[id])
    ensures Resolved(catalog, satisfies, selection, r)
  {
    hide LeastTopological, ReasonsAt, Explicit, Closure, Flipped, Inside, Elements, Sorted, Unique, Covers;
    var closure := Elements(finished);
    FlowsAreInside(catalog, closure, all);
    SortedDependencies(catalog, closure, all);
    StringsAreOrdered();
    TotalIsConsistent(StringLess);
    SortSorted(StringLess, selection.disciplines);
    SortSorted(StringLess, selection.runtimeConfigs);
    forall d: Dependency | d in r.dependencies
      ensures d.need.id in catalog && satisfies(catalog[d.need.id].version, d.need.version)
    {
      VersionsHold(catalog, satisfies, selection, finished, log, d);
    }
  }

  lemma VersionsHold(catalog: Catalog, satisfies: Satisfies, selection: Selection, finished: seq<Id>, log: seq<Dependency>, d: Dependency)
    requires Gathered(catalog, satisfies, selection, finished, log)
    requires Declares(catalog, d) && d.consumer in Elements(finished) && d.need.id in Elements(finished)
    requires d in OptionalOf(log) ==> d.need.id in catalog && satisfies(catalog[d.need.id].version, d.need.version)
    ensures d.need.id in catalog && satisfies(catalog[d.need.id].version, d.need.version)
  {
    OptionalOfMembers(log);
    if d.need.required {
      MetNeed(catalog, satisfies, Explicit(selection), finished, d);
    }
  }
}
