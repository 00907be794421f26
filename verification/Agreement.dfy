/** Every resolution passes the plan check, the lock check and the manifest rescan. */
module Agreement {
  import opened Order
  import opened Graphs
  import opened Packages
  import opened PriorityOrder
  import opened ClosureSearch
  import opened Resolver
  import opened PlanChecks
  import GraphChecks

  /** The core package needs nothing, is needed by nobody, and is the only one of its kind. */
  ghost predicate CoreAlone(catalog: Catalog) {
    && "core" in catalog && catalog["core"].kind == "core" && catalog["core"].needs == []
    && (forall id | id in catalog && id != "core" :: catalog[id].kind in KINDS - {"core"})
    && (forall d: Dependency | Declares(catalog, d) :: d.need.id != "core")
  }

  /** The selection names packages of the right kinds; platforms come from the list of installable platforms. */
  ghost predicate WellSelected(catalog: Catalog, selection: Selection) {
    && (forall v | v in selection.platforms :: OfKind(catalog, v, "platform"))
    && (forall v | v in selection.disciplines :: OfKind(catalog, v, "discipline"))
    && (forall v | v in selection.runtimeConfigs :: OfKind(catalog, v, "runtime-config"))
  }

  function PlannedPackage(catalog: Catalog, reasons: map<Id, seq<string>>, id: Id): SelectedPackage
    requires id in catalog && id in reasons
  {
    SelectedPackage(id, if id == "core" then "core" else catalog[id].kind, catalog[id].version, reasons[id])
  }

  function PlanOf(catalog: Catalog, selection: Selection, r: Resolution): (plan: Plan)
    requires forall id | id in r.order :: id in catalog && id in r.reasons
    ensures Ids(plan.packages) == r.order
  {
    Plan(seq(|r.order|, i requires 0 <= i < |r.order| => PlannedPackage(catalog, r.reasons, r.order[i])),
         selection.platforms, r.disciplines, r.runtimeConfigs, r.dependencies)
  }

  /** The edges the lock lists, from consumer to provider. */
  function LockEdges(dependencies: seq<Dependency>): (edges: seq<Edge>) {
    seq(|dependencies|, i requires 0 <= i < |dependencies| => Edge(dependencies[i].consumer, dependencies[i].need.id))
  }

  function Selected(selection: Selection): set<Id> {
    Elements(selection.disciplines) + Elements(selection.platforms) + Elements(selection.runtimeConfigs)
  }

  // ---------------------------------------------------------------- the core comes first

  lemma CoreIsLoose(catalog: Catalog, closure: set<Id>, e: Edge)
    requires CoreAlone(catalog) && e in Flipped(Inside(catalog, closure))
    ensures e.source != "core" && e.target != "core"
  {
    InsideEdge(catalog, closure, Edge(e.target, e.source));
  }

  lemma ToFront(nodes: set<Id>, edges: set<Edge>, order: seq<Id>, k: nat)
    requires Topological(nodes, edges, order) && k < |order|
    requires forall e | e in edges :: e.source != order[k] && e.target != order[k]
    ensures Topological(nodes, edges, [order[k]] + order[..k] + order[k + 1..])
  {
    var x := order[k];
    var other := [x] + order[..k] + order[k + 1..];
    forall i, j | 0 <= i < |other| && 0 <= j < |other| && Edge(other[i], other[j]) in edges
      ensures i < j
    {
      var i', j' := if i <= k then i - 1 else i, if j <= k then j - 1 else j;
      assert other[i] == order[i'] && other[j] == order[j'];
    }
    forall i, j | 0 <= i < j < |other|
      ensures other[i] != other[j]
    {
      var j' := if j <= k then j - 1 else j;
      assert other[j] == order[j'];
      if i > 0 { assert other[i] == order[if i <= k then i - 1 else i]; }
    }
    assert order == order[..k] + [x] + order[k + 1..];
    assert Elements(other) == Elements(order);
  }

  lemma CoreIsFirst(catalog: Catalog, closure: set<Id>, order: seq<Id>)
    requires CoreAlone(catalog) && "core" in closure && closure <= catalog.Keys
    requires LeastTopological(ByKey(catalog), closure, Flipped(Inside(catalog, closure)), order)
    ensures order != [] && order[0] == "core"
  {
    var edges := Flipped(Inside(catalog, closure));
    assert "core" in Elements(order);
    var k :| 0 <= k < |order| && order[k] == "core";
    if k != 0 {
      CoreToFront(catalog, closure, order, k);
      assert order[0] != "core" && order[0] in Elements(order);
      BehindCore(catalog, order[0]);
      hide ByKey, NotAfter, LeastTopological;
      DifferAtOnce(ByKey(catalog), order, [order[k]] + order[..k] + order[k + 1..]);
      assert false;
    }
  }

  lemma CoreToFront(catalog: Catalog, closure: set<Id>, order: seq<Id>, k: nat)
    requires CoreAlone(catalog) && closure <= catalog.Keys && k < |order| && order[k] == "core"
    requires LeastTopological(ByKey(catalog), closure, Flipped(Inside(catalog, closure)), order)
    ensures NotAfter(ByKey(catalog), order, [order[k]] + order[..k] + order[k + 1..])
  {
    var edges := Flipped(Inside(catalog, closure));
    forall e | e in edges { CoreIsLoose(catalog, closure, e); }
    hide NotAfter, Inside, CoreAlone, ByKey, Flipped;
    ToFront(closure, edges, order, k);
  }

  lemma DifferAtOnce(less: Less, a: seq<Id>, b: seq<Id>)
    requires NotAfter(less, a, b) && |a| > 0 && |b| > 0 && a[0] != b[0]
    ensures less(a[0], b[0])
  {
    var i :| 0 <= i < |a| && i < |b| && a[..i] == b[..i] && less(a[i], b[i]);
    SameHead(a, b, i);
  }

  lemma SameHead(a: seq<Id>, b: seq<Id>, i: nat)
    requires i <= |a| && i <= |b| && a[..i] == b[..i]
    ensures i > 0 ==> a[0] == b[0]
  {
    if i > 0 { assert a[..i][0] == b[..i][0]; }
  }

  lemma BehindCore(catalog: Catalog, id: Id)
    requires CoreAlone(catalog) && id in catalog && id != "core"
    ensures !KeyLess(catalog, id, "core")
  {
    assert catalog[id].kind in KINDS - {"core"};
  }

  // ---------------------------------------------------------------- reasons

  lemma ReasonsDiffer(a: Id, b: Id)
    ensures "platform:" + a != "dependency:" + b && "discipline:" + a != "dependency:" + b
    ensures "runtime-config:" + a != "dependency:" + b && "core" != "dependency:" + b
    ensures "platform:" + a != "discipline:" + b && "platform:" + a != "runtime-config:" + b
    ensures "discipline:" + a != "runtime-config:" + b
    ensures "core" != "platform:" + a && "core" != "discipline:" + a && "core" != "runtime-config:" + a
  {
    assert ("platform:" + a)[0] == 'p' && ("dependency:" + b)[0] == 'd' && ("runtime-config:" + a)[0] == 'r';
    assert ("discipline:" + a)[1] == 'i' && ("dependency:" + b)[1] == 'e';
    assert ("discipline:" + b)[0] == 'd' && ("runtime-config:" + b)[0] == 'r' && ("discipline:" + a)[0] == 'd';
  }

  /** With packages of the right kinds, each group of the selection grants its own reason. */
  lemma GrantedReasons(catalog: Catalog, selection: Selection, closure: set<Id>, id: Id)
    requires WellSelected(catalog, selection) && CoreAlone(catalog)
    ensures HasReason(catalog, selection, closure, id, "platform:" + id) <==> id in selection.platforms
    ensures HasReason(catalog, selection, closure, id, "discipline:" + id) <==> id in selection.disciplines
    ensures HasReason(catalog, selection, closure, id, "runtime-config:" + id) <==> id in selection.runtimeConfigs
  {
    forall b { ReasonsDiffer(id, b); }
    hide Declares;
    OwnGrant(catalog, selection, id);
  }

  /** A package selected in one group only keeps that group's reason. */
  lemma OwnGrant(catalog: Catalog, selection: Selection, id: Id)
    requires WellSelected(catalog, selection) && CoreAlone(catalog)
    ensures id in selection.platforms ==> id in Granted(selection) && Granted(selection)[id] == {"platform:" + id}
    ensures id in selection.disciplines ==> id in Granted(selection) && Granted(selection)[id] == {"discipline:" + id}
    ensures id in selection.runtimeConfigs ==> id in Granted(selection) && Granted(selection)[id] == {"runtime-config:" + id}
    ensures id in Granted(selection) && id !in selection.platforms && id !in selection.disciplines && id !in selection.runtimeConfigs ==>
              Granted(selection)[id] == {"core"}
  {
  }

  lemma CoreReason(catalog: Catalog, selection: Selection, closure: set<Id>, reason: string)
    requires WellSelected(catalog, selection) && CoreAlone(catalog)
    ensures HasReason(catalog, selection, closure, "core", reason) <==> reason == "core"
  {
    assert "core" !in selection.platforms && "core" !in selection.disciplines && "core" !in selection.runtimeConfigs;
    assert Granted(selection)["core"] == {"core"};
  }

  /** A reason is the package's own selection, or a required dependency of the plan. */
  lemma ReasonIsAllowed(catalog: Catalog, selection: Selection, closure: set<Id>, dependencies: seq<Dependency>, id: Id, reason: string)
    requires CoreAlone(catalog) && ExactDependencies(catalog, closure, dependencies) && id in closure && id != "core"
    requires HasReason(catalog, selection, closure, id, reason)
    ensures ReasonAllowed(dependencies, id, reason) && reason != ""
  {
    if !(id in Granted(selection) && reason in Granted(selection)[id]) {
      var d: Dependency :| Declares(catalog, d) && d.consumer in closure && d.need.required && d.need.id == id
                           && reason == "dependency:" + d.consumer;
      assert d in dependencies;
    }
  }

  // ---------------------------------------------------------------- the three validators accept

  ghost predicate Agreeable(catalog: Catalog, satisfies: Satisfies, selection: Selection, r: Resolution) {
    && CoreAlone(catalog) && WellSelected(catalog, selection) && Resolved(catalog, satisfies, selection, r)
    && (forall id | id in Closure(catalog, Explicit(selection)) :: id in catalog)
  }

  lemma Parts(catalog: Catalog, satisfies: Satisfies, selection: Selection, r: Resolution)
    requires Agreeable(catalog, satisfies, selection, r)
    ensures CoreAlone(catalog) && WellSelected(catalog, selection)
    ensures ExactDependencies(catalog, Closure(catalog, Explicit(selection)), r.dependencies)
    ensures LeastTopological(ByKey(catalog), Closure(catalog, Explicit(selection)), Flipped(Inside(catalog, Closure(catalog, Explicit(selection)))), r.order)
    ensures forall d | d in r.dependencies :: d.need.id in catalog && satisfies(catalog[d.need.id].version, d.need.version)
    ensures multiset(r.disciplines) == multiset(selection.disciplines) && multiset(r.runtimeConfigs) == multiset(selection.runtimeConfigs)
  {
    hide Closure, Explicit, LeastTopological, Flipped, Inside, ExactDependencies, ExactReasons;
  }

  lemma KindIsKnown(catalog: Catalog, id: Id)
    requires CoreAlone(catalog) && id in catalog
    ensures (if id == "core" then "core" else catalog[id].kind) in KINDS
  {
  }

  lemma OrderIsClosure(catalog: Catalog, satisfies: Satisfies, selection: Selection, r: Resolution)
    requires Agreeable(catalog, satisfies, selection, r)
    ensures forall id :: id in r.order <==> id in Closure(catalog, Explicit(selection))
    ensures forall id | id in r.order :: id in catalog && id in r.reasons
    ensures Unique(r.order) && r.order != [] && r.order[0] == "core"
    ensures Explicit(selection) <= Closure(catalog, Explicit(selection))
  {
    Parts(catalog, satisfies, selection, r);
    OrderListsClosure(catalog, satisfies, selection, r);
    var closure := Closure(catalog, Explicit(selection));
    ClosureIsLeast(catalog, Explicit(selection));
    hide *;
    InClosure(catalog, satisfies, selection, r);
    CoreIsFirst(catalog, closure, r.order);
  }

  lemma OrderListsClosure(catalog: Catalog, satisfies: Satisfies, selection: Selection, r: Resolution)
    requires Agreeable(catalog, satisfies, selection, r)
    ensures Unique(r.order) && forall id :: id in r.order <==> id in Closure(catalog, Explicit(selection))
    ensures forall id | id in r.order :: id in catalog && id in r.reasons
  {
    hide Closure, Explicit, Flipped, Inside, ExactDependencies, CoreAlone, WellSelected;
    assert forall id :: id in r.order <==> id in Elements(r.order);
  }

  lemma InClosure(catalog: Catalog, satisfies: Satisfies, selection: Selection, r: Resolution)
    requires Agreeable(catalog, satisfies, selection, r) && Explicit(selection) <= Closure(catalog, Explicit(selection))
    ensures "core" in Closure(catalog, Explicit(selection)) && Closure(catalog, Explicit(selection)) <= catalog.Keys
  {
    hide Closure, Resolved, CoreAlone, WellSelected;
  }

  lemma PackagesAreFine(catalog: Catalog, satisfies: Satisfies, selection: Selection, r: Resolution)
    requires Agreeable(catalog, satisfies, selection, r) && forall id | id in r.order :: id in catalog && id in r.reasons
    ensures PackagesFine(PlanOf(catalog, selection, r).packages)
  {
    hide Agreeable, CoreAlone, WellSelected, Closure, Explicit, ReasonsAt, Unique, ReasonAllowed;
    OrderIsClosure(catalog, satisfies, selection, r);
    Parts(catalog, satisfies, selection, r);
    ReasonsOfPackages(catalog, satisfies, selection, r);
    var packages := PlanOf(catalog, selection, r).packages;
    CoreReasons(catalog, selection, Closure(catalog, Explicit(selection)), r.reasons["core"]);
    assert packages[0] == PlannedPackage(catalog, r.reasons, "core");
    forall p | p in packages
      ensures p.kind in PREFERENCE && p.reasons != [] && "" !in p.reasons && Unique(p.reasons)
    {
      var i :| 0 <= i < |packages| && packages[i] == p;
      assert p == PlannedPackage(catalog, r.reasons, r.order[i]) && r.order[i] in r.order;
      KindIsKnown(catalog, p.id);
      KindsAreListed(p.kind);
      if p.id == "core" {
        OneIsUnique("core");
      } else {
        ReasonsAreFine(catalog, satisfies, selection, r, p.id);
      }
    }
  }

  lemma OneIsUnique(s: string)
    ensures Unique([s])
  {
  }

  lemma ReasonsOfPackages(catalog: Catalog, satisfies: Satisfies, selection: Selection, r: Resolution)
    requires Agreeable(catalog, satisfies, selection, r)
    ensures forall id | id in Closure(catalog, Explicit(selection)) ::
              id in r.reasons && ReasonsAt(catalog, selection, Closure(catalog, Explicit(selection)), id, r.reasons[id])
  {
  }

  lemma CoreReasons(catalog: Catalog, selection: Selection, closure: set<Id>, reasons: seq<string>)
    requires CoreAlone(catalog) && WellSelected(catalog, selection) && ReasonsAt(catalog, selection, closure, "core", reasons)
    ensures reasons == ["core"]
  {
    forall reason { CoreReason(catalog, selection, closure, reason); }
    assert "core" in reasons;
    assert reasons[0] in reasons;
    UniqueIsSmall(reasons, {"core"});
  }

  lemma ReasonsAreFine(catalog: Catalog, satisfies: Satisfies, selection: Selection, r: Resolution, id: Id)
    requires Agreeable(catalog, satisfies, selection, r) && id in Closure(catalog, Explicit(selection)) && id != "core" && id in r.reasons
    ensures r.reasons[id] != [] && "" !in r.reasons[id] && Unique(r.reasons[id])
    ensures forall reason | reason in r.reasons[id] :: ReasonAllowed(r.dependencies, id, reason)
  {
    hide Closure, Explicit, LeastTopological, Flipped, Inside, Granted, CoreAlone, WellSelected;
    var closure := Closure(catalog, Explicit(selection));
    ReasonsOfPackages(catalog, satisfies, selection, r);
    Parts(catalog, satisfies, selection, r);
    hide Agreeable, ExactDependencies;
    forall reason | reason in r.reasons[id]
      ensures ReasonAllowed(r.dependencies, id, reason) && reason != ""
    {
      ReasonIsAllowed(catalog, selection, closure, r.dependencies, id, reason);
    }
    SomeReason(catalog, selection, closure, id);
    var reason :| HasReason(catalog, selection, closure, id, reason);
    assert reason in r.reasons[id];
  }

  /** A member of the closure was selected or is required by another member. */
  lemma SomeReason(catalog: Catalog, selection: Selection, closure: set<Id>, id: Id)
    requires closure == Closure(catalog, Explicit(selection)) && id in closure
    ensures exists reason :: HasReason(catalog, selection, closure, id, reason)
  {
    hide Closure, Required, Declares;
    if id in Granted(selection) {
      GrantIsReal(selection, id);
      var reason :| reason in Granted(selection)[id];
      assert HasReason(catalog, selection, closure, id, reason);
    } else {
      assert id !in Explicit(selection);
      var d := RequiredBySome(catalog, Explicit(selection), id);
      assert HasReason(catalog, selection, closure, id, "dependency:" + d.consumer);
    }
  }

  lemma GrantIsReal(selection: Selection, id: Id)
    requires id in Granted(selection)
    ensures exists reason :: reason in Granted(selection)[id]
  {
    if id in selection.runtimeConfigs {
      assert "runtime-config:" + id in Granted(selection)[id];
    } else if id in selection.disciplines {
      assert "discipline:" + id in Granted(selection)[id];
    } else if id in selection.platforms {
      assert "platform:" + id in Granted(selection)[id];
    } else {
      assert "core" in Granted(selection)[id];
    }
  }

  lemma RequiredBySome(catalog: Catalog, start: set<Id>, id: Id) returns (d: Dependency)
    requires id in Closure(catalog, start) && id !in start
    ensures Declares(catalog, d) && d.need.required && d.need.id == id && d.consumer in Closure(catalog, start)
  {
    var edges := Required(catalog);
    var a :| a in start && Reaches(edges, a, id);
    var w :| Walk(edges, w) && w[0] == a && w[|w| - 1] == id;
    assert |w| > 1;
    var n := |w| - 2;
    assert Edge(w[n], w[n + 1]) in edges;
    RequiredEdge(catalog, Edge(w[n], id));
    d :| Declares(catalog, d) && d.need.required && Edge(w[n], id) == Edge(d.consumer, d.need.id);
    SubWalk(edges, w, 0, n);
    assert w[0..n + 1][|w[0..n + 1]| - 1] == w[n];
    assert Reaches(edges, a, w[n]);
    ClosureIsReached(catalog, start);
  }

  lemma SelectionIsFine(catalog: Catalog, satisfies: Satisfies, selection: Selection, r: Resolution, selected: seq<Id>, kind: string)
    requires Agreeable(catalog, satisfies, selection, r) && forall id | id in r.order :: id in catalog && id in r.reasons
    requires forall id :: HasReason(catalog, selection, Closure(catalog, Explicit(selection)), id, kind + ":" + id) <==> id in selected
    requires forall id | id in selected :: id in Explicit(selection) && OfKind(catalog, id, kind)
    requires kind != "core"
    ensures SelectionFine(PlanOf(catalog, selection, r).packages, selected, kind)
  {
    hide Agreeable, Closure, Explicit, HasReason;
    OrderIsClosure(catalog, satisfies, selection, r);
    ReasonsOfPackages(catalog, satisfies, selection, r);
    var closure, packages := Closure(catalog, Explicit(selection)), PlanOf(catalog, selection, r).packages;
    forall p | p in packages
      ensures (kind + ":" + p.id in p.reasons <==> p.id in selected) && (p.id in selected ==> p.kind == kind)
    {
      var i :| 0 <= i < |packages| && packages[i] == p;
      assert p == PlannedPackage(catalog, r.reasons, r.order[i]) && r.order[i] in r.order;
      assert ReasonsAt(catalog, selection, closure, p.id, p.reasons);
      CoreKind(catalog, satisfies, selection, r);
    }
    assert forall id | id in selected :: id in r.order;
  }

  lemma CoreKind(catalog: Catalog, satisfies: Satisfies, selection: Selection, r: Resolution)
    requires Agreeable(catalog, satisfies, selection, r)
    ensures "core" in catalog && catalog["core"].kind == "core"
  {
  }

  lemma DependenciesAreFine(catalog: Catalog, satisfies: Satisfies, selection: Selection, r: Resolution, d: Dependency)
    requires Agreeable(catalog, satisfies, selection, r) && forall id | id in r.order :: id in catalog && id in r.reasons
    requires d in r.dependencies
    ensures DependencyFine(satisfies, PlanOf(catalog, selection, r).packages, d)
  {
    OrderIsClosure(catalog, satisfies, selection, r);
    Parts(catalog, satisfies, selection, r);
    var closure := Closure(catalog, Explicit(selection));
    InsideOf(catalog, closure, r.dependencies, d);
    hide *;
    var i, j := ProviderFirst(catalog, closure, r.order, d);
    StandsFirst(catalog, satisfies, selection, r, d, i, j);
  }

  lemma InsideOf(catalog: Catalog, closure: set<Id>, dependencies: seq<Dependency>, d: Dependency)
    requires ExactDependencies(catalog, closure, dependencies) && d in dependencies
    ensures Edge(d.consumer, d.need.id) in Inside(catalog, closure)
  {
    InsideEdge(catalog, closure, Edge(d.consumer, d.need.id));
  }

  /** In the order of a resolution a provider stands before its consumer. */
  lemma ProviderFirst(catalog: Catalog, closure: set<Id>, order: seq<Id>, d: Dependency) returns (i: nat, j: nat)
    requires LeastTopological(ByKey(catalog), closure, Flipped(Inside(catalog, closure)), order)
    requires Edge(d.consumer, d.need.id) in Inside(catalog, closure)
    ensures i < j < |order| && order[i] == d.need.id && order[j] == d.consumer
  {
    hide Inside, NotAfter;
    var edges := Flipped(Inside(catalog, closure));
    assert Edge(d.need.id, d.consumer) in edges;
    assert d.need.id in Elements(order) && d.consumer in Elements(order) by { EdgeIsInside(catalog, closure, d); }
    i :| 0 <= i < |order| && order[i] == d.need.id;
    j :| 0 <= j < |order| && order[j] == d.consumer;
    assert Edge(order[i], order[j]) in edges;
  }

  lemma EdgeIsInside(catalog: Catalog, closure: set<Id>, d: Dependency)
    requires Edge(d.consumer, d.need.id) in Inside(catalog, closure)
    ensures d.consumer in closure && d.need.id in closure
  {
  }

  lemma StandsFirst(catalog: Catalog, satisfies: Satisfies, selection: Selection, r: Resolution, d: Dependency, i: nat, j: nat)
    requires forall id | id in r.order :: id in catalog && id in r.reasons
    requires i < j < |r.order| && r.order[i] == d.need.id && r.order[j] == d.consumer
    requires d.need.id in catalog && satisfies(catalog[d.need.id].version, d.need.version)
    ensures DependencyFine(satisfies, PlanOf(catalog, selection, r).packages, d)
  {
    var packages := PlanOf(catalog, selection, r).packages;
    assert packages[i] == PlannedPackage(catalog, r.reasons, r.order[i]) && packages[j] == PlannedPackage(catalog, r.reasons, r.order[j]);
  }

  lemma EdgesAreDistinct(catalog: Catalog, closure: set<Id>, dependencies: seq<Dependency>)
    requires Loaded(catalog) && ExactDependencies(catalog, closure, dependencies)
    ensures EdgesDiffer(dependencies)
    ensures Sorted(GraphChecks.EdgeLess, LockEdges(dependencies)) && Unique(LockEdges(dependencies))
  {
    var edges := LockEdges(dependencies);
    forall i, j | 0 <= i < j < |dependencies|
      ensures dependencies[i].consumer != dependencies[j].consumer || dependencies[i].need.id != dependencies[j].need.id
      ensures !GraphChecks.EdgeLess(edges[j], edges[i]) && edges[i] != edges[j]
    {
      var a, b := dependencies[i], dependencies[j];
      assert a in dependencies && b in dependencies && a != b;
      assert !DependencyLess(b, a);
      if a.consumer == b.consumer && a.need.id == b.need.id {
        NotLessThanItself(a, b);
        EndsIdentify(catalog, a, b);
      }
    }
  }

  lemma NotLessThanItself(a: Dependency, b: Dependency)
    requires a.consumer == b.consumer && a.need.id == b.need.id
    ensures !DependencyLess(a, b) && !DependencyLess(b, a)
  {
    StringLessIrreflexive(a.consumer);
    StringLessIrreflexive(a.need.id);
  }

  lemma ReasonsArePlanned(catalog: Catalog, satisfies: Satisfies, selection: Selection, r: Resolution)
    requires Agreeable(catalog, satisfies, selection, r) && forall id | id in r.order :: id in catalog && id in r.reasons
    ensures ReasonsFine(PlanOf(catalog, selection, r).packages, r.dependencies)
  {
    hide Agreeable, Closure, Explicit, ReasonAllowed, ReasonsAt, ExactDependencies, CoreAlone, WellSelected, LeastTopological;
    OrderIsClosure(catalog, satisfies, selection, r);
    ReasonsOfPackages(catalog, satisfies, selection, r);
    Parts(catalog, satisfies, selection, r);
    var closure, packages := Closure(catalog, Explicit(selection)), PlanOf(catalog, selection, r).packages;
    forall k, reason | 1 <= k < |packages| && reason in packages[k].reasons
      ensures ReasonAllowed(r.dependencies, packages[k].id, reason)
    {
      assert packages[k] == PlannedPackage(catalog, r.reasons, r.order[k]) && r.order[k] in r.order;
      assert r.order[k] != r.order[0];
      ReasonsAreFine(catalog, satisfies, selection, r, r.order[k]);
    }
    forall d, p | d in r.dependencies && d.need.required && p in packages && p.id == d.need.id
      ensures "dependency:" + d.consumer in p.reasons
    {
      var i :| 0 <= i < |packages| && packages[i] == p;
      assert p == PlannedPackage(catalog, r.reasons, r.order[i]) && r.order[i] in r.order;
      DependencyIsReason(catalog, selection, closure, r.dependencies, d, p.reasons);
    }
  }

  lemma DependencyIsReason(catalog: Catalog, selection: Selection, closure: set<Id>, dependencies: seq<Dependency>, d: Dependency, reasons: seq<string>)
    requires ExactDependencies(catalog, closure, dependencies) && d in dependencies && d.need.required
    requires ReasonsAt(catalog, selection, closure, d.need.id, reasons)
    ensures "dependency:" + d.consumer in reasons
  {
    assert HasReason(catalog, selection, closure, d.need.id, "dependency:" + d.consumer);
  }

  /** The plan check accepts every resolution. */
  lemma PlanCheckAccepts(catalog: Catalog, satisfies: Satisfies, selection: Selection, r: Resolution)
    requires Loaded(catalog) && Agreeable(catalog, satisfies, selection, r)
    ensures forall id | id in r.order :: id in catalog && id in r.reasons
    ensures PlanValid(satisfies, PlanOf(catalog, selection, r))
  {
    hide Agreeable, Closure, ReasonsFine, EdgesDiffer, DependencyFine, SelectionFine, PackagesFine, CoreAlone, HasReason, ExactDependencies, Loaded;
    var closure := Closure(catalog, Explicit(selection));
    Parts(catalog, satisfies, selection, r);
    OrderIsClosure(catalog, satisfies, selection, r);
    PackagesAreFine(catalog, satisfies, selection, r);
    forall id { GrantedReasons(catalog, selection, closure, id); }
    SameItems(selection.disciplines, r.disciplines);
    SameItems(selection.runtimeConfigs, r.runtimeConfigs);
    assert "platform" + ":" == "platform:" && "discipline" + ":" == "discipline:" && "runtime-config" + ":" == "runtime-config:";
    SelectionIsFine(catalog, satisfies, selection, r, selection.platforms, "platform");
    SelectionIsFine(catalog, satisfies, selection, r, r.disciplines, "discipline");
    SelectionIsFine(catalog, satisfies, selection, r, r.runtimeConfigs, "runtime-config");
    EdgesAreDistinct(catalog, closure, r.dependencies);
    forall d | d in r.dependencies { DependenciesAreFine(catalog, satisfies, selection, r, d); }
    ReasonsArePlanned(catalog, satisfies, selection, r);
  }

  lemma SameItems(a: seq<Id>, b: seq<Id>)
    requires multiset(b) == multiset(a)
    ensures forall id :: id in b <==> id in a
  {
    forall id ensures id in b <==> id in a { assert id in b <==> id in multiset(b); assert id in a <==> id in multiset(a); }
  }

  /** The lock check accepts every resolution. */
  lemma LockCheckAccepts(catalog: Catalog, satisfies: Satisfies, selection: Selection, r: Resolution)
    requires Loaded(catalog) && Agreeable(catalog, satisfies, selection, r)
    ensures GraphChecks.LockGraphValid(r.order, LockEdges(r.dependencies), Selected(selection))
  {
    hide Agreeable, Closure, Inside, Acyclic, ReachedFrom, Loaded, ExactDependencies, LockEdges, Sorted, Unique;
    Parts(catalog, satisfies, selection, r);
    var closure, edges := Closure(catalog, Explicit(selection)), LockEdges(r.dependencies);
    OrderIsClosure(catalog, satisfies, selection, r);
    EdgesAreDistinct(catalog, closure, r.dependencies);
    LockEdgesAreInside(catalog, closure, r.dependencies);
    assert Within(Inside(catalog, closure), closure) by {
      forall e | e in Inside(catalog, closure) ensures e.source in closure && e.target in closure { InsideEdge(catalog, closure, e); }
    }
    assert Within(Flipped(Inside(catalog, closure)), closure);
    OrderedIsAcyclic(closure, Flipped(Inside(catalog, closure)), r.order);
    FlippedIsAcyclic(Inside(catalog, closure));
    forall e | e in edges
      ensures e.source in r.order && e.target in r.order && e.source != e.target
    {
      assert e in EdgeSet(edges);
      NoLoop(Inside(catalog, closure), e);
    }
    assert {"core"} + Selected(selection) == Explicit(selection);
    ReachedInside(catalog, Explicit(selection), EdgeSet(edges));
  }

  lemma NoLoop(edges: set<Edge>, e: Edge)
    requires Acyclic(edges) && e in edges
    ensures e.source != e.target
  {
    if e.source == e.target {
      var w := [e.source, e.target];
      assert Edge(w[0], w[1]) in edges;
      assert Cycle(edges, w);
    }
  }

  lemma LockEdgesAreInside(catalog: Catalog, closure: set<Id>, dependencies: seq<Dependency>)
    requires ExactDependencies(catalog, closure, dependencies)
    ensures EdgeSet(LockEdges(dependencies)) == Inside(catalog, closure)
  {
    var edges := LockEdges(dependencies);
    forall e
      ensures e in EdgeSet(edges) <==> e in Inside(catalog, closure)
    {
      InsideEdge(catalog, closure, e);
      if e in edges {
        var i :| 0 <= i < |edges| && edges[i] == e;
        assert dependencies[i] in dependencies;
      }
      if e in Inside(catalog, closure) {
        var d: Dependency :| Declares(catalog, d) && d.consumer in closure && d.need.id in closure && e == Edge(d.consumer, d.need.id);
        var i :| 0 <= i < |dependencies| && dependencies[i] == d;
        assert edges[i] == e;
      }
    }
  }

  lemma ReachedStays(catalog: Catalog, start: set<Id>, closure: set<Id>, v: Id)
    requires start <= closure && ClosedUnder(catalog, closure) && ReachedFrom(Required(catalog), start, v)
    ensures ReachedFrom(Inside(catalog, closure), start, v)
  {
    hide ClosedUnder, Required, Inside;
    var s :| s in start && Reaches(Required(catalog), s, v);
    var w :| Walk(Required(catalog), w) && w[0] == s && w[|w| - 1] == v;
    WalkInside(catalog, closure, w);
    assert Reaches(Inside(catalog, closure), s, v);
  }

  /** Within the closure the optional edges reach nothing new. */
  lemma ReachedInside(catalog: Catalog, start: set<Id>, edges: set<Edge>)
    requires edges == Inside(catalog, Closure(catalog, start))
    ensures forall v :: ReachedFrom(edges, start, v) <==> v in Closure(catalog, start)
  {
    var closure := Closure(catalog, start);
    ClosureIsLeast(catalog, start);
    ClosureIsReached(catalog, start);
    hide Closure, ClosedUnder, Required, Inside, ReachedFrom;
    forall v | v in closure { ReachedStays(catalog, start, closure, v); }
    forall e | e in edges && e.source in closure
      ensures e.target in closure
    {
      InsideEdge(catalog, closure, e);
    }
    ClosedIsReached(edges, start, closure);
  }

  // ---------------------------------------------------------------- building a plan

  datatype Built = Planned(resolution: Resolution) | Faulty(outcome: Outcome) | RescanMissing | RescanDiffers

  /** Two sorted listings of the declarations between the same packages are the same list. */
  lemma SameListing(catalog: Catalog, a: seq<Dependency>, b: seq<Dependency>)
    requires Loaded(catalog) && Sorted(DependencyLess, a) && Sorted(DependencyLess, b) && Unique(a) && Unique(b)
    requires forall d :: d in a <==> d in b
    requires forall d | d in a :: Declares(catalog, d)
    ensures a == b
  {
    forall x, y | x in a && y in a && x != y
      ensures DependencyLess(x, y) || DependencyLess(y, x)
    {
      if !DependencyLess(x, y) && !DependencyLess(y, x) { EndsIdentify(catalog, x, y); }
    }
    SortedSame(DependencyLess, a, b);
  }

  /** `build_install_bundle` up to its first self-check: the manifests read again never disagree with the resolver. */
  method ResolveAndRescan(catalog: Catalog, satisfies: Satisfies, selection: Selection) returns (built: Built)
    requires Loaded(catalog)
    ensures !built.RescanMissing? && !built.RescanDiffers?
    ensures built.Planned? ==> Resolved(catalog, satisfies, selection, built.resolution)
    ensures built.Faulty? <==> exists fault :: Genuine(catalog, satisfies, selection, fault)
  {
    hide Genuine, Explicit, Closure, Loaded, DependencyLess, Flipped, Inside, LeastTopological, ExactReasons;
    var outcome := Resolve(catalog, satisfies, selection);
    if outcome.Err? { return Faulty(outcome); }
    var r := outcome.resolution;
    ResolvedBasics(catalog, satisfies, selection, r);
    var rescan := RescanManifests(catalog, r.order);
    if rescan.Missing? {
      NothingMissing(catalog, satisfies, selection, r, rescan.dependency);
      assert false;
      return RescanMissing;
    }
    SameListing(catalog, rescan.dependencies, r.dependencies);
    if rescan.dependencies != r.dependencies { return RescanDiffers; }
    built := Planned(r);
  }

  lemma ResolvedBasics(catalog: Catalog, satisfies: Satisfies, selection: Selection, r: Resolution)
    requires Resolved(catalog, satisfies, selection, r) && forall fault :: !Genuine(catalog, satisfies, selection, fault)
    ensures Unique(r.order) && forall id :: id in r.order <==> id in Closure(catalog, Explicit(selection))
    ensures forall id | id in r.order :: id in catalog
  {
    var start := Explicit(selection);
    assert forall id :: id in r.order <==> id in Elements(r.order);
    forall id | id in r.order
      ensures id in catalog
    {
      if id in start {
        assert !Genuine(catalog, satisfies, selection, NotInstallable(id));
      } else {
        var d := RequiredBySome(catalog, start, id);
        ClosureIsReached(catalog, start);
        assert !Genuine(catalog, satisfies, selection, MissingPackage(d));
      }
    }
  }

  lemma NothingMissing(catalog: Catalog, satisfies: Satisfies, selection: Selection, r: Resolution, d: Dependency)
    requires Resolved(catalog, satisfies, selection, r)
    ensures Declares(catalog, d) && d.consumer in r.order && d.need.required ==> d.need.id in r.order
  {
    ClosureIsLeast(catalog, Explicit(selection));
    assert Elements(r.order) == Closure(catalog, Explicit(selection));
    assert forall id :: id in r.order <==> id in Elements(r.order);
  }

  /** What the resolver returns, the plan check and the lock check both accept. */
  lemma ResolutionsAreAccepted(catalog: Catalog, satisfies: Satisfies, selection: Selection, r: Resolution)
    requires Loaded(catalog) && CoreAlone(catalog) && WellSelected(catalog, selection)
    requires Resolved(catalog, satisfies, selection, r) && forall fault :: !Genuine(catalog, satisfies, selection, fault)
    ensures forall id | id in r.order :: id in catalog && id in r.reasons
    ensures PlanValid(satisfies, PlanOf(catalog, selection, r))
    ensures GraphChecks.LockGraphValid(r.order, LockEdges(r.dependencies), Selected(selection))
  {
    hide Resolved, Genuine, Loaded, CoreAlone, WellSelected, Closure, PlanValid, GraphChecks.LockGraphValid;
    ResolvedBasics(catalog, satisfies, selection, r);
    PlanCheckAccepts(catalog, satisfies, selection, r);
    LockCheckAccepts(catalog, satisfies, selection, r);
  }
}
