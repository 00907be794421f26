/** Package manifests, selections, and the closure a selection spans. */
module Packages {
  import opened Wrappers
  import opened Order
  import opened Graphs

  datatype Requirement = Requirement(id: Id, required: bool, version: string, capabilities: seq<string>)
  datatype Manifest = Manifest(kind: string, version: string, needs: seq<Requirement>)
  type Catalog = map<Id, Manifest>

  /** Whether a version meets a version range: one predicate, shared by the resolver and both validators. */
  type Satisfies = (string, string) -> bool

  /** A manifest names each package it needs once; loading the catalogue rejects any other. */
  ghost predicate Loaded(catalog: Catalog) {
    forall id | id in catalog :: NamedOnce(catalog[id].needs)
  }

  ghost predicate NamedOnce(needs: seq<Requirement>) {
    forall i, j | 0 <= i < j < |needs| :: needs[i].id != needs[j].id
  }

  datatype Selection = Selection(platforms: seq<Id>, disciplines: seq<Id>, runtimeConfigs: seq<Id>)

  function Explicit(selection: Selection): set<Id> {
    {"core"} + Elements(selection.platforms) + Elements(selection.disciplines) + Elements(selection.runtimeConfigs)
  }

  datatype Dependency = Dependency(consumer: Id, need: Requirement)

  ghost predicate Declares(catalog: Catalog, d: Dependency) {
    d.consumer in catalog && d.need in catalog[d.consumer].needs
  }

  // ---------------------------------------------------------------- the closure

  /** Edges from each package to the packages it cannot do without. */
  ghost function Required(catalog: Catalog): set<Edge> {
    set id, need | id in catalog && need in catalog[id].needs && need.required :: Edge(id, need.id)
  }

  /** What is reached from the selection along required edges. */
  ghost function Closure(catalog: Catalog, start: set<Id>): set<Id> {
    set v | v in start + (set e | e in Required(catalog) :: e.target) && ReachedFrom(Required(catalog), start, v)
  }

  ghost predicate ClosedUnder(catalog: Catalog, s: set<Id>) {
    forall d: Dependency | Declares(catalog, d) && d.need.required && d.consumer in s :: d.need.id in s
  }

  lemma RequiredEdge(catalog: Catalog, e: Edge)
    ensures e in Required(catalog) <==>
            exists d: Dependency :: Declares(catalog, d) && d.need.required && e == Edge(d.consumer, d.need.id)
  {
    if e in Required(catalog) {
      var id, need :| id in catalog && need in catalog[id].needs && need.required && e == Edge(id, need.id);
      assert Declares(catalog, Dependency(id, need));
    }
  }

  lemma ClosureIsReached(catalog: Catalog, start: set<Id>)
    ensures forall v :: v in Closure(catalog, start) <==> ReachedFrom(Required(catalog), start, v)
  {
    forall v | ReachedFrom(Required(catalog), start, v)
      ensures v in Closure(catalog, start)
    {
      var s :| s in start && Reaches(Required(catalog), s, v);
      var w :| Walk(Required(catalog), w) && w[0] == s && w[|w| - 1] == v;
      if |w| > 1 {
        assert Edge(w[|w| - 2], w[|w| - 2 + 1]) in Required(catalog);
      }
    }
  }

  /** The closure is the least set that holds the selection and is closed under required dependencies. */
  lemma ClosureIsLeast(catalog: Catalog, start: set<Id>)
    ensures start <= Closure(catalog, start) && ClosedUnder(catalog, Closure(catalog, start))
    ensures forall s | start <= s && ClosedUnder(catalog, s) :: Closure(catalog, start) <= s
  {
    var edges := Required(catalog);
    ClosureIsReached(catalog, start);
    forall s | s in start { StartIsReached(edges, start, s); }
    forall d: Dependency | Declares(catalog, d) && d.need.required && d.consumer in Closure(catalog, start)
      ensures d.need.id in Closure(catalog, start)
    {
      RequiredEdge(catalog, Edge(d.consumer, d.need.id));
      OneStepMore(edges, start, d.consumer, d.need.id);
    }
    forall s, v | start <= s && ClosedUnder(catalog, s) && v in Closure(catalog, start)
      ensures v in s
    {
      StaysInside(catalog, start, s, v);
    }
  }

  lemma StaysInside(catalog: Catalog, start: set<Id>, s: set<Id>, v: Id)
    requires start <= s && ClosedUnder(catalog, s) && ReachedFrom(Required(catalog), start, v)
    ensures v in s
  {
    var edges := Required(catalog);
    var a :| a in start && Reaches(edges, a, v);
    var w :| Walk(edges, w) && w[0] == a && w[|w| - 1] == v;
    forall e | e in edges && e.source in s
      ensures e.target in s
    {
      RequiredEdge(catalog, e);
    }
    ClosedHoldsWalks(edges, s, w);
  }

  /** All dependencies, required or optional, between members of a set. */
  ghost function Inside(catalog: Catalog, s: set<Id>): set<Edge> {
    set id, need | id in catalog && id in s && need in catalog[id].needs && need.id in s :: Edge(id, need.id)
  }

  lemma InsideEdge(catalog: Catalog, s: set<Id>, e: Edge)
    ensures e in Inside(catalog, s) <==>
            exists d: Dependency :: Declares(catalog, d) && d.consumer in s && d.need.id in s && e == Edge(d.consumer, d.need.id)
  {
    if e in Inside(catalog, s) {
      var id, need :| id in catalog && id in s && need in catalog[id].needs && need.id in s && e == Edge(id, need.id);
      assert Declares(catalog, Dependency(id, need));
    }
  }

  // ---------------------------------------------------------------- order keys

  function Rank(catalog: Catalog, id: Id): nat {
    if id == "core" then 0
    else if id !in catalog then 9
    else match catalog[id].kind
      case "core" => 0
      case "discipline" => 1
      case "platform" => 2
      case "stack" => 3
      case "adapter" => 4
      case "runtime-config" => 5
      case _ => 9
  }

  predicate KeyLess(catalog: Catalog, a: Id, b: Id) {
    Rank(catalog, a) < Rank(catalog, b) || (Rank(catalog, a) == Rank(catalog, b) && StringLess(a, b))
  }

  /** The kinds in the order in which their packages are preferred; anything else comes last. */
  const PREFERENCE: seq<string> := ["core", "discipline", "platform", "stack", "adapter", "runtime-config"]

  /** `core` counts as of the core kind whatever its manifest says. */
  ghost function PreferredKind(catalog: Catalog, id: Id): string
    requires id in catalog
  {
    if id == "core" then "core" else catalog[id].kind
  }

  /** The one kind is listed and the other is listed later or not at all. */
  ghost predicate KindBefore(a: string, b: string) {
    exists i :: 0 <= i < |PREFERENCE| && PREFERENCE[i] == a && forall j | 0 <= j <= i :: PREFERENCE[j] != b
  }

  /** The order of packages: by kind and, within a kind, by id. */
  lemma KeyOrderIsByKind(catalog: Catalog, a: Id, b: Id)
    requires a in catalog && b in catalog
    ensures var k, l := PreferredKind(catalog, a), PreferredKind(catalog, b);
            KeyLess(catalog, a, b) <==> KindBefore(k, l) || (!KindBefore(l, k) && StringLess(a, b))
  {
    var k, l := PreferredKind(catalog, a), PreferredKind(catalog, b);
    KindRank(k, l);
    KindRank(l, k);
    hide KindBefore, StringLess;
  }

  ghost function KindPlace(kind: string): nat {
    match kind
    case "core" => 0
    case "discipline" => 1
    case "platform" => 2
    case "stack" => 3
    case "adapter" => 4
    case "runtime-config" => 5
    case _ => 9
  }

  lemma KindRank(a: string, b: string)
    ensures KindBefore(a, b) <==> KindPlace(a) < KindPlace(b)
  {
    var p := PREFERENCE;
    assert p[0] == "core" && p[1] == "discipline" && p[2] == "platform" && p[3] == "stack" && p[4] == "adapter" &&
           p[5] == "runtime-config";
    assert forall k: string :: (forall i | 0 <= i < 6 && p[i] == k :: KindPlace(k) == i) &&
                               (KindPlace(k) < 6 ==> p[KindPlace(k)] == k);
    if KindPlace(a) < KindPlace(b) {
      var i := KindPlace(a);
      assert p[i] == a && forall j | 0 <= j <= i :: p[j] != b;
    }
  }

  function ByKey(catalog: Catalog): (Id, Id) -> bool {
    (a, b) => KeyLess(catalog, a, b)
  }

  lemma KeysAreOrdered(catalog: Catalog)
    ensures StrictTotal(ByKey(catalog)) && Consistent(ByKey(catalog))
  {
    StringsAreOrdered();
    var less := ByKey(catalog);
    forall a, b
      ensures less(a, b) || less(b, a) || a == b
    {
      assert StringLess(a, b) || StringLess(b, a) || a == b;
    }
    forall a, b, c | less(a, b) && less(b, c)
      ensures less(a, c)
    {
      assert StringLess(a, b) && StringLess(b, c) ==> StringLess(a, c);
    }
    forall a ensures !less(a, a) { assert !StringLess(a, a); }
    TotalIsConsistent(less);
  }

  // ---------------------------------------------------------------- the orders dependencies are listed in

  predicate NeedLess(a: Requirement, b: Requirement) { StringLess(a.id, b.id) }

  predicate DependencyLess(a: Dependency, b: Dependency) {
    StringLess(a.consumer, b.consumer) || (a.consumer == b.consumer && StringLess(a.need.id, b.need.id))
  }

  lemma DependenciesAreOrdered()
    ensures Consistent(DependencyLess) && Consistent(NeedLess)
  {
    StringsAreOrdered();
    TotalIsConsistent(StringLess);
    forall a, b | DependencyLess(a, b)
      ensures !DependencyLess(b, a)
    {
      assert StringLess(a.consumer, b.consumer) ==> !StringLess(b.consumer, a.consumer);
      assert StringLess(a.need.id, b.need.id) ==> !StringLess(b.need.id, a.need.id);
    }
    forall a, b, c | !DependencyLess(b, a) && !DependencyLess(c, b)
      ensures !DependencyLess(c, a)
    {
      DependencyLessChain(a, b, c);
    }
  }

  lemma DependencyLessChain(a: Dependency, b: Dependency, c: Dependency)
    requires StrictTotal(StringLess)
    requires !DependencyLess(b, a) && !DependencyLess(c, b)
    ensures !DependencyLess(c, a)
  {
    assert StringLess(a.consumer, b.consumer) || a.consumer == b.consumer;
    assert StringLess(b.consumer, c.consumer) || b.consumer == c.consumer;
    if a.consumer == b.consumer == c.consumer {
      assert StringLess(a.need.id, b.need.id) || a.need.id == b.need.id;
      assert StringLess(b.need.id, c.need.id) || b.need.id == c.need.id;
    }
  }

  /** Declared dependencies with the same two ends are the same dependency. */
  lemma EndsIdentify(catalog: Catalog, a: Dependency, b: Dependency)
    requires Loaded(catalog) && Declares(catalog, a) && Declares(catalog, b)
    requires !DependencyLess(a, b) && !DependencyLess(b, a)
    ensures a == b
  {
    StringsAreOrdered();
    assert a.consumer == b.consumer;
    assert a.need.id == b.need.id;
    var needs := catalog[a.consumer].needs;
    assert NamedOnce(needs);
    var i, j :| 0 <= i < |needs| && 0 <= j < |needs| && needs[i] == a.need && needs[j] == b.need;
    assert i == j;
  }
}
