/** The selection, topology and reason checks of `validate_install_plan`, and the manifest rescan. */
module PlanChecks {
  import opened Order
  import opened Graphs
  import opened Packages

  datatype SelectedPackage = SelectedPackage(id: Id, kind: string, version: string, reasons: seq<string>)

  datatype Plan = Plan(
    packages: seq<SelectedPackage>,
    platforms: seq<Id>,
    disciplines: seq<Id>,
    runtimeConfigs: seq<Id>,
    dependencies: seq<Dependency>)

  function Ids(packages: seq<SelectedPackage>): (ids: seq<Id>)
    ensures |ids| == |packages| && forall i | 0 <= i < |packages| :: ids[i] == packages[i].id
  {
    seq(|packages|, i requires 0 <= i < |packages| => packages[i].id)
  }

  function ById(packages: seq<SelectedPackage>): map<Id, SelectedPackage> {
    if packages == [] then map[]
    else ById(packages[..|packages| - 1])[packages[|packages| - 1].id := packages[|packages| - 1]]
  }

  function Positions(ids: seq<Id>): map<Id, nat> {
    if ids == [] then map[]
    else Positions(ids[..|ids| - 1])[ids[|ids| - 1] := |ids| - 1]
  }

  lemma {:induction false} ByIdFinds(packages: seq<SelectedPackage>)
    requires Unique(Ids(packages))
    ensures forall i | 0 <= i < |packages| :: packages[i].id in ById(packages) && ById(packages)[packages[i].id] == packages[i]
    ensures forall id | id in ById(packages) :: id in Ids(packages)
  {
    if packages != [] {
      var front := packages[..|packages| - 1];
      assert Ids(packages) == Ids(front) + [packages[|packages| - 1].id];
      UniqueFront(Ids(front), packages[|packages| - 1].id);
      ByIdFinds(front);
      forall i | 0 <= i < |front|
        ensures packages[i].id != packages[|packages| - 1].id
      {
        assert Ids(front)[i] in Ids(front);
      }
    }
  }

  lemma {:induction false} PositionsFind(ids: seq<Id>)
    requires Unique(ids)
    ensures forall i | 0 <= i < |ids| :: ids[i] in Positions(ids) && Positions(ids)[ids[i]] == i
    ensures forall id | id in Positions(ids) :: id in ids
  {
    if ids != [] {
      PositionsFind(ids[..|ids| - 1]);
      assert ids == ids[..|ids| - 1] + [ids[|ids| - 1]];
      UniqueFront(ids[..|ids| - 1], ids[|ids| - 1]);
    }
  }

  // ---------------------------------------------------------------- what the plan check demands

  const KINDS := {"core", "platform", "stack", "discipline", "adapter", "runtime-config"}

  ghost predicate PackagesFine(packages: seq<SelectedPackage>) {
    && packages != [] && packages[0].id == "core"
    && packages[0].kind == "core" && packages[0].reasons == ["core"]
    && forall p | p in packages :: p.kind in PREFERENCE && p.reasons != [] && "" !in p.reasons && Unique(p.reasons)
  }

  lemma KindsAreListed(kind: string)
    ensures kind in KINDS <==> kind in PREFERENCE
  {
    var p := PREFERENCE;
    assert p[0] == "core" && p[1] == "discipline" && p[2] == "platform" && p[3] == "stack" && p[4] == "adapter" &&
           p[5] == "runtime-config";
  }

  /** The packages that give `prefix` as a reason are the selected ones, and all of that kind. */
  ghost predicate SelectionFine(packages: seq<SelectedPackage>, selected: seq<Id>, kind: string) {
    && (forall id | id in selected :: id in Ids(packages))
    && forall p | p in packages ::
         && (kind + ":" + p.id in p.reasons <==> p.id in selected)
         && (p.id in selected ==> p.kind == kind)
  }

  /** The provider stands before its consumer and has a fitting version. */
  ghost predicate DependencyFine(satisfies: Satisfies, packages: seq<SelectedPackage>, d: Dependency) {
    exists i, j :: 0 <= i < j < |packages| && packages[i].id == d.need.id && packages[j].id == d.consumer
                   && satisfies(packages[i].version, d.need.version)
  }

  ghost predicate EdgesDiffer(dependencies: seq<Dependency>) {
    forall i, j | 0 <= i < j < |dependencies| ::
      dependencies[i].consumer != dependencies[j].consumer || dependencies[i].need.id != dependencies[j].need.id
  }

  ghost predicate ReasonAllowed(dependencies: seq<Dependency>, id: Id, reason: string) {
    || reason == "platform:" + id || reason == "discipline:" + id || reason == "runtime-config:" + id
    || exists d: Dependency :: d in dependencies && d.need.required && d.need.id == id && reason == "dependency:" + d.consumer
  }

  ghost predicate ReasonsFine(packages: seq<SelectedPackage>, dependencies: seq<Dependency>) {
    && (forall k, r | 1 <= k < |packages| && r in packages[k].reasons :: ReasonAllowed(dependencies, packages[k].id, r))
    && forall d, p | d in dependencies && d.need.required && p in packages && p.id == d.need.id ::
         "dependency:" + d.consumer in p.reasons
  }

  ghost predicate PlanValid(satisfies: Satisfies, plan: Plan) {
    && PackagesFine(plan.packages)
    && SelectionFine(plan.packages, plan.platforms, "platform")
    && SelectionFine(plan.packages, plan.disciplines, "discipline")
    && SelectionFine(plan.packages, plan.runtimeConfigs, "runtime-config")
    && EdgesDiffer(plan.dependencies)
    && (forall d | d in plan.dependencies :: DependencyFine(satisfies, plan.packages, d))
    && ReasonsFine(plan.packages, plan.dependencies)
  }

  // ---------------------------------------------------------------- the checks

  /** The ids of the packages that give the selection of this kind as a reason. */
  function Explained(packages: seq<SelectedPackage>, kind: string): set<Id> {
    set p | p in packages && kind + ":" + p.id in p.reasons :: p.id
  }

  method CheckSelection(packages: seq<SelectedPackage>, selected: seq<Id>, kind: string) returns (accepted: bool)
    requires Unique(Ids(packages))
    ensures accepted <==> SelectionFine(packages, selected, kind)
  {
    var metadata := ById(packages);
    ByIdFinds(packages);
    PackagesById(packages);
    var explained := Explained(packages, kind);
    if explained != Elements(selected) {
      if SelectionFine(packages, selected, kind) { ExplainedIsSelected(packages, selected, kind); }
      return false;
    }
    accepted := forall id | id in explained :: metadata[id].kind == kind;
    if accepted {
      forall p | p in packages
        ensures (kind + ":" + p.id in p.reasons <==> p.id in selected) && (p.id in selected ==> p.kind == kind)
      {
        ExplainedOnce(packages, kind, p);
        assert p.id in Elements(selected) <==> p.id in selected;
      }
      forall id | id in selected
        ensures id in Ids(packages)
      {
        assert id in explained;
        var p :| p in packages && p.id == id;
      }
    } else {
      var id :| id in explained && metadata[id].kind != kind;
      var p :| p in packages && kind + ":" + p.id in p.reasons && p.id == id;
      assert metadata[id] == p;
    }
  }

  lemma PackagesById(packages: seq<SelectedPackage>)
    requires Unique(Ids(packages))
    ensures forall p | p in packages :: p.id in ById(packages) && ById(packages)[p.id] == p && p.id in Ids(packages)
  {
    ByIdFinds(packages);
    forall p | p in packages
      ensures p.id in ById(packages) && ById(packages)[p.id] == p && p.id in Ids(packages)
    {
      var i :| 0 <= i < |packages| && packages[i] == p;
      assert Ids(packages)[i] == p.id;
    }
  }

  lemma ExplainedOnce(packages: seq<SelectedPackage>, kind: string, p: SelectedPackage)
    requires Unique(Ids(packages)) && p in packages
    ensures p.id in Explained(packages, kind) <==> kind + ":" + p.id in p.reasons
  {
    PackagesById(packages);
  }

  lemma ExplainedIsSelected(packages: seq<SelectedPackage>, selected: seq<Id>, kind: string)
    requires Unique(Ids(packages)) && SelectionFine(packages, selected, kind)
    ensures Explained(packages, kind) == Elements(selected)
  {
    forall id | id in selected
      ensures id in Explained(packages, kind)
    {
      var i :| 0 <= i < |packages| && Ids(packages)[i] == id;
      assert packages[i] in packages;
    }
  }

  function EndsOf(dependencies: seq<Dependency>): set<Edge> {
    set d | d in dependencies :: Edge(d.consumer, d.need.id)
  }

  function RequiredEnds(dependencies: seq<Dependency>): set<Edge> {
    set d | d in dependencies && d.need.required :: Edge(d.consumer, d.need.id)
  }

  lemma EndsGrow(dependencies: seq<Dependency>, k: nat)
    requires k < |dependencies|
    ensures var d := dependencies[k];
            && EndsOf(dependencies[..k + 1]) == EndsOf(dependencies[..k]) + {Edge(d.consumer, d.need.id)}
            && RequiredEnds(dependencies[..k + 1]) ==
               RequiredEnds(dependencies[..k]) + if d.need.required then {Edge(d.consumer, d.need.id)} else {}
    ensures EdgesDiffer(dependencies[..k + 1]) <==>
            EdgesDiffer(dependencies[..k]) && Edge(dependencies[k].consumer, dependencies[k].need.id) !in EndsOf(dependencies[..k])
  {
    var front, d := dependencies[..k], dependencies[k];
    assert dependencies[..k + 1] == front + [d];
    if EdgesDiffer(front + [d]) {
      forall i | 0 <= i < k
        ensures front[i].consumer != d.consumer || front[i].need.id != d.need.id
      {
        assert (front + [d])[i] == front[i] && (front + [d])[k] == d;
      }
      forall i, j | 0 <= i < j < |front|
        ensures front[i].consumer != front[j].consumer || front[i].need.id != front[j].need.id
      {
        assert (front + [d])[i] == front[i] && (front + [d])[j] == front[j];
      }
    }
  }

  lemma EdgesDifferPrefix(dependencies: seq<Dependency>, k: nat)
    requires k <= |dependencies| && EdgesDiffer(dependencies)
    ensures EdgesDiffer(dependencies[..k])
  {
  }

  /** The checks on one dependency, through the package positions. */
  lemma DependencyByPosition(satisfies: Satisfies, packages: seq<SelectedPackage>, d: Dependency)
    requires Unique(Ids(packages))
    ensures var positions := Positions(Ids(packages));
            DependencyFine(satisfies, packages, d) <==>
            && d.consumer in Ids(packages) && d.need.id in Ids(packages) && d.need.id in positions && d.consumer in positions
            && d.need.id in ById(packages) && positions[d.need.id] < positions[d.consumer]
            && satisfies(ById(packages)[d.need.id].version, d.need.version)
  {
    var ids, positions := Ids(packages), Positions(Ids(packages));
    PositionsFind(ids);
    ByIdFinds(packages);
    if d.consumer in ids && d.need.id in ids {
      var i :| 0 <= i < |ids| && ids[i] == d.need.id;
      var j :| 0 <= j < |ids| && ids[j] == d.consumer;
      assert packages[i].id == d.need.id && packages[j].id == d.consumer;
      assert positions[ids[i]] == i && positions[ids[j]] == j;
    }
    if DependencyFine(satisfies, packages, d) {
      var i, j :| 0 <= i < j < |packages| && packages[i].id == d.need.id && packages[j].id == d.consumer
                  && satisfies(packages[i].version, d.need.version);
      assert ids[i] in ids && ids[j] in ids;
    }
  }

  lemma KnownPosition(packages: seq<SelectedPackage>, id: Id)
    requires Unique(Ids(packages)) && id in Ids(packages)
    ensures id in Positions(Ids(packages)) && id in ById(packages)
  {
    PositionsFind(Ids(packages));
    ByIdFinds(packages);
    var i :| 0 <= i < |packages| && Ids(packages)[i] == id;
  }

  method CheckDependencies(satisfies: Satisfies, packages: seq<SelectedPackage>, dependencies: seq<Dependency>)
    returns (accepted: bool, required: set<Edge>)
    requires Unique(Ids(packages))
    ensures accepted <==> EdgesDiffer(dependencies) && forall d | d in dependencies :: DependencyFine(satisfies, packages, d)
    ensures accepted ==> required == RequiredEnds(dependencies)
  {
    hide EdgesDiffer, DependencyFine, Positions, ById, Unique, Ids;
    var ids := Ids(packages);
    var positions, metadata := Positions(ids), ById(packages);
    var edges: set<Edge> := {};
    required := {};
    assert EdgesDiffer(dependencies[..0]) by { NoneDiffer(dependencies); }
    for k := 0 to |dependencies|
      invariant edges == EndsOf(dependencies[..k]) && required == RequiredEnds(dependencies[..k])
      invariant EdgesDiffer(dependencies[..k])
      invariant forall i | 0 <= i < k :: DependencyFine(satisfies, packages, dependencies[i])
    {
      var d := dependencies[k];
      assert d in dependencies;
      DependencyByPosition(satisfies, packages, d);
      if d.consumer !in ids || d.need.id !in ids || d.consumer == d.need.id { return false, required; }
      KnownPosition(packages, d.consumer);
      KnownPosition(packages, d.need.id);
      EndsGrow(dependencies, k);
      var edge := Edge(d.consumer, d.need.id);
      if edge in edges {
        if EdgesDiffer(dependencies) { EdgesDifferPrefix(dependencies, k + 1); }
        return false, required;
      }
      edges := edges + {edge};
      if positions[d.need.id] >= positions[d.consumer] { return false, required; }
      if !satisfies(metadata[d.need.id].version, d.need.version) { return false, required; }
      if d.need.required { required := required + {edge}; }
    }
    assert dependencies[..|dependencies|] == dependencies;
    accepted := true;
  }

  lemma NoneDiffer(dependencies: seq<Dependency>)
    ensures EdgesDiffer(dependencies[..0])
  {
  }

  /** Every reason is backed, and every required dependency is given as a reason. */
  method CheckReasons(packages: seq<SelectedPackage>, ghost dependencies: seq<Dependency>, required: set<Edge>) returns (accepted: bool)
    requires packages != [] && Unique(Ids(packages)) && required == RequiredEnds(dependencies)
    requires forall e | e in required :: e.target in Ids(packages)
    ensures accepted <==> ReasonsFine(packages, dependencies)
  {
    var metadata := ById(packages);
    hide ById;
    for k := 1 to |packages|
      invariant forall i, r | 1 <= i < k && r in packages[i].reasons :: ReasonAllowed(dependencies, packages[i].id, r)
    {
      var item := packages[k];
      var allowed := {"platform:" + item.id, "discipline:" + item.id, "runtime-config:" + item.id}
                     + set e | e in required && e.target == item.id :: "dependency:" + e.source;
      forall r
        ensures r in allowed <==> ReasonAllowed(dependencies, item.id, r)
      {
        AllowedByEdges(dependencies, item.id, r);
      }
      hide ReasonAllowed;
      if exists r | r in item.reasons :: r !in allowed { return false; }
    }
    forall e | e in required { KnownPosition(packages, e.target); }
    PackagesById(packages);
    accepted := forall e | e in required :: "dependency:" + e.source in metadata[e.target].reasons;
    if accepted {
      forall d, p | d in dependencies && d.need.required && p in packages && p.id == d.need.id
        ensures "dependency:" + d.consumer in p.reasons
      {
        assert Edge(d.consumer, d.need.id) in required;
      }
    } else {
      var e :| e in required && "dependency:" + e.source !in metadata[e.target].reasons;
      MissingReason(packages, dependencies, e);
    }
  }

  lemma AllowedByEdges(dependencies: seq<Dependency>, id: Id, r: string)
    ensures ReasonAllowed(dependencies, id, r) <==>
            r == "platform:" + id || r == "discipline:" + id || r == "runtime-config:" + id
            || exists e :: e in RequiredEnds(dependencies) && e.target == id && r == "dependency:" + e.source
  {
    if exists d: Dependency :: d in dependencies && d.need.required && d.need.id == id && r == "dependency:" + d.consumer {
      var d: Dependency :| d in dependencies && d.need.required && d.need.id == id && r == "dependency:" + d.consumer;
      assert Edge(d.consumer, id) in RequiredEnds(dependencies);
    }
  }

  lemma MissingReason(packages: seq<SelectedPackage>, dependencies: seq<Dependency>, e: Edge)
    requires Unique(Ids(packages)) && e in RequiredEnds(dependencies) && e.target in Ids(packages) && e.target in ById(packages)
    requires "dependency:" + e.source !in ById(packages)[e.target].reasons
    ensures !ReasonsFine(packages, dependencies)
  {
    PackagesById(packages);
    var d: Dependency :| d in dependencies && d.need.required && e == Edge(d.consumer, d.need.id);
    var i :| 0 <= i < |packages| && Ids(packages)[i] == e.target;
    assert packages[i] in packages && packages[i].id == d.need.id;
  }

  predicate PackageFine(p: SelectedPackage) {
    p.kind in KINDS && p.reasons != [] && "" !in p.reasons && forall i, j | 0 <= i < j < |p.reasons| :: p.reasons[i] != p.reasons[j]
  }

  /** The selection, topology and reason part of `validate_install_plan`. */
  method ValidatePlan(satisfies: Satisfies, plan: Plan) returns (accepted: bool)
    requires Unique(Ids(plan.packages))
    ensures accepted <==> PlanValid(satisfies, plan)
  {
    hide EdgesDiffer, DependencyFine, ReasonsFine, SelectionFine, ById, Ids;
    var packages := plan.packages;
    forall kind { KindsAreListed(kind); }
    hide KINDS, PREFERENCE;
    if packages == [] || packages[0].id != "core" { return false; }
    if exists p | p in packages :: !PackageFine(p) { return false; }
    if packages[0].kind != "core" || packages[0].reasons != ["core"] { return false; }
    assert PackagesFine(packages);
    hide PackagesFine;
    var fine := CheckSelection(packages, plan.platforms, "platform");
    if !fine { return false; }
    fine := CheckSelection(packages, plan.disciplines, "discipline");
    if !fine { return false; }
    fine := CheckSelection(packages, plan.runtimeConfigs, "runtime-config");
    if !fine { return false; }
    var required;
    fine, required := CheckDependencies(satisfies, packages, plan.dependencies);
    if !fine { return false; }
    RequiredIsKnown(satisfies, packages, plan.dependencies);
    accepted := CheckReasons(packages, plan.dependencies, required);
  }

  lemma RequiredIsKnown(satisfies: Satisfies, packages: seq<SelectedPackage>, dependencies: seq<Dependency>)
    requires forall d | d in dependencies :: DependencyFine(satisfies, packages, d)
    ensures forall e | e in RequiredEnds(dependencies) :: e.target in Ids(packages)
  {
    forall e | e in RequiredEnds(dependencies)
      ensures e.target in Ids(packages)
    {
      var d: Dependency :| d in dependencies && d.need.required && e == Edge(d.consumer, d.need.id);
      assert DependencyFine(satisfies, packages, d);
      var i, j :| 0 <= i < j < |packages| && packages[i].id == d.need.id && packages[j].id == d.consumer
                  && satisfies(packages[i].version, d.need.version);
      assert Ids(packages)[i] == e.target;
    }
  }

  // ---------------------------------------------------------------- the manifest rescan

  datatype Rescan = Found(dependencies: seq<Dependency>) | Missing(dependency: Dependency)

  /** The dependencies as `_derive_install_semantics` reads them again from the manifests of the ordered packages. */
  method RescanManifests(catalog: Catalog, packages: seq<Id>) returns (rescan: Rescan)
    requires Loaded(catalog) && Unique(packages) && forall id | id in packages :: id in catalog
    ensures rescan.Missing? ==> Declares(catalog, rescan.dependency) && rescan.dependency.consumer in packages
                                && rescan.dependency.need.required && rescan.dependency.need.id !in packages
    ensures rescan.Found? ==>
              && Sorted(DependencyLess, rescan.dependencies) && Unique(rescan.dependencies)
              && forall d: Dependency :: d in rescan.dependencies <==> Declares(catalog, d) && d.consumer in packages && d.need.id in packages
  {
    hide DependencyLess, StringLess, NamedOnce;
    var dependencies: seq<Dependency> := [];
    for k := 0 to |packages|
      invariant Scanned(catalog, packages, packages[..k], dependencies)
    {
      hide Scanned, ScannedPartly;
      var id := packages[k];
      var needs := catalog[id].needs;
      ScanBegins(catalog, packages, k, dependencies);
      for n := 0 to |needs|
        invariant ScannedPartly(catalog, packages, packages[..k], id, n, dependencies)
      {
        var need := needs[n];
        if !need.required && need.id !in packages {
          ScanSkip(catalog, packages, packages[..k], id, n, dependencies);
          continue;
        }
        if need.id !in packages {
          assert Declares(catalog, Dependency(id, need));
          return Missing(Dependency(id, need));
        }
        ScanTake(catalog, packages, packages[..k], id, n, dependencies);
        dependencies := dependencies + [Dependency(id, need)];
      }
      ScanEnds(catalog, packages, k, dependencies);
    }
    assert packages[..|packages|] == packages;
    DependenciesAreOrdered();
    SortSorted(DependencyLess, dependencies);
    SortMembers(DependencyLess, dependencies);
    UniqueByMultiset(dependencies, Sort(DependencyLess, dependencies));
    rescan := Found(Sort(DependencyLess, dependencies));
  }

  ghost predicate Scanned(catalog: Catalog, packages: seq<Id>, seen: seq<Id>, dependencies: seq<Dependency>) {
    && Unique(dependencies)
    && forall d: Dependency :: d in dependencies <==> Declares(catalog, d) && d.consumer in seen && d.need.id in packages
  }

  ghost predicate ScannedPartly(catalog: Catalog, packages: seq<Id>, seen: seq<Id>, id: Id, n: nat, dependencies: seq<Dependency>)
    requires id in catalog
  {
    && n <= |catalog[id].needs| && id !in seen && Unique(dependencies)
    && forall d: Dependency :: d in dependencies <==>
         d.need.id in packages && ((Declares(catalog, d) && d.consumer in seen) || (d.consumer == id && d.need in catalog[id].needs[..n]))
  }

  lemma ScanBegins(catalog: Catalog, packages: seq<Id>, k: nat, dependencies: seq<Dependency>)
    requires k < |packages| && Unique(packages) && packages[k] in catalog && Scanned(catalog, packages, packages[..k], dependencies)
    ensures ScannedPartly(catalog, packages, packages[..k], packages[k], 0, dependencies)
  {
  }

  lemma ScanSkip(catalog: Catalog, packages: seq<Id>, seen: seq<Id>, id: Id, n: nat, dependencies: seq<Dependency>)
    requires id in catalog && ScannedPartly(catalog, packages, seen, id, n, dependencies)
    requires n < |catalog[id].needs| && catalog[id].needs[n].id !in packages
    ensures ScannedPartly(catalog, packages, seen, id, n + 1, dependencies)
  {
    var needs := catalog[id].needs;
    assert needs[..n + 1] == needs[..n] + [needs[n]];
  }

  lemma ScanTake(catalog: Catalog, packages: seq<Id>, seen: seq<Id>, id: Id, n: nat, dependencies: seq<Dependency>)
    requires Loaded(catalog) && id in catalog && ScannedPartly(catalog, packages, seen, id, n, dependencies)
    requires n < |catalog[id].needs| && catalog[id].needs[n].id in packages
    ensures ScannedPartly(catalog, packages, seen, id, n + 1, dependencies + [Dependency(id, catalog[id].needs[n])])
  {
    var needs := catalog[id].needs;
    assert NamedOnce(needs);
    assert needs[..n + 1] == needs[..n] + [needs[n]];
    assert needs[n] !in needs[..n];
    assert Dependency(id, needs[n]) !in dependencies;
  }

  lemma ScanEnds(catalog: Catalog, packages: seq<Id>, k: nat, dependencies: seq<Dependency>)
    requires k < |packages| && packages[k] in catalog
    requires ScannedPartly(catalog, packages, packages[..k], packages[k], |catalog[packages[k]].needs|, dependencies)
    ensures Scanned(catalog, packages, packages[..k + 1], dependencies)
  {
    var needs := catalog[packages[k]].needs;
    assert needs[..|needs|] == needs;
    assert packages[..k + 1] == packages[..k] + [packages[k]];
  }
}
