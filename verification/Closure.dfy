/** The depth-first part of the resolver: it gathers the required closure and what each package asked for. */
module ClosureSearch {
  import opened Wrappers
  import opened Order
  import opened Graphs
  import opened Packages

  datatype Fault =
    | CoreMissing
    | DuplicateDisciplines
    | UnknownDisciplines(ids: seq<Id>)
    | DuplicateRuntimeConfigs
    | UnknownRuntimeConfigs(ids: seq<Id>)
    | NotInstallable(id: Id)
    | MissingPackage(dependency: Dependency)
    | VersionMismatch(dependency: Dependency)
    | RequiredCycle(path: seq<Id>)
    | OptionalMismatch(dependency: Dependency)
    | OptionalCycle

  // ---------------------------------------------------------------- what is recorded

  /** A package becomes wanted by its consumer. */
  function Wanted(reasons: map<Id, set<string>>, d: Dependency): map<Id, set<string>> {
    var before := if d.need.id in reasons then reasons[d.need.id] else {};
    reasons[d.need.id := before + {"dependency:" + d.consumer}]
  }

  function RequiredOf(log: seq<Dependency>): seq<Dependency> {
    if log == [] then []
    else
      var rest, d := RequiredOf(log[..|log| - 1]), log[|log| - 1];
      if d.need.required then rest + [d] else rest
  }

  function OptionalOf(log: seq<Dependency>): seq<Dependency> {
    if log == [] then []
    else
      var rest, d := OptionalOf(log[..|log| - 1]), log[|log| - 1];
      if d.need.required then rest else rest + [d]
  }

  function ReasonsOf(granted: map<Id, set<string>>, log: seq<Dependency>): map<Id, set<string>> {
    if log == [] then granted
    else
      var rest, d := ReasonsOf(granted, log[..|log| - 1]), log[|log| - 1];
      if d.need.required then Wanted(rest, d) else rest
  }

  lemma {:induction false} RequiredOfMembers(log: seq<Dependency>)
    ensures forall d :: d in RequiredOf(log) <==> d in log && d.need.required
    ensures Unique(log) ==> Unique(RequiredOf(log))
  {
    if log != [] {
      RequiredOfMembers(log[..|log| - 1]);
      assert log == log[..|log| - 1] + [log[|log| - 1]];
    }
  }

  lemma {:induction false} OptionalOfMembers(log: seq<Dependency>)
    ensures forall d :: d in OptionalOf(log) <==> d in log && !d.need.required
    ensures Unique(log) ==> Unique(OptionalOf(log))
  {
    if log != [] {
      OptionalOfMembers(log[..|log| - 1]);
      assert log == log[..|log| - 1] + [log[|log| - 1]];
    }
  }

  /** A reason is held when it was granted, or for the sake of a required dependency. */
  ghost predicate Reason(granted: map<Id, set<string>>, log: seq<Dependency>, id: Id, reason: string) {
    || (id in granted && reason in granted[id])
    || exists d: Dependency :: d in log && d.need.required && d.need.id == id && reason == "dependency:" + d.consumer
  }

  lemma {:induction false} ReasonsOfMembers(granted: map<Id, set<string>>, log: seq<Dependency>)
    ensures forall id :: id in ReasonsOf(granted, log) <==> id in granted || exists d: Dependency :: d in log && d.need.required && d.need.id == id
    ensures forall id, reason | id in ReasonsOf(granted, log) ::
              reason in ReasonsOf(granted, log)[id] <==> Reason(granted, log, id, reason)
  {
    if log != [] {
      var front, d := log[..|log| - 1], log[|log| - 1];
      ReasonsOfMembers(granted, front);
      assert log == front + [d];
      forall id
        ensures id in ReasonsOf(granted, log) <==> id in granted || exists e: Dependency :: e in log && e.need.required && e.need.id == id
      {
        if d.need.required && d.need.id == id { assert d in log; }
      }
      forall id, reason | id in ReasonsOf(granted, log)
        ensures reason in ReasonsOf(granted, log)[id] <==> Reason(granted, log, id, reason)
      {
        ReasonGrows(granted, front, d, id, reason);
      }
    }
  }

  lemma ReasonGrows(granted: map<Id, set<string>>, log: seq<Dependency>, d: Dependency, id: Id, reason: string)
    ensures Reason(granted, log + [d], id, reason) <==>
            Reason(granted, log, id, reason) || (d.need.required && d.need.id == id && reason == "dependency:" + d.consumer)
  {
    if exists e: Dependency :: e in log && e.need.required && e.need.id == id && reason == "dependency:" + e.consumer {
      var e: Dependency :| e in log && e.need.required && e.need.id == id && reason == "dependency:" + e.consumer;
      assert e in log + [d];
    }
    if d.need.required && d.need.id == id && reason == "dependency:" + d.consumer {
      assert d in log + [d];
    }
  }

  /** Exactly the declarations of `nodes` have been recorded, each once. */
  ghost predicate Covers(catalog: Catalog, nodes: set<Id>, log: seq<Dependency>) {
    Unique(log) && forall d :: d in log <==> Declares(catalog, d) && d.consumer in nodes
  }

  /** The same, and in addition the first `k` needs of the package under way. */
  ghost predicate CoversPartly(catalog: Catalog, nodes: set<Id>, id: Id, needs: seq<Requirement>, k: int, log: seq<Dependency>) {
    && 0 <= k <= |needs| && Unique(log) && id !in nodes
    && forall d: Dependency :: d in log <==>
         (Declares(catalog, d) && d.consumer in nodes) || (d.consumer == id && d.need in needs[..k])
  }

  lemma CoverOne(catalog: Catalog, nodes: set<Id>, id: Id, needs: seq<Requirement>, k: nat, log: seq<Dependency>)
    requires CoversPartly(catalog, nodes, id, needs, k, log) && k < |needs| && Unique(needs)
    ensures CoversPartly(catalog, nodes, id, needs, k + 1, log + [Dependency(id, needs[k])])
  {
    var d := Dependency(id, needs[k]);
    assert needs[..k + 1] == needs[..k] + [needs[k]];
    assert needs[k] !in needs[..k];
    assert d !in log;
  }

  lemma CoverChild(catalog: Catalog, nodes: set<Id>, id: Id, needs: seq<Requirement>, k: nat, log: seq<Dependency>,
                   child: set<Id>, more: seq<Dependency>)
    requires CoversPartly(catalog, nodes, id, needs, k, log) && Covers(catalog, child, more)
    requires child !! nodes && id !in child
    ensures CoversPartly(catalog, nodes + child, id, needs, k, log + more)
  {
    var all := log + more;
    forall i, j | 0 <= i < j < |all|
      ensures all[i] != all[j]
    {
      if i < |log| <= j {
        assert all[i] in log && all[j] in more;
      }
    }
  }

  lemma CoverAll(catalog: Catalog, nodes: set<Id>, id: Id, needs: seq<Requirement>, log: seq<Dependency>)
    requires id in catalog && (forall n :: n in needs <==> n in catalog[id].needs)
    requires CoversPartly(catalog, nodes, id, needs, |needs|, log)
    ensures Covers(catalog, nodes + {id}, log)
  {
    assert needs[..|needs|] == needs;
  }

  lemma CoverMore(catalog: Catalog, nodes: set<Id>, log: seq<Dependency>, child: set<Id>, more: seq<Dependency>)
    requires Covers(catalog, nodes, log) && Covers(catalog, child, more) && child !! nodes
    ensures Covers(catalog, nodes + child, log + more)
  {
    var all := log + more;
    forall i, j | 0 <= i < j < |all|
      ensures all[i] != all[j]
    {
      if i < |log| <= j {
        assert all[i] in log && all[j] in more;
      }
    }
  }

  // ---------------------------------------------------------------- what is finished

  /** The required needs of `id` are met by packages that finished among `before`. */
  ghost predicate Met(catalog: Catalog, satisfies: Satisfies, before: seq<Id>, id: Id) {
    && id in catalog
    && forall need | need in catalog[id].needs && need.required :: NeedMet(catalog, satisfies, before, need)
  }

  ghost predicate NeedMet(catalog: Catalog, satisfies: Satisfies, before: seq<Id>, need: Requirement) {
    need.id in before && need.id in catalog && satisfies(catalog[need.id].version, need.version)
  }

  /** Packages in the order they finished: each after all it requires. */
  ghost predicate Finished(catalog: Catalog, satisfies: Satisfies, start: set<Id>, finished: seq<Id>) {
    && Unique(finished)
    && (forall v | v in finished :: ReachedFrom(Required(catalog), start, v))
    && forall i | 0 <= i < |finished| :: Met(catalog, satisfies, finished[..i], finished[i])
  }

  lemma FinishOne(catalog: Catalog, satisfies: Satisfies, start: set<Id>, finished: seq<Id>, id: Id)
    requires Finished(catalog, satisfies, start, finished) && id !in finished
    requires Met(catalog, satisfies, finished, id) && ReachedFrom(Required(catalog), start, id)
    ensures Finished(catalog, satisfies, start, finished + [id])
  {
    hide Met, ReachedFrom;
    var all := finished + [id];
    forall i | 0 <= i < |all|
      ensures Met(catalog, satisfies, all[..i], all[i])
    {
      if i < |finished| {
        assert all[..i] == finished[..i];
        assert Met(catalog, satisfies, finished[..i], finished[i]);
      } else {
        assert all[..i] == finished;
      }
    }
  }

  /** The chain of packages under way: each requires the next. */
  ghost predicate Chain(catalog: Catalog, start: set<Id>, visiting: seq<Id>) {
    && Unique(visiting)
    && (forall v | v in visiting :: v in catalog && ReachedFrom(Required(catalog), start, v))
    && forall i | 0 <= i < |visiting| - 1 :: Edge(visiting[i], visiting[i + 1]) in Required(catalog)
  }

  ghost predicate Next(catalog: Catalog, visiting: seq<Id>, id: Id) {
    visiting != [] ==> Edge(visiting[|visiting| - 1], id) in Required(catalog)
  }

  lemma ChainGrows(catalog: Catalog, start: set<Id>, visiting: seq<Id>, id: Id)
    requires Chain(catalog, start, visiting) && Next(catalog, visiting, id) && id !in visiting
    requires id in catalog && ReachedFrom(Required(catalog), start, id)
    ensures Chain(catalog, start, visiting + [id])
  {
  }

  /** Meeting a package under way again closes a cycle. */
  lemma ChainCloses(catalog: Catalog, start: set<Id>, visiting: seq<Id>, id: Id, at: nat)
    requires Chain(catalog, start, visiting) && Next(catalog, visiting, id)
    requires at < |visiting| && visiting[at] == id
    ensures Cycle(Required(catalog), visiting[at..] + [id])
    ensures ReachedFrom(Required(catalog), start, id)
  {
    var c := visiting[at..] + [id];
    forall i | 0 <= i < |c| - 1
      ensures Edge(c[i], c[i + 1]) in Required(catalog)
    {
      if i + at < |visiting| - 1 {
        assert Edge(visiting[at + i], visiting[at + i + 1]) in Required(catalog);
      }
    }
    assert visiting[at] in visiting;
  }

  /** `visiting.index(id)`. */
  method IndexOf(visiting: seq<Id>, id: Id) returns (at: nat)
    requires id in visiting
    ensures at < |visiting| && visiting[at] == id && id !in visiting[..at]
  {
    at := 0;
    while visiting[at] != id
      invariant at < |visiting| && id !in visiting[..at]
      invariant id in visiting[at..]
      decreases |visiting| - at
    {
      assert visiting[at..] == [visiting[at]] + visiting[at + 1..];
      assert visiting[..at + 1] == visiting[..at] + [visiting[at]];
      at := at + 1;
    }
  }

  /** What a fault of the search claims about the catalogue. */
  ghost predicate SearchFault(catalog: Catalog, satisfies: Satisfies, start: set<Id>, fault: Fault) {
    match fault
    case NotInstallable(id) => id in start && id !in catalog
    case MissingPackage(d) => Pulled(catalog, start, d) && d.need.required && d.need.id !in catalog
    case VersionMismatch(d) =>
      Pulled(catalog, start, d) && d.need.required && d.need.id in catalog && !satisfies(catalog[d.need.id].version, d.need.version)
    case RequiredCycle(path) =>
      Cycle(Required(catalog), path) && ReachedFrom(Required(catalog), start, path[0])
    case _ => false
  }

  /** A declaration of a package in the closure. */
  ghost predicate Pulled(catalog: Catalog, start: set<Id>, d: Dependency) {
    Declares(catalog, d) && ReachedFrom(Required(catalog), start, d.consumer)
  }

  /** What was found stays, and what is added comes with all its declarations. */
  ghost predicate Extends(catalog: Catalog, finished: seq<Id>, log: seq<Dependency>, finished': seq<Id>, log': seq<Dependency>) {
    && finished <= finished' && log <= log'
    && Covers(catalog, Elements(finished'[|finished|..]), log'[|log|..])
  }

  /** The same while `id` is under way and its first `k` needs are done. */
  ghost predicate ExtendsPartly(catalog: Catalog, satisfies: Satisfies, id: Id, needs: seq<Requirement>, k: int,
                                finished: seq<Id>, log: seq<Dependency>, finished': seq<Id>, log': seq<Dependency>) {
    && finished <= finished' && log <= log'
    && CoversPartly(catalog, Elements(finished'[|finished|..]), id, needs, k, log'[|log|..])
    && forall need | need in needs[..k] && need.required :: NeedMet(catalog, satisfies, finished', need)
  }

  lemma PartlyBegins(catalog: Catalog, satisfies: Satisfies, id: Id, needs: seq<Requirement>, finished: seq<Id>, log: seq<Dependency>)
    ensures ExtendsPartly(catalog, satisfies, id, needs, 0, finished, log, finished, log)
  {
    assert finished[|finished|..] == [] && log[|log|..] == [] && needs[..0] == [];
  }

  /** An optional need is recorded and left for later. */
  lemma PartlyOptional(catalog: Catalog, satisfies: Satisfies, id: Id, needs: seq<Requirement>, k: nat,
                       finished: seq<Id>, log: seq<Dependency>, finished': seq<Id>, log': seq<Dependency>)
    requires ExtendsPartly(catalog, satisfies, id, needs, k, finished, log, finished', log')
    requires k < |needs| && Unique(needs) && !needs[k].required
    ensures ExtendsPartly(catalog, satisfies, id, needs, k + 1, finished, log, finished', log' + [Dependency(id, needs[k])])
  {
    hide CoversPartly, NeedMet;
    CoverOne(catalog, Elements(finished'[|finished|..]), id, needs, k, log'[|log|..]);
    assert (log' + [Dependency(id, needs[k])])[|log|..] == log'[|log|..] + [Dependency(id, needs[k])];
    assert needs[..k + 1] == needs[..k] + [needs[k]];
  }

  /** A required need is recorded and its package visited. */
  lemma PartlyRequired(catalog: Catalog, satisfies: Satisfies, id: Id, needs: seq<Requirement>, k: nat,
                       finished: seq<Id>, log: seq<Dependency>, finished': seq<Id>, log': seq<Dependency>,
                       finished'': seq<Id>, log'': seq<Dependency>)
    requires ExtendsPartly(catalog, satisfies, id, needs, k, finished, log, finished', log')
    requires k < |needs| && Unique(needs)
    requires Extends(catalog, finished', log' + [Dependency(id, needs[k])], finished'', log'')
    requires Unique(finished'') && id !in finished''
    requires NeedMet(catalog, satisfies, finished'', needs[k])
    ensures ExtendsPartly(catalog, satisfies, id, needs, k + 1, finished, log, finished'', log'')
  {
    hide CoversPartly, Covers;
    var d := Dependency(id, needs[k]);
    var first, second := finished'[|finished|..], finished''[|finished'|..];
    var early, late := log'[|log|..], log''[|log'| + 1..];
    CoverOne(catalog, Elements(first), id, needs, k, early);
    assert finished''[|finished|..] == first + second;
    assert Elements(first + second) == Elements(first) + Elements(second);
    SplitUnique(finished'', |finished|, |finished'|);
    assert log''[|log|..] == early + [d] + late by {
      assert log'' == log' + [d] + late;
    }
    assert forall v | v in second :: v in finished'';
    CoverChild(catalog, Elements(first), id, needs, k + 1, early + [d], Elements(second), late);
    assert needs[..k + 1] == needs[..k] + [needs[k]];
  }

  lemma SplitUnique(s: seq<Id>, i: nat, j: nat)
    requires Unique(s) && i <= j <= |s|
    ensures Elements(s[j..]) !! Elements(s[i..j])
  {
    forall x | x in s[j..]
      ensures x !in s[i..j]
    {
      var m :| 0 <= m < |s[j..]| && s[j..][m] == x;
      assert s[j + m] == x;
    }
  }

  /** When all needs are done the package itself finishes. */
  lemma PartlyEnds(catalog: Catalog, satisfies: Satisfies, start: set<Id>, id: Id, needs: seq<Requirement>,
                   finished: seq<Id>, log: seq<Dependency>, finished': seq<Id>, log': seq<Dependency>)
    requires ExtendsPartly(catalog, satisfies, id, needs, |needs|, finished, log, finished', log')
    requires id in catalog && (forall n :: n in needs <==> n in catalog[id].needs)
    requires Finished(catalog, satisfies, start, finished') && id !in finished'
    requires ReachedFrom(Required(catalog), start, id)
    ensures Finished(catalog, satisfies, start, finished' + [id])
    ensures Extends(catalog, finished, log, finished' + [id], log')
  {
    hide CoversPartly, Covers, ReachedFrom, NeedMet, Finished;
    assert needs[..|needs|] == needs;
    FinishOne(catalog, satisfies, start, finished', id);
    CoverAll(catalog, Elements(finished'[|finished|..]), id, needs, log'[|log|..]);
    assert (finished' + [id])[|finished|..] == finished'[|finished|..] + [id];
    assert Elements(finished'[|finished|..] + [id]) == Elements(finished'[|finished|..]) + {id};
  }

  lemma NothingAdded(catalog: Catalog, finished: seq<Id>, log: seq<Dependency>)
    ensures Extends(catalog, finished, log, finished, log)
  {
    assert finished[|finished|..] == [] && log[|log|..] == [];
  }

  lemma SortedNeeds(catalog: Catalog, id: Id)
    requires Loaded(catalog) && id in catalog
    ensures Unique(Sort(NeedLess, catalog[id].needs))
    ensures forall n :: n in Sort(NeedLess, catalog[id].needs) <==> n in catalog[id].needs
  {
    var needs := catalog[id].needs;
    assert NamedOnce(needs);
    SortMembers(NeedLess, needs);
    UniqueByMultiset(needs, Sort(NeedLess, needs));
  }

  lemma RequiredStep(catalog: Catalog, start: set<Id>, id: Id, need: Requirement)
    requires id in catalog && need in catalog[id].needs && need.required && ReachedFrom(Required(catalog), start, id)
    ensures Edge(id, need.id) in Required(catalog) && ReachedFrom(Required(catalog), start, need.id)
  {
    assert Declares(catalog, Dependency(id, need));
    RequiredEdge(catalog, Edge(id, need.id));
    OneStepMore(Required(catalog), start, id, need.id);
  }

  lemma ChainIsBounded(catalog: Catalog, start: set<Id>, visiting: seq<Id>)
    requires Chain(catalog, start, visiting)
    ensures |visiting| <= |catalog.Keys|
  {
    UniqueIsSmall(visiting, catalog.Keys);
  }

  // ---------------------------------------------------------------- the state of the search

  ghost predicate Recording(granted: map<Id, set<string>>, log: seq<Dependency>, dependencies: seq<Dependency>,
                            optionals: seq<Dependency>, reasons: map<Id, set<string>>) {
    dependencies == RequiredOf(log) && optionals == OptionalOf(log) && reasons == ReasonsOf(granted, log)
  }

  ghost predicate Progress(catalog: Catalog, satisfies: Satisfies, start: set<Id>, resolved: set<Id>,
                           visiting: seq<Id>, finished: seq<Id>) {
    && resolved == Elements(finished)
    && Finished(catalog, satisfies, start, finished)
    && Chain(catalog, start, visiting)
    && forall v | v in visiting :: v !in finished
  }

  lemma RecordOne(granted: map<Id, set<string>>, log: seq<Dependency>, dependencies: seq<Dependency>,
                  optionals: seq<Dependency>, reasons: map<Id, set<string>>, d: Dependency)
    requires Recording(granted, log, dependencies, optionals, reasons)
    ensures d.need.required ==> Recording(granted, log + [d], dependencies + [d], optionals, Wanted(reasons, d))
    ensures !d.need.required ==> Recording(granted, log + [d], dependencies, optionals + [d], reasons)
  {
    var log' := log + [d];
    assert log'[..|log'| - 1] == log;
  }

  lemma Revisited(catalog: Catalog, satisfies: Satisfies, start: set<Id>, resolved: set<Id>, visiting: seq<Id>,
                  finished: seq<Id>, id: Id, at: nat)
    requires Progress(catalog, satisfies, start, resolved, visiting, finished) && Next(catalog, visiting, id)
    requires at < |visiting| && visiting[at] == id
    ensures SearchFault(catalog, satisfies, start, RequiredCycle(visiting[at..] + [id]))
  {
    ChainCloses(catalog, start, visiting, id, at);
  }

  lemma ResolvedIsFinished(catalog: Catalog, satisfies: Satisfies, start: set<Id>, resolved: set<Id>, visiting: seq<Id>, finished: seq<Id>)
    requires Progress(catalog, satisfies, start, resolved, visiting, finished)
    ensures forall id :: id in resolved <==> id in finished
    ensures forall id | id in finished :: id in catalog
  {
    forall id | id in finished
      ensures id in catalog
    {
      var i :| 0 <= i < |finished| && finished[i] == id;
      assert Met(catalog, satisfies, finished[..i], finished[i]);
    }
  }

  lemma UnderWay(catalog: Catalog, satisfies: Satisfies, start: set<Id>, resolved: set<Id>, visiting: seq<Id>, finished: seq<Id>)
    requires Progress(catalog, satisfies, start, resolved, visiting, finished)
    ensures forall v | v in visiting :: v !in finished && v in catalog && ReachedFrom(Required(catalog), start, v)
    ensures Unique(finished) && |visiting| <= |catalog.Keys|
  {
    ChainIsBounded(catalog, start, visiting);
  }

  lemma Enters(catalog: Catalog, satisfies: Satisfies, start: set<Id>, resolved: set<Id>, visiting: seq<Id>, finished: seq<Id>, id: Id)
    requires Progress(catalog, satisfies, start, resolved, visiting, finished) && Next(catalog, visiting, id)
    requires id !in visiting && id !in resolved && id in catalog && ReachedFrom(Required(catalog), start, id)
    ensures Progress(catalog, satisfies, start, resolved, visiting + [id], finished)
    ensures |visiting| < |catalog.Keys|
  {
    ChainGrows(catalog, start, visiting, id);
    ChainIsBounded(catalog, start, visiting + [id]);
  }

  lemma Leaves(catalog: Catalog, satisfies: Satisfies, start: set<Id>, resolved: set<Id>, visiting: seq<Id>,
               finished: seq<Id>, log: seq<Dependency>, finished': seq<Id>, log': seq<Dependency>,
               id: Id, needs: seq<Requirement>)
    requires Loaded(catalog) && id in catalog && needs == Sort(NeedLess, catalog[id].needs)
    requires Progress(catalog, satisfies, start, resolved, visiting + [id], finished')
    requires ExtendsPartly(catalog, satisfies, id, needs, |needs|, finished, log, finished', log')
    ensures Progress(catalog, satisfies, start, resolved + {id}, visiting, finished' + [id])
    ensures Extends(catalog, finished, log, finished' + [id], log')
  {
    hide Finished, Chain, ExtendsPartly, Extends, Sort, Unique, ReachedFrom;
    SortedNeeds(catalog, id);
    ChainShrinks(catalog, start, visiting, id);
    assert id in visiting + [id];
    assert forall v | v in visiting :: v in visiting + [id];
    PartlyEnds(catalog, satisfies, start, id, needs, finished, log, finished', log');
    assert Elements(finished' + [id]) == Elements(finished') + {id};
  }

  lemma ChainShrinks(catalog: Catalog, start: set<Id>, visiting: seq<Id>, id: Id)
    requires Chain(catalog, start, visiting + [id])
    ensures Chain(catalog, start, visiting) && id !in visiting && id in catalog && ReachedFrom(Required(catalog), start, id)
  {
    var chain := visiting + [id];
    assert chain[|visiting|] == id && id in chain;
    assert chain[..|visiting|] == visiting;
    forall i | 0 <= i < |visiting|
      ensures visiting[i] != id && visiting[i] in chain
    {
      assert chain[i] == visiting[i];
    }
    assert Unique(visiting) by {
      assert forall i, j | 0 <= i < j < |visiting| :: visiting[i] == chain[i] && visiting[j] == chain[j] && chain[i] != chain[j];
    }
    forall i | 0 <= i < |visiting| - 1
      ensures Edge(visiting[i], visiting[i + 1]) in Required(catalog)
    {
      assert Edge(chain[i], chain[i + 1]) in Required(catalog);
    }
  }

  class Search {
    const catalog: Catalog
    const satisfies: Satisfies
    ghost const start: set<Id>
    ghost const granted: map<Id, set<string>>
    var resolved: set<Id>
    var visiting: seq<Id>
    var dependencies: seq<Dependency>
    var optionals: seq<Dependency>
    var reasons: map<Id, set<string>>
    ghost var finished: seq<Id>
    ghost var log: seq<Dependency>

    ghost predicate Valid()
      reads this
    {
      && Recording(granted, log, dependencies, optionals, reasons)
      && Progress(catalog, satisfies, start, resolved, visiting, finished)
    }

    constructor (catalog: Catalog, satisfies: Satisfies, ghost start: set<Id>, granted: map<Id, set<string>>)
      ensures Valid() && this.catalog == catalog && this.satisfies == satisfies && this.start == start && this.granted == granted
      ensures visiting == [] && finished == [] && log == []
    {
      this.catalog, this.satisfies, this.start, this.granted := catalog, satisfies, start, granted;
      resolved, visiting, dependencies, optionals, reasons := {}, [], [], [], granted;
      finished, log := [], [];
    }

    method Record(d: Dependency)
      requires Valid()
      modifies `dependencies, `optionals, `reasons, `log
      ensures Valid() && log == old(log) + [d]
    {
      hide Progress, Recording;
      RecordOne(granted, log, dependencies, optionals, reasons, d);
      if d.need.required {
        reasons := Wanted(reasons, d);
        dependencies := dependencies + [d];
      } else {
        optionals := optionals + [d];
      }
      log := log + [d];
    }

    /** On success the package and all it requires are finished; a fault is one the catalogue really has. */
    method Visit(id: Id) returns (fault: Option<Fault>)
      requires Loaded(catalog) && Valid()
      requires ReachedFrom(Required(catalog), start, id) && (id in start || id in catalog) && Next(catalog, visiting, id)
      modifies this
      ensures fault.Some? ==> SearchFault(catalog, satisfies, start, fault.value)
      ensures fault.None? ==> Valid() && visiting == old(visiting) && id in catalog && id in finished
      ensures fault.None? ==> Extends(catalog, old(finished), old(log), finished, log)
      decreases |catalog.Keys| - |visiting|, 0
    {
      hide Recording, Progress, Extends, ExtendsPartly, ReachedFrom, Required, Next, Loaded, NeedLess;
      if id in visiting {
        var at := IndexOf(visiting, id);
        Revisited(catalog, satisfies, start, resolved, visiting, finished, id, at);
        return Some(RequiredCycle(visiting[at..] + [id]));
      }
      ResolvedIsFinished(catalog, satisfies, start, resolved, visiting, finished);
      if id in resolved {
        NothingAdded(catalog, finished, log);
        return None;
      }
      if id !in catalog {
        return Some(NotInstallable(id));
      }
      Enters(catalog, satisfies, start, resolved, visiting, finished, id);
      visiting := visiting + [id];
      var needs := Sort(NeedLess, catalog[id].needs);
      fault := Follow(id, needs);
      if fault.Some? { return; }
      Leaves(catalog, satisfies, start, resolved, old(visiting), old(finished), old(log), finished, log, id, needs);
      visiting := visiting[..|visiting| - 1];
      resolved := resolved + {id};
      finished := finished + [id];
      assert visiting == old(visiting);
    }

    /** The loop over the sorted needs of the package under way. */
    method Follow(id: Id, needs: seq<Requirement>) returns (fault: Option<Fault>)
      requires Loaded(catalog) && Valid()
      requires id in catalog && needs == Sort(NeedLess, catalog[id].needs)
      requires visiting != [] && visiting[|visiting| - 1] == id
      modifies this
      ensures fault.Some? ==> SearchFault(catalog, satisfies, start, fault.value)
      ensures fault.None? ==> Valid() && visiting == old(visiting)
      ensures fault.None? ==> ExtendsPartly(catalog, satisfies, id, needs, |needs|, old(finished), old(log), finished, log)
      decreases |catalog.Keys| - |visiting|, 2
    {
      hide Recording, Progress, Extends, ExtendsPartly, ReachedFrom, Required, Loaded, NeedLess, SearchFault, Declares;
      fault := None;
      SortedNeeds(catalog, id);
      PartlyBegins(catalog, satisfies, id, needs, finished, log);
      for k := 0 to |needs|
        invariant fault.None? && Valid() && visiting == old(visiting)
        invariant ExtendsPartly(catalog, satisfies, id, needs, k, old(finished), old(log), finished, log)
      {
        assert needs[k] in needs;
        if !needs[k].required {
          PartlyOptional(catalog, satisfies, id, needs, k, old(finished), old(log), finished, log);
          Record(Dependency(id, needs[k]));
        } else {
          fault := FollowOne(id, needs, k, old(finished), old(log));
          if fault.Some? { return; }
        }
      }
    }

    /** One required need: recorded and visited. */
    method FollowOne(id: Id, needs: seq<Requirement>, k: nat, ghost finished0: seq<Id>, ghost log0: seq<Dependency>)
      returns (fault: Option<Fault>)
      requires Loaded(catalog) && Valid() && Unique(needs)
      requires k < |needs| && needs[k].required && id in catalog && needs[k] in catalog[id].needs
      requires visiting != [] && visiting[|visiting| - 1] == id
      requires ExtendsPartly(catalog, satisfies, id, needs, k, finished0, log0, finished, log)
      modifies this
      ensures fault.Some? ==> SearchFault(catalog, satisfies, start, fault.value)
      ensures fault.None? ==> Valid() && visiting == old(visiting)
      ensures fault.None? ==> ExtendsPartly(catalog, satisfies, id, needs, k + 1, finished0, log0, finished, log)
      decreases |catalog.Keys| - |visiting|, 1
    {
      hide Recording, Progress, Extends, ExtendsPartly, ReachedFrom, Required, Loaded;
      UnderWay(catalog, satisfies, start, resolved, visiting, finished);
      var need := needs[k];
      var d := Dependency(id, need);
      assert Declares(catalog, d);
      if need.id !in catalog { return Some(MissingPackage(d)); }
      if !satisfies(catalog[need.id].version, need.version) { return Some(VersionMismatch(d)); }
      RequiredStep(catalog, start, id, need);
      ghost var finished', log' := finished, log;
      Record(d);
      fault := Visit(need.id);
      if fault.Some? { return; }
      UnderWay(catalog, satisfies, start, resolved, visiting, finished);
      PartlyRequired(catalog, satisfies, id, needs, k, finished0, log0, finished', log', finished, log);
    }
  }
}
