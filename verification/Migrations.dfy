/** Migrating a document along a path, and the check of the report. */
module Migrations {
  import opened Wrappers
  import opened Order
  import opened MigrationPaths

  datatype Step = Step(source: Version, target: Version, lossless: bool, changes: seq<string>)

  datatype Body = Body(
    schemaVersion: string,
    artifact: string,
    source: Version,
    target: Version,
    before: string,
    after: string,
    lossless: bool,
    status: string,
    steps: seq<Step>)

  datatype Report = Report(body: Body, fingerprint: string)

  /** SHA-256 of a document and of a report without its fingerprint. */
  datatype Digests = Digests(document: Document -> string, report: Body -> string)

  predicate IsHex(c: char) { '0' <= c <= '9' || 'a' <= c <= 'f' }
  predicate IsDigest(s: string) { |s| == 64 && forall i | 0 <= i < |s| :: IsHex(s[i]) }

  ghost predicate WellFormedDigests(d: Digests) {
    (forall x :: IsDigest(d.document(x))) && forall b :: IsDigest(d.report(b))
  }

  const STATUSES := {"applied", "planned"}

  // ---------------------------------------------------------------- the report check

  ghost predicate ChangesFine(changes: seq<string>) { "" !in changes && SortedOnce(changes) }

  /** The version reached after `k` steps. */
  function After(source: Version, steps: seq<Step>, k: nat): Version
    requires k <= |steps|
  {
    if k == 0 then source else steps[k - 1].target
  }

  predicate StepFine(source: Version, steps: seq<Step>, k: nat)
    requires k < |steps|
  {
    steps[k].source == After(source, steps, k) && steps[k].source != steps[k].target && steps[k].source != "" && steps[k].target != ""
  }

  /** The steps lead from one version to another, each one away from its own source. */
  ghost predicate Chain(source: Version, steps: seq<Step>, target: Version) {
    && (forall k | 0 <= k < |steps| :: StepFine(source, steps, k))
    && target == After(source, steps, |steps|)
  }

  /** Sixty-four lower-case hexadecimal digits. */
  ghost predicate Sha256Text(s: string) { |s| == 64 && forall i | 0 <= i < |s| :: s[i] in "0123456789abcdef" }

  lemma DigestsAreSha256(s: string)
    ensures IsDigest(s) <==> Sha256Text(s)
  {
    var hex := "0123456789abcdef";
    forall c: char
      ensures IsHex(c) <==> c in hex
    {
      HexDigits(c);
    }
    assert forall i | 0 <= i < |s| :: IsHex(s[i]) <==> s[i] in hex;
  }

  lemma HexDigits(c: char)
    ensures IsHex(c) <==> c in "0123456789abcdef"
  {
    var hex := "0123456789abcdef";
    if '0' <= c <= '9' { assert hex[c as int - '0' as int] == c; }
    if 'a' <= c <= 'f' { assert hex[c as int - 'a' as int + 10] == c; }
  }

  ghost predicate ReportValid(report: Report, digests: Digests) {
    var b := report.body;
    && b.schemaVersion == "1.0" && b.artifact != "" && b.source != "" && b.target != ""
    && (b.source == b.target ==> b.steps == [])
    && (b.status == "applied" || b.status == "planned")
    && Sha256Text(b.before) && Sha256Text(b.after) && Sha256Text(report.fingerprint)
    && Chain(b.source, b.steps, b.target)
    && (forall k | 0 <= k < |b.steps| :: ChangesFine(b.steps[k].changes))
    && (b.lossless <==> forall k | 0 <= k < |b.steps| :: b.steps[k].lossless)
    && report.fingerprint == digests.report(b)
  }

  /** `validate_migration_report`. */
  method ValidateReport(report: Report, digests: Digests) returns (accepted: bool)
    ensures accepted <==> ReportValid(report, digests)
  {
    var b := report.body;
    if b.schemaVersion != "1.0" || b.artifact == "" || b.source == "" || b.target == "" { return false; }
    if b.source == b.target && b.steps != [] { return false; }
    if b.status !in STATUSES { return false; }
    DigestsAreSha256(b.before);
    DigestsAreSha256(b.after);
    DigestsAreSha256(report.fingerprint);
    if !IsDigest(b.before) || !IsDigest(b.after) || !IsDigest(report.fingerprint) { return false; }
    var expected, lossless := b.source, true;
    hide IsDigest, Sha256Text, SortedOnce;
    for k := 0 to |b.steps|
      invariant expected == After(b.source, b.steps, k)
      invariant forall i | 0 <= i < k :: StepFine(b.source, b.steps, i)
      invariant forall i | 0 <= i < k :: ChangesFine(b.steps[i].changes)
      invariant lossless <==> forall i | 0 <= i < k :: b.steps[i].lossless
    {
      var step := b.steps[k];
      assert StepFine(b.source, b.steps, k) <==>
             !(step.source == "" || step.target == "" || step.source != expected || step.source == step.target);
      assert ChangesFine(step.changes) <==> "" !in step.changes && SortedOnce(step.changes);
      if step.source == "" || step.target == "" || step.source != expected || step.source == step.target { return false; }
      var sorted := CheckChanges(step.changes);
      if "" in step.changes || !sorted { return false; }
      expected, lossless := step.target, lossless && step.lossless;
    }
    accepted := expected == b.target && b.lossless == lossless && report.fingerprint == digests.report(b);
  }

  // ---------------------------------------------------------------- migrating

  function StepOf(e: MigrationEdge): Step { Step(e.source, e.target, e.lossless, e.changes) }

  function StepsOf(path: seq<MigrationEdge>): (steps: seq<Step>) {
    seq(|path|, i requires 0 <= i < |path| => StepOf(path[i]))
  }

  datatype Result =
    | Migrated(document: Document, report: Report)
    | InvalidStatus
    | MissingVersion
    | Invalid(document: Document)
    | NoSuchPath(search: Search)
    | TransformMissing(edge: MigrationEdge)
    | NotDeterministic(edge: MigrationEdge)
    | WrongVersion(edge: MigrationEdge)

  function VersionAfter(start: Version, path: seq<MigrationEdge>, k: nat): Version
    requires k <= |path|
  {
    if k == 0 then start else path[k - 1].target
  }

  lemma {:induction false} PathLinks(edges: seq<MigrationEdge>, artifact: string, start: Version, end: Version, path: seq<MigrationEdge>)
    requires PathTo(edges, artifact, start, end, path)
    ensures forall k | 0 <= k < |path| :: path[k] in edges && path[k].source == VersionAfter(start, path, k)
    ensures end == VersionAfter(start, path, |path|)
    decreases |path|
  {
    if path != [] {
      var front, last := path[..|path| - 1], path[|path| - 1];
      PathLinks(edges, artifact, start, last.source, front);
      forall k | 0 <= k < |path|
        ensures path[k] in edges && path[k].source == VersionAfter(start, path, k)
      {
        assert VersionAfter(start, path, k) == VersionAfter(start, front, k);
        if k < |front| { assert path[k] == front[k]; }
      }
    }
  }

  /** A path that returns to its start in zero steps is the least one there. */
  lemma StaysAtHome(edges: seq<MigrationEdge>, artifact: string, v: Version, path: seq<MigrationEdge>)
    requires LeastPath(edges, artifact, v, v, path)
    ensures path == []
  {
    assert PathTo(edges, artifact, v, v, []);
    assert NotLater(Trail(path), Trail([]));
  }

  /** The report of a path is valid exactly when its version and change strings are not empty. */
  lemma ReportIsValid(edges: seq<MigrationEdge>, path: seq<MigrationEdge>, b: Body, digests: Digests)
    requires Registered(edges) && WellFormedDigests(digests)
    requires LeastPath(edges, b.artifact, b.source, b.target, path) && b.steps == StepsOf(path)
    requires b.schemaVersion == "1.0" && b.artifact != "" && b.source != "" && b.target != "" && b.status in STATUSES
    requires IsDigest(b.before) && IsDigest(b.after)
    requires b.lossless <==> forall k | 0 <= k < |b.steps| :: b.steps[k].lossless
    ensures ReportValid(Report(b, digests.report(b)), digests) <==>
            forall k | 0 <= k < |b.steps| :: b.steps[k].source != "" && b.steps[k].target != "" && "" !in b.steps[k].changes
  {
    if b.source == b.target { StaysAtHome(edges, b.artifact, b.source, path); }
    DigestsAreDigests(digests, b);
    DigestsAreSha256(b.before);
    DigestsAreSha256(b.after);
    DigestsAreSha256(digests.report(b));
    StepsAreFine(edges, b.artifact, b.source, b.target, path);
    hide IsDigest, Sha256Text, SortedOnce, LeastPath, WellFormedDigests, Registered, StepFine, StepsOf;
    assert forall k | 0 <= k < |b.steps| :: ChangesFine(b.steps[k].changes) <==> "" !in b.steps[k].changes;
  }

  lemma StepsAreFine(edges: seq<MigrationEdge>, artifact: string, start: Version, end: Version, path: seq<MigrationEdge>)
    requires Registered(edges) && LeastPath(edges, artifact, start, end, path)
    ensures var steps := StepsOf(path);
            && end == After(start, steps, |steps|)
            && forall k | 0 <= k < |steps| ::
                 SortedOnce(steps[k].changes) && (StepFine(start, steps, k) <==> steps[k].source != "" && steps[k].target != "")
  {
    PathLinks(edges, artifact, start, end, path);
    hide SortedOnce, LeastPath, PathTo, StepFine, StepsOf, After;
    AfterIsVersion(start, path, |path|);
    forall k | 0 <= k < |StepsOf(path)|
      ensures SortedOnce(StepsOf(path)[k].changes)
      ensures StepFine(start, StepsOf(path), k) <==> StepsOf(path)[k].source != "" && StepsOf(path)[k].target != ""
    {
      assert path[k] in edges;
      AfterIsVersion(start, path, k);
      StepIsFine(start, path, k);
    }
  }

  lemma AfterIsVersion(start: Version, path: seq<MigrationEdge>, k: nat)
    requires k <= |path|
    ensures |StepsOf(path)| == |path| && After(start, StepsOf(path), k) == VersionAfter(start, path, k)
  {
  }

  lemma StepIsFine(start: Version, path: seq<MigrationEdge>, k: nat)
    requires k < |path| && path[k].source == VersionAfter(start, path, k) && path[k].source != path[k].target
    requires |StepsOf(path)| == |path| && After(start, StepsOf(path), k) == VersionAfter(start, path, k)
    ensures StepsOf(path)[k].changes == path[k].changes
    ensures StepFine(start, StepsOf(path), k) <==> StepsOf(path)[k].source != "" && StepsOf(path)[k].target != ""
  {
    hide After, VersionAfter;
    assert StepsOf(path)[k] == StepOf(path[k]);
  }

  lemma DigestsAreDigests(digests: Digests, b: Body)
    requires WellFormedDigests(digests)
    ensures IsDigest(digests.report(b))
  {
  }

  /** The document after `k` steps, each transform taken at its first call. */
  function DocumentAfter(path: seq<MigrationEdge>, start: Document, k: nat): Document
    requires k <= |path|
  {
    if k == 0 then start
    else if path[k - 1].transform.None? then DocumentAfter(path, start, k - 1)
    else path[k - 1].transform.value(DocumentAfter(path, start, k - 1), 2 * (k - 1))
  }

  /** What is wrong with one step: no transform, two answers, the wrong version, or an invalid document. */
  function StepFault(path: seq<MigrationEdge>, start: Document, validator: Document -> bool, k: nat): Option<Result>
    requires k < |path|
  {
    if path[k].transform.None? then Some(TransformMissing(path[k]))
    else
      var first := DocumentAfter(path, start, k + 1);
      if first != path[k].transform.value(DocumentAfter(path, start, k), 2 * k + 1) then Some(NotDeterministic(path[k]))
      else if first.version != Some(path[k].target) then Some(WrongVersion(path[k]))
      else if !validator(first) then Some(Invalid(first))
      else None
  }

  /** The first step at which something is wrong. */
  ghost predicate FirstFault(path: seq<MigrationEdge>, start: Document, validator: Document -> bool, k: nat, fault: Result) {
    && k < |path| && StepFault(path, start, validator, k) == Some(fault)
    && forall j | 0 <= j < k :: StepFault(path, start, validator, j).None?
  }

  /** Runs the transforms along the path; `ticks` numbers their calls. */
  method RunTransforms(path: seq<MigrationEdge>, start: Document, validator: Document -> bool)
    returns (failure: Option<Result>, document: Document, steps: seq<Step>)
    requires validator(start)
    ensures failure.Some? ==> !failure.value.Migrated? && exists k :: FirstFault(path, start, validator, k, failure.value)
    ensures failure.None? ==> forall k | 0 <= k < |path| :: StepFault(path, start, validator, k).None?
    ensures failure.None? ==> document == DocumentAfter(path, start, |path|)
    ensures failure.None? ==> validator(document) && steps == StepsOf(path)
    ensures failure.None? ==> document.version == (if path == [] then start.version else Some(path[|path| - 1].target))
    ensures failure.None? && path == [] ==> document == start
  {
    var ticks := 0;
    document, steps, failure := start, [], None;
    for k := 0 to |path|
      invariant failure.None? && validator(document) && steps == StepsOf(path[..k])
      invariant ticks == 2 * k && document == DocumentAfter(path, start, k)
      invariant forall j | 0 <= j < k :: StepFault(path, start, validator, j).None?
      invariant document.version == (if k == 0 then start.version else Some(path[k - 1].target))
      invariant k == 0 ==> document == start
    {
      var edge := path[k];
      ghost var fault := StepFault(path, start, validator, k);
      assert fault.Some? ==> FirstFault(path, start, validator, k, fault.value);
      if edge.transform.None? { return Some(TransformMissing(edge)), document, steps; }
      var first := edge.transform.value(document, ticks);
      var second := edge.transform.value(document, ticks + 1);
      ticks := ticks + 2;
      if first != second { return Some(NotDeterministic(edge)), document, steps; }
      if first.version != Some(edge.target) { return Some(WrongVersion(edge)), document, steps; }
      if !validator(first) { return Some(Invalid(first)), document, steps; }
      document := first;
      steps := steps + [StepOf(edge)];
      assert path[..k + 1] == path[..k] + [edge];
    }
    assert path[..|path|] == path;
  }

  /** `MigrationRegistry.migrate`. */
  method Migrate(edges: seq<MigrationEdge>, artifact: string, value: Document, target: Version, validator: Document -> bool,
                 status: string, digests: Digests) returns (result: Result)
    requires Registered(edges) && WellFormedDigests(digests)
    ensures result.Migrated? ==>
              var b := result.report.body;
              && result.document.version == Some(target) && validator(result.document)
              && value.version == Some(b.source) && b.target == target && b.artifact == artifact && b.status == status
              && b.before == digests.document(value) && b.after == digests.document(result.document)
              && (exists path: seq<MigrationEdge> :: LeastPath(edges, artifact, b.source, target, path) && b.steps == StepsOf(path)
                                 && (forall k | 0 <= k < |path| ::
                                       b.steps[k] == Step(path[k].source, path[k].target, path[k].lossless, path[k].changes))
                                 && result.document == DocumentAfter(path, value, |path|)
                                 && forall k | 0 <= k < |path| :: StepFault(path, value, validator, k).None?)
              && (ReportValid(result.report, digests) <==>
                    forall k | 0 <= k < |b.steps| :: b.steps[k].source != "" && b.steps[k].target != "" && "" !in b.steps[k].changes)
    ensures !result.Migrated? ==>
              || (result.InvalidStatus? && status !in STATUSES)
              || (result.MissingVersion? && value.version.None?)
              || (result == Invalid(value) && !validator(value))
              || result.NoSuchPath?
              || (value.version.Some? && exists path, k :: LeastPath(edges, artifact, value.version.value, target, path)
                                                          && FirstFault(path, value, validator, k, result))
    ensures result.NoSuchPath? ==> value.version.Some? && !result.search.Found?
                                   && (result.search.InvalidIdentity? <==> artifact == "" || value.version.value == "" || target == "")
                                   && (result.search.NoPath? ==> forall path :: !PathTo(edges, artifact, value.version.value, target, path))
  {
    hide LeastPath, PathTo, Registered, ReportValid, IsDigest, WellFormedDigests;
    if status !in STATUSES { return InvalidStatus; }
    if value.version.None? { return MissingVersion; }
    if !validator(value) { return Invalid(value); }
    var search := FindPath(edges, artifact, value.version.value, target);
    if !search.Found? { return NoSuchPath(search); }
    var path := search.path;
    var failure, document, steps := RunTransforms(path, value, validator);
    if failure.Some? { return failure.value; }
    EndOfPath(edges, artifact, value.version.value, target, path);
    var lossless := forall k | 0 <= k < |steps| :: steps[k].lossless;
    var b := Body("1.0", artifact, value.version.value, target, digests.document(value), digests.document(document), lossless, status, steps);
    assert IsDigest(b.before) && IsDigest(b.after) by { DocumentsAreDigests(digests, value, document); }
    ReportIsValid(edges, path, b, digests);
    result := Migrated(document, Report(b, digests.report(b)));
  }

  lemma DocumentsAreDigests(digests: Digests, a: Document, b: Document)
    requires WellFormedDigests(digests)
    ensures IsDigest(digests.document(a)) && IsDigest(digests.document(b))
  {
  }

  lemma EndOfPath(edges: seq<MigrationEdge>, artifact: string, start: Version, end: Version, path: seq<MigrationEdge>)
    requires LeastPath(edges, artifact, start, end, path)
    ensures end == VersionAfter(start, path, |path|)
  {
    PathLinks(edges, artifact, start, end, path);
  }
}
