/** Instruction rules: reading them from fragments and merging their declarations. */
module Rules {
  import opened Wrappers
  import opened Order
  import opened TextLines

  datatype Effect = Allow | Deny
  datatype Marker = Marker(id: string, effect: Effect)

  datatype Fragment = Fragment(id: string, scope: string, package: string, locked: bool, digest: string, content: string)
  datatype Declaration = Declaration(id: string, effect: Effect, content: string, locked: bool, package: string, scope: string)

  // ---------------------------------------------------------------- markers

  predicate IsAlphanumeric(c: char) { 'A' <= c <= 'Z' || 'a' <= c <= 'z' || '0' <= c <= '9' }
  predicate IsIdChar(c: char) { IsAlphanumeric(c) || c == '.' || c == '_' || c == '-' }

  predicate ValidId(id: string) {
    id != [] && IsAlphanumeric(id[0]) && forall i | 0 <= i < |id| :: IsIdChar(id[i])
  }

  function IdLength(s: string): (n: nat)
    ensures n <= |s| && (forall i | 0 <= i < n :: IsIdChar(s[i])) && (n < |s| ==> !IsIdChar(s[n]))
  {
    if s == [] || !IsIdChar(s[0]) then 0 else 1 + IdLength(s[1..])
  }

  function Dropped(prefix: string, s: string): Option<string> {
    if prefix <= s then Some(s[|prefix|..]) else None
  }

  function EffectText(effect: Effect): string { if effect == Allow then "allow" else "deny" }

  function ReadEffect(s: string): Option<(Effect, string)> {
    if "allow" <= s then Some((Allow, s[5..])) else if "deny" <= s then Some((Deny, s[4..])) else None
  }

  /** The end of a marker: its effect, and nothing more before the comment closes. */
  function ReadTail(id: string, s: string): Option<Marker> {
    var effected := Dropped("effect=", s);
    if effected.None? then None
    else
      var effect := ReadEffect(effected.value);
      if effect.None? || StripStart(effect.value.1) != "-->" then None else Some(Marker(id, effect.value.0))
  }

  /** The middle of a marker: a valid id with space behind it. */
  function ReadName(s: string): Option<Marker> {
    var named := Dropped("rule:", s);
    if named.None? then None
    else
      var n := IdLength(named.value);
      var id, spaced := named.value[..n], named.value[n..];
      if !ValidId(id) || StripStart(spaced) == spaced then None else ReadTail(id, StripStart(spaced))
  }

  /** `RULE_MARKER.fullmatch(line.strip())`. */
  function ReadMarker(line: string): Option<Marker> {
    var inner := Dropped("<!--", Strip(line));
    if inner.None? then None else ReadName(StripStart(inner.value))
  }

  predicate IsBullet(line: string) { var s := StripStart(line); s != [] && s[0] == '-' }

  // ---------------------------------------------------------------- tokens

  datatype Token = Text(line: string) | Rule(declaration: Declaration) | Broken(id: string)

  function Declared(f: Fragment, m: Marker, bullet: string): Declaration {
    Declaration(m.id, m.effect, Strip(bullet), f.locked, f.package, f.scope)
  }

  /** A marker takes the bullet below it; every other line is text. Reading ends at a marker without bullet. */
  function Tokens(f: Fragment, lines: seq<string>): seq<Token> {
    if lines == [] then []
    else
      match ReadMarker(lines[0])
      case None => [Text(lines[0])] + Tokens(f, lines[1..])
      case Some(marker) =>
        if |lines| < 2 || !IsBullet(lines[1]) then [Broken(marker.id)]
        else [Rule(Declared(f, marker, lines[1]))] + Tokens(f, lines[2..])
  }

  function TextOf(tokens: seq<Token>): seq<string> {
    if tokens == [] then []
    else
      var rest, last := TextOf(tokens[..|tokens| - 1]), tokens[|tokens| - 1];
      if last.Text? then rest + [last.line] else rest
  }

  function RulesOf(tokens: seq<Token>): seq<Declaration> {
    if tokens == [] then []
    else
      var rest, last := RulesOf(tokens[..|tokens| - 1]), tokens[|tokens| - 1];
      if last.Rule? then rest + [last.declaration] else rest
  }

  predicate Whole(tokens: seq<Token>) { forall t | t in tokens :: !t.Broken? }

  /** The tokens spell the lines: text as it stands, and a rule as a marker with its bullet. */
  ghost predicate Spells(f: Fragment, tokens: seq<Token>, lines: seq<string>) {
    if tokens == [] then lines == []
    else
      match tokens[0]
      case Text(line) => lines != [] && lines[0] == line && ReadMarker(line).None? && Spells(f, tokens[1..], lines[1..])
      case Rule(d) =>
        && |lines| >= 2 && ReadMarker(lines[0]) == Some(Marker(d.id, d.effect)) && IsBullet(lines[1])
        && d == Declared(f, Marker(d.id, d.effect), lines[1]) && Spells(f, tokens[1..], lines[2..])
      case Broken(_) => false
  }

  /** Every line is passed on in order or used up by one rule, and there is one way to read the lines. */
  lemma {:induction false} TokensSpell(f: Fragment, lines: seq<string>, tokens: seq<Token>)
    ensures Whole(Tokens(f, lines)) ==> Spells(f, Tokens(f, lines), lines)
    ensures Spells(f, tokens, lines) ==> tokens == Tokens(f, lines) && Whole(tokens)
    decreases |lines|
  {
    hide ReadMarker, IsBullet, Strip;
    var read := Tokens(f, lines);
    if lines != [] {
      match ReadMarker(lines[0])
      case None =>
        TokensSpell(f, lines[1..], if tokens == [] then [] else tokens[1..]);
        assert read[1..] == Tokens(f, lines[1..]);
        assert tokens != [] ==> tokens == [tokens[0]] + tokens[1..];
      case Some(marker) =>
        if |lines| >= 2 && IsBullet(lines[1]) {
          TokensSpell(f, lines[2..], if tokens == [] then [] else tokens[1..]);
          assert read[1..] == Tokens(f, lines[2..]);
          assert tokens != [] ==> tokens == [tokens[0]] + tokens[1..];
        } else {
          assert read[0].Broken?;
        }
    }
  }

  // ---------------------------------------------------------------- merging

  /** Identity of a rule: its effect and content. */
  predicate Same(a: Declaration, b: Declaration) { a.effect == b.effect && a.content == b.content }

  datatype Decision = Accepted | DenyWins | Replaced
  datatype Traced = Traced(winner: Declaration, decision: Decision)

  /** The winner among the earlier one and a new declaration; none when the earlier one is locked and differs. */
  function Merge(previous: Option<Declaration>, candidate: Declaration): Option<Traced> {
    if previous.None? then Some(Traced(candidate, Accepted))
    else
      var p := previous.value;
      if p.locked && !Same(p, candidate) then None
      else if Same(p, candidate) then Some(Traced(if candidate.locked && !p.locked then candidate else p, Accepted))
      else if p.effect == Deny || candidate.effect == Deny then Some(Traced(if p.effect == Deny then p else candidate, DenyWins))
      else Some(Traced(candidate, Replaced))
  }

  datatype Record = Record(declaration: Declaration, order: nat)
  datatype State = State(resolved: map<string, Record>, nextOrder: nat, trace: seq<Traced>)

  const START := State(map[], 0, [])

  function Accept(state: State, d: Declaration): Option<State> {
    var previous := if d.id in state.resolved then Some(state.resolved[d.id].declaration) else None;
    var merged := Merge(previous, d);
    if merged.None? then None
    else
      var order := if previous.Some? then state.resolved[d.id].order else state.nextOrder;
      Some(State(state.resolved[d.id := Record(merged.value.winner, order)],
                 if previous.Some? then state.nextOrder else state.nextOrder + 1,
                 state.trace + [merged.value]))
  }

  /** The state after a list of declarations; none when one of them clashes with a locked rule. */
  function Run(ds: seq<Declaration>): Option<State> {
    if ds == [] then Some(START)
    else
      var before := Run(ds[..|ds| - 1]);
      if before.None? then None else Accept(before.value, ds[|ds| - 1])
  }

  lemma RunOneMore(ds: seq<Declaration>, d: Declaration)
    ensures Run(ds + [d]) == if Run(ds).None? then None else Accept(Run(ds).value, d)
  {
    assert (ds + [d])[..|ds|] == ds;
  }

  // ---------------------------------------------------------------- the closed form

  ghost predicate NoDeny(ds: seq<Declaration>, n: int, id: string) {
    forall i | 0 <= i < n && i < |ds| && ds[i].id == id :: ds[i].effect == Allow
  }

  /** Position `j` holds the first denial of the rule or, when nothing denies it, its last declaration. */
  ghost predicate Decides(ds: seq<Declaration>, id: string, j: int) {
    && 0 <= j < |ds| && ds[j].id == id
    && if ds[j].effect == Deny then NoDeny(ds, j, id)
       else NoDeny(ds, |ds|, id) && forall i | j < i < |ds| :: ds[i].id != id
  }

  ghost predicate Appears(ds: seq<Declaration>, id: string) { exists j :: 0 <= j < |ds| && ds[j].id == id }

  /** A locked declaration of the rule agrees with `w`. */
  ghost predicate LockedAs(ds: seq<Declaration>, id: string, w: Declaration) {
    exists j :: 0 <= j < |ds| && ds[j].id == id && ds[j].locked && Same(ds[j], w)
  }

  /** Every locked declaration that no denial preceded agrees with `w`. */
  ghost predicate LocksKept(ds: seq<Declaration>, id: string, w: Declaration) {
    forall j | 0 <= j < |ds| && ds[j].id == id && ds[j].locked && ds[j].effect == Allow && NoDeny(ds, j, id) :: Same(ds[j], w)
  }

  /** What a record must be: the deciding declaration's identity, locked as soon as one agreeing declaration is. */
  ghost predicate Right(ds: seq<Declaration>, id: string, w: Declaration) {
    && w.id == id
    && (exists j :: Decides(ds, id, j) && Same(ds[j], w))
    && (w.locked <==> LockedAs(ds, id, w))
    && LocksKept(ds, id, w)
  }

  /** Declaration `k` contradicts the rule in force before it, and that rule is locked. */
  ghost predicate Clash(ds: seq<Declaration>, k: int) {
    && 0 <= k < |ds|
    && exists j :: Decides(ds[..k], ds[k].id, j) && LockedAs(ds[..k], ds[k].id, ds[j]) && !Same(ds[k], ds[j])
  }

  lemma {:induction false} DecidesOnce(ds: seq<Declaration>, id: string, j: int, k: int)
    requires Decides(ds, id, j) && Decides(ds, id, k)
    ensures j == k
  {
  }

  lemma DecidesAfter(ds: seq<Declaration>, d: Declaration, id: string, j: int)
    ensures d.id != id && Decides(ds, id, j) ==> Decides(ds + [d], id, j)
    ensures d.id == id && Decides(ds, id, j) && ds[j].effect == Deny ==> Decides(ds + [d], id, j)
    ensures d.id == id && Decides(ds, id, j) && ds[j].effect == Allow ==> Decides(ds + [d], id, |ds|)
    ensures d.id == id && !Appears(ds, id) ==> Decides(ds + [d], id, |ds|)
  {
    var all := ds + [d];
    assert forall i | 0 <= i < |ds| :: all[i] == ds[i];
    assert all[|ds|] == d;
  }

  lemma LockedAfter(ds: seq<Declaration>, d: Declaration, id: string, w: Declaration)
    ensures LockedAs(ds + [d], id, w) <==> LockedAs(ds, id, w) || (d.id == id && d.locked && Same(d, w))
  {
    var all := ds + [d];
    assert all[|ds|] == d;
    if LockedAs(ds, id, w) {
      var j :| 0 <= j < |ds| && ds[j].id == id && ds[j].locked && Same(ds[j], w);
      assert all[j] == ds[j];
    }
  }

  lemma SameWinner(ds: seq<Declaration>, id: string, a: Declaration, b: Declaration)
    requires Same(a, b)
    ensures LockedAs(ds, id, a) <==> LockedAs(ds, id, b)
  {
  }

  lemma KeptAfter(ds: seq<Declaration>, d: Declaration, id: string, w: Declaration)
    requires LocksKept(ds, id, w)
    requires d.id == id && d.locked && d.effect == Allow && NoDeny(ds, |ds|, id) ==> Same(d, w)
    ensures LocksKept(ds + [d], id, w)
  {
    var all := ds + [d];
    assert all[|ds|] == d;
    forall j | 0 <= j < |all| && all[j].id == id && all[j].locked && all[j].effect == Allow && NoDeny(all, j, id)
      ensures Same(all[j], w)
    {
      assert forall i | 0 <= i < j :: all[i] == ds[i];
      assert NoDeny(ds, j, id);
      if j < |ds| { assert all[j] == ds[j]; }
    }
  }

  /** While a permission is in force, whatever was declared locked agrees with it. */
  lemma LockedAgree(ds: seq<Declaration>, id: string, w: Declaration)
    requires Right(ds, id, w) && w.effect == Allow
    ensures NoDeny(ds, |ds|, id)
    ensures forall i | 0 <= i < |ds| && ds[i].id == id && ds[i].locked :: LockedAs(ds, id, w)
  {
    var j :| Decides(ds, id, j) && Same(ds[j], w);
    forall i | 0 <= i < |ds| && ds[i].id == id && ds[i].locked
      ensures LockedAs(ds, id, w)
    {
      assert ds[i].effect == Allow && NoDeny(ds, i, id);
    }
  }

  /** While an unlocked permission is in force, nothing locked has been declared. */
  lemma NothingLocked(ds: seq<Declaration>, id: string, w: Declaration, v: Declaration)
    requires Right(ds, id, w) && !w.locked && w.effect == Allow
    ensures LocksKept(ds, id, v) && !LockedAs(ds, id, v) && NoDeny(ds, |ds|, id)
  {
    LockedAgree(ds, id, w);
  }

  /** One more declaration of another rule changes nothing about this one. */
  lemma RightElsewhere(ds: seq<Declaration>, d: Declaration, id: string, w: Declaration)
    requires Right(ds, id, w) && d.id != id
    ensures Right(ds + [d], id, w)
  {
    var j :| Decides(ds, id, j) && Same(ds[j], w);
    DecidesAfter(ds, d, id, j);
    assert (ds + [d])[j] == ds[j];
    LockedAfter(ds, d, id, w);
    KeptAfter(ds, d, id, w);
  }

  lemma RightAtFirst(ds: seq<Declaration>, d: Declaration)
    requires !Appears(ds, d.id)
    ensures Right(ds + [d], d.id, d)
  {
    DecidesAfter(ds, d, d.id, 0);
    LockedAfter(ds, d, d.id, d);
    KeptAfter(ds, d, d.id, d);
    assert (ds + [d])[|ds|] == d;
  }

  /** Another declaration of a rule clashes with a locked winner it contradicts, and otherwise keeps the closed form. */
  lemma RightAgain(ds: seq<Declaration>, d: Declaration, w: Declaration)
    requires Right(ds, d.id, w)
    ensures Merge(Some(w), d).None? <==> LockedAs(ds, d.id, w) && !Same(w, d)
    ensures Merge(Some(w), d).Some? ==> Right(ds + [d], d.id, Merge(Some(w), d).value.winner)
  {
    var j :| Decides(ds, d.id, j) && Same(ds[j], w);
    if Merge(Some(w), d).Some? {
      var v := Merge(Some(w), d).value.winner;
      DecidesAfter(ds, d, d.id, j);
      LockedAfter(ds, d, d.id, v);
      assert (ds + [d])[|ds|] == d && (ds + [d])[j] == ds[j];
      if Same(v, w) {
        SameWinner(ds, d.id, v, w);
        KeptAfter(ds, d, d.id, v);
      } else {
        NothingLocked(ds, d.id, w, v);
        KeptAfter(ds, d, d.id, v);
      }
    }
  }

  // ---------------------------------------------------------------- the state

  /** The rules' ids in the order in which they first appear. */
  function FirstIds(ds: seq<Declaration>): seq<string> {
    if ds == [] then []
    else
      var rest, last := FirstIds(ds[..|ds| - 1]), ds[|ds| - 1];
      if last.id in rest then rest else rest + [last.id]
  }

  lemma {:induction false} FirstIdsAreUnique(ds: seq<Declaration>)
    ensures Unique(FirstIds(ds))
    ensures forall id :: id in FirstIds(ds) <==> Appears(ds, id)
  {
    if ds != [] {
      var front, last := ds[..|ds| - 1], ds[|ds| - 1];
      FirstIdsAreUnique(front);
      forall id
        ensures id in FirstIds(ds) <==> Appears(ds, id)
      {
        AppearsLast(front, last, id);
        assert ds == front + [last];
      }
    }
  }

  lemma AppearsLast(front: seq<Declaration>, last: Declaration, id: string)
    ensures Appears(front + [last], id) <==> Appears(front, id) || last.id == id
  {
    var ds := front + [last];
    assert ds[|front|] == last;
    if Appears(front, id) {
      var j :| 0 <= j < |front| && front[j].id == id;
      assert ds[j].id == id;
    }
  }

  /** A rule listed earlier first appears earlier. */
  lemma {:induction false} FirstIdsInOrder(ds: seq<Declaration>, p: nat, q: nat)
    requires p < q < |FirstIds(ds)|
    ensures exists k :: 0 <= k <= |ds| && Appears(ds[..k], FirstIds(ds)[p]) && !Appears(ds[..k], FirstIds(ds)[q])
  {
    var n := |ds| - 1;
    var front := ds[..n];
    FirstIdsAreUnique(front);
    if q < |FirstIds(front)| {
      FirstIdsInOrder(front, p, q);
      var k :| 0 <= k <= n && Appears(front[..k], FirstIds(front)[p]) && !Appears(front[..k], FirstIds(front)[q]);
      assert front[..k] == ds[..k];
    } else {
      assert FirstIds(front)[p] in FirstIds(front);
      assert Appears(ds[..n], FirstIds(ds)[p]) && !Appears(ds[..n], FirstIds(ds)[q]);
    }
  }

  /** Each rule that appears has the right record, kept at the place where it first appeared. */
  ghost predicate Resolved(ds: seq<Declaration>, state: State) {
    && state.nextOrder == |FirstIds(ds)| && |state.trace| == |ds|
    && (forall id :: id in state.resolved <==> id in FirstIds(ds))
    && (forall id | id in state.resolved :: RecordRight(ds, id, state.resolved[id]))
  }

  ghost predicate RecordRight(ds: seq<Declaration>, id: string, r: Record) {
    Right(ds, id, r.declaration) && Placed(ds, id, r.order)
  }

  ghost predicate Placed(ds: seq<Declaration>, id: string, order: nat) {
    order < |FirstIds(ds)| && FirstIds(ds)[order] == id
  }

  lemma PlacedAfter(ds: seq<Declaration>, d: Declaration, id: string, order: nat)
    ensures Placed(ds, id, order) ==> Placed(ds + [d], id, order)
    ensures d.id !in FirstIds(ds) ==> Placed(ds + [d], d.id, |FirstIds(ds)|)
    ensures FirstIds(ds + [d]) == if d.id in FirstIds(ds) then FirstIds(ds) else FirstIds(ds) + [d.id]
  {
    assert (ds + [d])[..|ds|] == ds;
  }

  lemma AcceptKeepsResolved(ds: seq<Declaration>, d: Declaration, state: State)
    requires Resolved(ds, state)
    ensures Accept(state, d).Some? ==> Resolved(ds + [d], Accept(state, d).value)
    ensures Accept(state, d).None? <==> Clash(ds + [d], |ds|)
  {
    hide RecordRight, Clash, FirstIds, Appears, Merge;
    FirstIdsAreUnique(ds);
    PlacedAfter(ds, d, d.id, 0);
    if d.id in state.resolved {
      AcceptAgain(ds, d, state.resolved[d.id]);
    } else {
      AcceptFirst(ds, d, state.nextOrder);
    }
    forall id | id in state.resolved && id != d.id { AcceptElsewhere(ds, d, id, state.resolved[id]); }
  }

  lemma AcceptAgain(ds: seq<Declaration>, d: Declaration, r: Record)
    requires RecordRight(ds, d.id, r)
    ensures Merge(Some(r.declaration), d).None? <==> Clash(ds + [d], |ds|)
    ensures Merge(Some(r.declaration), d).Some? ==> RecordRight(ds + [d], d.id, Record(Merge(Some(r.declaration), d).value.winner, r.order))
  {
    hide Right, Clash, Merge;
    RightAgain(ds, d, r.declaration);
    ClashMeans(ds, d, r.declaration);
    PlacedAfter(ds, d, d.id, r.order);
  }

  lemma AcceptFirst(ds: seq<Declaration>, d: Declaration, order: nat)
    requires !Appears(ds, d.id) && order == |FirstIds(ds)|
    ensures Merge(None, d) == Some(Traced(d, Accepted)) && !Clash(ds + [d], |ds|)
    ensures RecordRight(ds + [d], d.id, Record(d, order))
  {
    NeverClashes(ds, d);
    RightAtFirst(ds, d);
    FirstIdsAreUnique(ds);
    PlacedAfter(ds, d, d.id, order);
  }

  lemma AcceptElsewhere(ds: seq<Declaration>, d: Declaration, id: string, r: Record)
    requires RecordRight(ds, id, r) && id != d.id
    ensures RecordRight(ds + [d], id, r)
  {
    RightElsewhere(ds, d, id, r.declaration);
    PlacedAfter(ds, d, id, r.order);
  }

  lemma ClashMeans(ds: seq<Declaration>, d: Declaration, w: Declaration)
    requires Right(ds, d.id, w)
    ensures Clash(ds + [d], |ds|) <==> LockedAs(ds, d.id, w) && !Same(w, d)
  {
    var all := ds + [d];
    assert all[..|ds|] == ds && all[|ds|] == d;
    var j :| Decides(ds, d.id, j) && Same(ds[j], w);
    SameWinner(ds, d.id, ds[j], w);
    assert all[j] == ds[j];
    if Clash(all, |ds|) {
      var k :| Decides(all[..|ds|], d.id, k) && LockedAs(all[..|ds|], d.id, all[k]) && !Same(d, all[k]);
      DecidesOnce(ds, d.id, j, k);
    }
  }

  lemma NeverClashes(ds: seq<Declaration>, d: Declaration)
    requires !Appears(ds, d.id)
    ensures !Clash(ds + [d], |ds|)
  {
    assert (ds + [d])[..|ds|] == ds;
  }

  /** Merging succeeds exactly without a clash, and then every rule has its closed form. */
  lemma {:induction false} MergingIsRight(ds: seq<Declaration>)
    ensures Run(ds).None? <==> exists k :: Clash(ds, k)
    ensures Run(ds).Some? ==> Resolved(ds, Run(ds).value)
  {
    if ds == [] {
      assert Resolved([], START);
    } else {
      var front, last := ds[..|ds| - 1], ds[|ds| - 1];
      assert ds == front + [last];
      MergingIsRight(front);
      hide Resolved, Accept;
      if Run(front).Some? { AcceptKeepsResolved(front, last, Run(front).value); }
      ClashesOf(front, last);
    }
  }

  lemma ClashesOf(front: seq<Declaration>, last: Declaration)
    ensures (exists k :: Clash(front + [last], k)) <==> (exists k :: Clash(front, k)) || Clash(front + [last], |front|)
  {
    var ds := front + [last];
    forall k | 0 <= k < |front|
      ensures Clash(ds, k) <==> Clash(front, k)
    {
      assert ds[..k] == front[..k] && ds[k] == front[k];
      assert forall j | 0 <= j < k :: ds[j] == front[j];
    }
  }

  /** Once locked, a rule keeps its identity however many declarations follow. */
  lemma {:induction false} LockedStays(ds: seq<Declaration>, more: seq<Declaration>, id: string)
    requires Run(ds).Some? && id in Run(ds).value.resolved && Run(ds).value.resolved[id].declaration.locked
    requires Run(ds + more).Some?
    ensures id in Run(ds + more).value.resolved
    ensures var w := Run(ds + more).value.resolved[id].declaration; w.locked && Same(w, Run(ds).value.resolved[id].declaration)
  {
    if more == [] {
      assert ds + more == ds;
    } else {
      var front, last := more[..|more| - 1], more[|more| - 1];
      assert ds + more == (ds + front) + [last];
      RunOneMore(ds + front, last);
      LockedStays(ds, front, id);
    }
  }

  // ---------------------------------------------------------------- origins and the trace

  /** Position `j` holds the declaration that is in force as `w`: the first locked one of its identity; or, when
      none is locked, the first denial; or, when nothing is denied, the first of the last ones that are alike. */
  ghost predicate Origin(ds: seq<Declaration>, id: string, w: Declaration, j: int) {
    && 0 <= j < |ds| && ds[j] == w && w.id == id
    && if w.locked then forall i | 0 <= i < j && ds[i].id == id && ds[i].locked :: !Same(ds[i], w)
       else if w.effect == Deny then NoDeny(ds, j, id)
       else AlikeFrom(ds, id, w, j) && forall i | Before(ds, id, i, j) :: !Same(ds[i], w)
  }

  ghost predicate AlikeFrom(ds: seq<Declaration>, id: string, w: Declaration, j: int) {
    forall i | 0 <= i && j <= i < |ds| && ds[i].id == id :: Same(ds[i], w)
  }

  /** Position `i` holds the last declaration of the rule before position `j`. */
  ghost predicate Before(ds: seq<Declaration>, id: string, i: int, j: int) {
    0 <= i < j <= |ds| && ds[i].id == id && forall m | i < m < j :: ds[m].id != id
  }

  ghost predicate Stands(ds: seq<Declaration>, id: string, w: Declaration) {
    Right(ds, id, w) && exists j :: Origin(ds, id, w, j)
  }

  lemma OriginKept(ds: seq<Declaration>, d: Declaration, id: string, w: Declaration, j: int)
    requires Origin(ds, id, w, j)
    requires !w.locked && w.effect == Allow && d.id == id ==> Same(d, w)
    ensures Origin(ds + [d], id, w, j)
  {
    hide Same;
    var all := ds + [d];
    assert all[|ds|] == d && all[j] == ds[j];
    assert forall i | 0 <= i < |ds| :: all[i] == ds[i];
    if !w.locked && w.effect == Allow {
      forall i | Before(all, id, i, j)
        ensures !Same(all[i], w)
      {
        assert Before(ds, id, i, j);
      }
    }
  }

  lemma OriginOfNew(ds: seq<Declaration>, d: Declaration, w: Declaration)
    requires Right(ds, d.id, w) && Merge(Some(w), d).Some? && Merge(Some(w), d).value.winner == d
    requires d != w
    ensures Origin(ds + [d], d.id, d, |ds|)
  {
    var all, n := ds + [d], |ds|;
    assert all[n] == d;
    assert forall i | 0 <= i < n :: all[i] == ds[i];
    var k :| Decides(ds, d.id, k) && Same(ds[k], w);
    if d.locked {
      if Same(w, d) {
        assert !w.locked && !LockedAs(ds, d.id, w);
      } else {
        NothingLocked(ds, d.id, w, d);
      }
    } else {
      assert !Same(w, d);
      NothingLocked(ds, d.id, w, d);
      forall i | Before(all, d.id, i, n)
        ensures !Same(all[i], d)
      {
        assert ds[i].id == d.id && all[k].id == d.id;
        assert i == k;
      }
    }
  }

  /** One more declaration leaves the declaration in force where it was or comes into force itself. */
  lemma StandsAgain(ds: seq<Declaration>, d: Declaration, w: Declaration)
    requires Stands(ds, d.id, w) && Merge(Some(w), d).Some?
    ensures Stands(ds + [d], d.id, Merge(Some(w), d).value.winner)
  {
    hide Right, Origin;
    var j :| Origin(ds, d.id, w, j);
    RightAgain(ds, d, w);
    if Merge(Some(w), d).value.winner == w {
      OriginKept(ds, d, d.id, w, j);
    } else {
      OriginOfNew(ds, d, w);
    }
  }

  /** What the trace says of declaration `k`: which declaration is in force after it, and how it compares with
      the one that was in force before. */
  ghost predicate TraceRight(ds: seq<Declaration>, k: int, t: Traced) {
    && 0 <= k < |ds|
    && Stands(ds[..k + 1], ds[k].id, t.winner)
    && (!Appears(ds[..k], ds[k].id) ==> t == Traced(ds[k], Accepted))
    && (forall j | Decides(ds[..k], ds[k].id, j) :: t.decision ==
          if ds[j].effect == ds[k].effect && ds[j].content == ds[k].content then Accepted
          else if ds[j].effect == Deny || ds[k].effect == Deny then DenyWins
          else Replaced)
  }

  lemma TraceOfLast(ds: seq<Declaration>, d: Declaration, state: State)
    requires Resolved(ds, state) && AllStand(ds, state) && Accept(state, d).Some?
    ensures AllStand(ds + [d], Accept(state, d).value)
    ensures TraceRight(ds + [d], |ds|, Accept(state, d).value.trace[|ds|])
  {
    AcceptParts(state, d);
    FirstIdsAreUnique(ds);
    assert |state.trace| == |ds| && (d.id in state.resolved <==> Appears(ds, d.id));
    assert d.id in state.resolved ==> Stands(ds, d.id, state.resolved[d.id].declaration);
    hide Stands, Appears, FirstIds, Accept, Merge, Resolved, TraceRight, AllStand;
    if d.id in state.resolved {
      TraceAgain(ds, d, state.resolved[d.id].declaration);
    } else {
      TraceFirst(ds, d);
    }
    OthersStand(ds, d, state, Accept(state, d).value);
  }

  lemma OthersStand(ds: seq<Declaration>, d: Declaration, state: State, next: State)
    requires AllStand(ds, state) && next.resolved.Keys == state.resolved.Keys + {d.id}
    requires Stands(ds + [d], d.id, next.resolved[d.id].declaration)
    requires forall id | id in state.resolved && id != d.id :: next.resolved[id] == state.resolved[id]
    ensures AllStand(ds + [d], next)
  {
    hide Stands;
    forall id | id in next.resolved
      ensures Stands(ds + [d], id, next.resolved[id].declaration)
    {
      if id != d.id { StandsElsewhere(ds, d, id, state.resolved[id].declaration); }
    }
  }

  lemma TraceAgain(ds: seq<Declaration>, d: Declaration, w: Declaration)
    requires Stands(ds, d.id, w) && Merge(Some(w), d).Some?
    ensures Stands(ds + [d], d.id, Merge(Some(w), d).value.winner)
    ensures TraceRight(ds + [d], |ds|, Merge(Some(w), d).value)
  {
    var all := ds + [d];
    assert all[..|ds|] == ds && all[..|ds| + 1] == all && all[|ds|] == d;
    StandsAgain(ds, d, w);
    StandsIsRight(ds, d.id, w);
    DecisionCompares(ds, d, w);
    hide Stands, Right, Appears, Merge, Decides;
    forall j | Decides(ds, d.id, j)
      ensures 0 <= j < |ds| && all[j] == ds[j]
    {
      DecidesWithin(ds, d.id, j);
    }
  }

  lemma DecidesWithin(ds: seq<Declaration>, id: string, j: int)
    requires Decides(ds, id, j)
    ensures 0 <= j < |ds|
  {
  }

  lemma TraceFirst(ds: seq<Declaration>, d: Declaration)
    requires !Appears(ds, d.id)
    ensures Stands(ds + [d], d.id, d) && TraceRight(ds + [d], |ds|, Traced(d, Accepted))
  {
    var all := ds + [d];
    assert all[..|ds|] == ds && all[..|ds| + 1] == all && all[|ds|] == d;
    StandsAtFirst(ds, d);
    hide Stands, Right, Appears, Decides;
  }

  ghost predicate AllStand(ds: seq<Declaration>, state: State) {
    forall id | id in state.resolved :: Stands(ds, id, state.resolved[id].declaration)
  }

  lemma StandsIsRight(ds: seq<Declaration>, id: string, w: Declaration)
    requires Stands(ds, id, w)
    ensures Right(ds, id, w)
  {
  }

  /** Accepting a declaration traces it and lets its winner take the place of the rule. */
  lemma AcceptParts(state: State, d: Declaration)
    requires Accept(state, d).Some?
    ensures var previous := if d.id in state.resolved then Some(state.resolved[d.id].declaration) else None;
            var next, merged := Accept(state, d).value, Merge(previous, d);
            && merged.Some? && next.trace == state.trace + [merged.value]
            && next.resolved.Keys == state.resolved.Keys + {d.id}
            && next.resolved[d.id].declaration == merged.value.winner
            && forall id | id in state.resolved && id != d.id :: next.resolved[id] == state.resolved[id]
    ensures d.id !in state.resolved ==> Merge(None, d) == Some(Traced(d, Accepted))
  {
  }

  lemma DecisionCompares(ds: seq<Declaration>, d: Declaration, w: Declaration)
    requires Right(ds, d.id, w) && Merge(Some(w), d).Some?
    ensures Appears(ds, d.id)
    ensures forall j | Decides(ds, d.id, j) :: Merge(Some(w), d).value.decision ==
              if ds[j].effect == d.effect && ds[j].content == d.content then Accepted
              else if ds[j].effect == Deny || d.effect == Deny then DenyWins
              else Replaced
  {
    var k :| Decides(ds, d.id, k) && Same(ds[k], w);
    forall j | Decides(ds, d.id, j)
      ensures Same(ds[j], w)
    {
      DecidesOnce(ds, d.id, j, k);
    }
  }

  lemma StandsAtFirst(ds: seq<Declaration>, d: Declaration)
    requires !Appears(ds, d.id)
    ensures Stands(ds + [d], d.id, d)
    ensures forall j :: !Decides(ds, d.id, j)
  {
    RightAtFirst(ds, d);
    var all := ds + [d];
    assert forall i | 0 <= i < |ds| :: all[i] == ds[i] && ds[i].id != d.id;
    assert Origin(all, d.id, d, |ds|);
  }

  lemma StandsElsewhere(ds: seq<Declaration>, d: Declaration, id: string, w: Declaration)
    requires Stands(ds, id, w) && d.id != id
    ensures Stands(ds + [d], id, w)
  {
    hide Right, Origin;
    RightElsewhere(ds, d, id, w);
    var j :| Origin(ds, id, w, j);
    OriginKept(ds, d, id, w, j);
  }

  /** Every entry of the trace is right, and every rule stands with the declaration that came into force. */
  lemma {:induction false} TraceIsRight(ds: seq<Declaration>)
    requires Run(ds).Some?
    ensures |Run(ds).value.trace| == |ds|
    ensures forall k | 0 <= k < |ds| :: TraceRight(ds, k, Run(ds).value.trace[k])
    ensures AllStand(ds, Run(ds).value)
  {
    if ds != [] {
      var front, last := ds[..|ds| - 1], ds[|ds| - 1];
      assert ds == front + [last];
      RunOneMore(front, last);
      hide *;
      TraceIsRight(front);
      MergingIsRight(front);
      TraceGrows(front, last, Run(front).value);
    }
  }

  lemma TraceGrows(ds: seq<Declaration>, d: Declaration, state: State)
    requires Resolved(ds, state) && AllStand(ds, state) && Accept(state, d).Some?
    requires |state.trace| == |ds| && forall k | 0 <= k < |ds| :: TraceRight(ds, k, state.trace[k])
    ensures AllStand(ds + [d], Accept(state, d).value) && |Accept(state, d).value.trace| == |ds| + 1
    ensures forall k | 0 <= k <= |ds| :: TraceRight(ds + [d], k, Accept(state, d).value.trace[k])
  {
    TraceOfLast(ds, d, state);
    AcceptParts(state, d);
    hide *;
    forall k | 0 <= k < |ds|
      ensures TraceRight(ds + [d], k, Accept(state, d).value.trace[k])
    {
      TraceIsOfPrefix(ds, d, k, state.trace[k]);
    }
  }

  lemma TraceIsOfPrefix(front: seq<Declaration>, last: Declaration, k: int, t: Traced)
    requires TraceRight(front, k, t)
    ensures TraceRight(front + [last], k, t)
  {
    hide Stands;
    var ds := front + [last];
    assert ds[..k + 1] == front[..k + 1] && ds[..k] == front[..k];
  }
}
