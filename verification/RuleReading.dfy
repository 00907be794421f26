/** Reading the rules of all fragments, as the index loop over their lines does it. */
module RuleReading {
  import opened Wrappers
  import opened Order
  import opened TextLines
  import opened Rules

  datatype Fault = MissingBullet(id: string) | LockedConflict(id: string)
  datatype Progress = Going(state: State) | Failed(fault: Fault)

  datatype Resolution =
    | Read(trace: seq<Traced>, effective: seq<Record>, text: map<string, string>)
    | Refused(fault: Fault)

  // ---------------------------------------------------------------- tokens in sequence

  function Step(progress: Progress, token: Token): Progress {
    if progress.Failed? then progress
    else match token
      case Text(_) => progress
      case Broken(id) => Failed(MissingBullet(id))
      case Rule(d) =>
        var next := Accept(progress.state, d);
        if next.None? then Failed(LockedConflict(d.id)) else Going(next.value)
  }

  /** The first failing token decides; without one, the declarations are merged in order. */
  function RunTokens(tokens: seq<Token>): Progress {
    if tokens == [] then Going(START) else Step(RunTokens(tokens[..|tokens| - 1]), tokens[|tokens| - 1])
  }

  lemma RunTokensMore(tokens: seq<Token>, token: Token)
    ensures RunTokens(tokens + [token]) == Step(RunTokens(tokens), token)
  {
    assert (tokens + [token])[..|tokens|] == tokens;
  }

  lemma {:induction false} FailedStays(tokens: seq<Token>, more: seq<Token>)
    requires RunTokens(tokens).Failed?
    ensures RunTokens(tokens + more) == RunTokens(tokens)
  {
    if more == [] {
      assert tokens + more == tokens;
    } else {
      assert tokens + more == (tokens + more[..|more| - 1]) + [more[|more| - 1]];
      FailedStays(tokens, more[..|more| - 1]);
      RunTokensMore(tokens + more[..|more| - 1], more[|more| - 1]);
    }
  }

  /** Reading succeeds exactly when every marker has its bullet and no declaration clashes with a locked rule. */
  lemma {:induction false} ReadingIsMerging(tokens: seq<Token>)
    ensures RunTokens(tokens).Going? <==> Whole(tokens) && Run(RulesOf(tokens)).Some?
    ensures RunTokens(tokens).Going? ==> Run(RulesOf(tokens)) == Some(RunTokens(tokens).state)
  {
    if tokens != [] {
      var front, last := tokens[..|tokens| - 1], tokens[|tokens| - 1];
      ReadingIsMerging(front);
      assert tokens == front + [last];
      assert Whole(tokens) <==> Whole(front) && !last.Broken?;
      if last.Rule? { RunOneMore(RulesOf(front), last.declaration); }
    }
  }

  function FragmentTokens(f: Fragment): seq<Token> { Tokens(f, SplitLines(f.content)) }

  function AllTokens(fragments: seq<Fragment>): seq<Token> {
    if fragments == [] then []
    else AllTokens(fragments[..|fragments| - 1]) + FragmentTokens(fragments[|fragments| - 1])
  }

  /** The text of a fragment without its rules. */
  function FragmentText(f: Fragment): string { Strip(Join(TextOf(FragmentTokens(f)))) }

  function Texts(fragments: seq<Fragment>): map<string, string> {
    if fragments == [] then map[]
    else
      var last := fragments[|fragments| - 1];
      Texts(fragments[..|fragments| - 1])[last.id := FragmentText(last)]
  }

  // ---------------------------------------------------------------- the index loop

  lemma NextToken(f: Fragment, lines: seq<string>, index: nat)
    requires index < |lines|
    ensures var rest, marker := Tokens(f, lines[index..]), ReadMarker(lines[index]);
            && (marker.None? ==> rest == [Text(lines[index])] + Tokens(f, lines[index + 1..]))
            && (marker.Some? && (index + 1 >= |lines| || !IsBullet(lines[index + 1])) ==> rest == [Broken(marker.value.id)])
            && (marker.Some? && index + 1 < |lines| && IsBullet(lines[index + 1]) ==>
                  rest == [Rule(Declared(f, marker.value, lines[index + 1]))] + Tokens(f, lines[index + 2..]))
  {
    var tail := lines[index..];
    assert tail[0] == lines[index] && tail[1..] == lines[index + 1..];
    if |tail| > 1 { assert tail[1] == lines[index + 1] && tail[2..] == lines[index + 2..]; }
  }

  lemma TextOneMore(tokens: seq<Token>, token: Token)
    ensures TextOf(tokens + [token]) == if token.Text? then TextOf(tokens) + [token.line] else TextOf(tokens)
  {
    assert (tokens + [token])[..|tokens|] == tokens;
  }

  lemma Regroup(before: seq<Token>, done: seq<Token>, token: Token, rest: seq<Token>)
    ensures done + ([token] + rest) == (done + [token]) + rest
    ensures before + (done + [token]) == (before + done) + [token]
    ensures before + (done + ([token] + rest)) == ((before + done) + [token]) + rest
  {
  }

  method ReadFragment(f: Fragment, ghost before: seq<Token>, start: State)
    returns (fault: Option<Fault>, state: State, passthrough: seq<string>)
    requires RunTokens(before) == Going(start)
    ensures fault.Some? ==> RunTokens(before + FragmentTokens(f)) == Failed(fault.value)
    ensures fault.None? ==> RunTokens(before + FragmentTokens(f)) == Going(state) && passthrough == TextOf(FragmentTokens(f))
  {
    var lines := SplitLines(f.content);
    ghost var done: seq<Token> := [];
    state, passthrough, fault := start, [], None;
    var index := 0;
    assert lines[0..] == lines && before + [] == before;
    assert [] + Tokens(f, lines) == Tokens(f, lines);
    hide SplitLines, ReadMarker, IsBullet, Tokens, RunTokens, Step, Strip, Accept;
    while index < |lines|
      invariant 0 <= index <= |lines|
      invariant Tokens(f, lines) == done + Tokens(f, lines[index..])
      invariant RunTokens(before + done) == Going(state) && passthrough == TextOf(done)
    {
      var line := lines[index];
      var marker := ReadMarker(line);
      NextToken(f, lines, index);
      if marker.None? {
        OneTokenMore(before, done, Text(line), Tokens(f, lines[index + 1..]));
        done, passthrough, index := done + [Text(line)], passthrough + [line], index + 1;
        continue;
      }
      if index + 1 >= |lines| || !IsBullet(lines[index + 1]) {
        OneTokenMore(before, done, Broken(marker.value.id), []);
        assert [Broken(marker.value.id)] + [] == [Broken(marker.value.id)];
        fault := Some(MissingBullet(marker.value.id));
        return;
      }
      var candidate := Declared(f, marker.value, lines[index + 1]);
      OneTokenMore(before, done, Rule(candidate), Tokens(f, lines[index + 2..]));
      var next := Accept(state, candidate);
      if next.None? {
        fault := Some(LockedConflict(candidate.id));
        return;
      }
      done, state, index := done + [Rule(candidate)], next.value, index + 2;
    }
    NoTokens(f, lines, index);
    assert done + [] == done;
  }

  lemma NoTokens(f: Fragment, lines: seq<string>, index: int)
    requires index == |lines|
    ensures Tokens(f, lines[index..]) == []
  {
  }

  /** What one more token does, and that a failure is final. */
  lemma OneTokenMore(before: seq<Token>, done: seq<Token>, token: Token, rest: seq<Token>)
    ensures done + ([token] + rest) == (done + [token]) + rest
    ensures TextOf(done + [token]) == if token.Text? then TextOf(done) + [token.line] else TextOf(done)
    ensures var p, q := RunTokens(before + done), RunTokens(before + (done + [token]));
            p.Going? ==>
              && (token.Text? ==> q == p)
              && (token.Broken? ==> q == Failed(MissingBullet(token.id)))
              && (token.Rule? ==> q == var next := Accept(p.state, token.declaration);
                                       if next.None? then Failed(LockedConflict(token.declaration.id)) else Going(next.value))
              && (q.Failed? ==> RunTokens(before + (done + ([token] + rest))) == q)
  {
    Regroup(before, done, token, rest);
    TextOneMore(done, token);
    RunTokensMore(before + done, token);
    hide RunTokens, Accept, TextOf;
    if RunTokens((before + done) + [token]).Failed? { FailedStays((before + done) + [token], rest); }
  }

  // ---------------------------------------------------------------- all fragments

  predicate ByOrder(a: Record, b: Record) {
    a.order < b.order || (a.order == b.order && StringLess(a.declaration.id, b.declaration.id))
  }

  lemma RecordsAreOrdered()
    ensures Consistent(ByOrder)
  {
    StringsAreOrdered();
    TotalIsConsistent(StringLess);
    hide StringLess, StrictTotal;
  }

  /** The records in the order in which their rules first appear. */
  ghost function Effective(ds: seq<Declaration>, state: State): seq<Record>
    requires Resolved(ds, state)
  {
    seq(|FirstIds(ds)|, i requires 0 <= i < |FirstIds(ds)| => state.resolved[FirstIds(ds)[i]])
  }

  /** Sorting the records by their order gives the order of first appearance. */
  lemma SortedRecords(ds: seq<Declaration>, state: State, sorted: seq<Record>)
    requires Resolved(ds, state) && Sorted(ByOrder, sorted) && Unique(sorted)
    requires forall r :: r in sorted <==> exists id :: id in state.resolved && state.resolved[id] == r
    ensures sorted == Effective(ds, state)
  {
    ListedInOrder(ds, state);
    ListedAreResolved(ds, state);
    hide *;
    SortedSame(ByOrder, Effective(ds, state), sorted);
  }

  lemma ListedInOrder(ds: seq<Declaration>, state: State)
    requires Resolved(ds, state)
    ensures Sorted(ByOrder, Effective(ds, state)) && Unique(Effective(ds, state)) && Separates(ByOrder, Effective(ds, state))
  {
    var listed := Effective(ds, state);
    forall i | 0 <= i < |listed|
      ensures listed[i].order == i
    {
      OrderOf(ds, state, i);
    }
    hide Resolved, StringLess, FirstIds, Effective;
  }

  lemma ListedAreResolved(ds: seq<Declaration>, state: State)
    requires Resolved(ds, state)
    ensures forall r :: r in Effective(ds, state) <==> exists id :: id in state.resolved && state.resolved[id] == r
  {
    var ids, listed := FirstIds(ds), Effective(ds, state);
    forall i | 0 <= i < |listed|
      ensures ids[i] in state.resolved && listed[i] == state.resolved[ids[i]]
    {
      ResolvedIds(ds, state, ids[i]);
    }
    hide Effective;
    forall id | id in state.resolved
      ensures state.resolved[id] in listed
    {
      ResolvedIds(ds, state, id);
      var i :| 0 <= i < |ids| && ids[i] == id;
      assert listed[i] == state.resolved[id];
    }
    hide Resolved, FirstIds;
  }

  lemma ResolvedIds(ds: seq<Declaration>, state: State, id: string)
    requires Resolved(ds, state)
    ensures id in state.resolved <==> id in FirstIds(ds)
  {
  }

  lemma OrderOf(ds: seq<Declaration>, state: State, i: nat)
    requires Resolved(ds, state) && i < |FirstIds(ds)|
    ensures Effective(ds, state)[i].order == i && Effective(ds, state)[i].declaration.id == FirstIds(ds)[i]
  {
    var ids := FirstIds(ds);
    FirstIdsAreUnique(ds);
    var r := state.resolved[ids[i]];
    assert RecordRight(ds, ids[i], r);
    assert ids[r.order] == ids[i];
  }

  method EffectiveRules(state: State, ghost ds: seq<Declaration>) returns (effective: seq<Record>)
    requires Resolved(ds, state)
    ensures effective == Effective(ds, state)
  {
    hide Resolved;
    RecordsAreOrdered();
    var records := set id | id in state.resolved :: state.resolved[id];
    effective := SortedSet(ByOrder, records);
    SortedRecords(ds, state, effective);
  }

  /** `_resolve_instruction_rules`. */
  method ResolveInstructionRules(fragments: seq<Fragment>) returns (resolution: Resolution)
    ensures var tokens := AllTokens(fragments);
            match resolution
            case Refused(fault) => RunTokens(tokens) == Failed(fault)
            case Read(trace, effective, text) =>
              && Whole(tokens) && Run(RulesOf(tokens)).Some? && Resolved(RulesOf(tokens), Run(RulesOf(tokens)).value)
              && trace == Run(RulesOf(tokens)).value.trace
              && effective == Effective(RulesOf(tokens), Run(RulesOf(tokens)).value)
              && text == Texts(fragments)
  {
    hide *;
    var state, text := START, map[];
    StartIsGoing(fragments);
    for k := 0 to |fragments|
      invariant RunTokens(AllTokens(fragments[..k])) == Going(state)
      invariant text == Texts(fragments[..k])
    {
      var f := fragments[k];
      OneFragmentMore(fragments, k);
      TextIs(f);
      var fault, next, passthrough := ReadFragment(f, AllTokens(fragments[..k]), state);
      if fault.Some? {
        LaterFragments(fragments, k + 1);
        return Refused(fault.value);
      }
      state := next;
      text := text[f.id := Strip(Join(passthrough))];
    }
    assert fragments[..|fragments|] == fragments;
    ReadingIsMerging(AllTokens(fragments));
    MergingIsRight(RulesOf(AllTokens(fragments)));
    var effective := EffectiveRules(state, RulesOf(AllTokens(fragments)));
    resolution := Read(state.trace, effective, text);
  }

  lemma StartIsGoing(fragments: seq<Fragment>)
    ensures RunTokens(AllTokens(fragments[..0])) == Going(START) && Texts(fragments[..0]) == map[]
  {
    assert fragments[..0] == [];
  }

  lemma TextIs(f: Fragment)
    ensures FragmentText(f) == Strip(Join(TextOf(FragmentTokens(f))))
  {
  }

  lemma OneFragmentMore(fragments: seq<Fragment>, k: nat)
    requires k < |fragments|
    ensures AllTokens(fragments[..k + 1]) == AllTokens(fragments[..k]) + FragmentTokens(fragments[k])
    ensures Texts(fragments[..k + 1]) == Texts(fragments[..k])[fragments[k].id := FragmentText(fragments[k])]
  {
    hide FragmentTokens, FragmentText;
    assert fragments[..k + 1][..k] == fragments[..k] && fragments[..k + 1][k] == fragments[k];
  }

  lemma {:induction false} LaterFragments(fragments: seq<Fragment>, k: nat)
    requires k <= |fragments| && RunTokens(AllTokens(fragments[..k])).Failed?
    ensures RunTokens(AllTokens(fragments)) == RunTokens(AllTokens(fragments[..k]))
    decreases |fragments| - k
  {
    if k == |fragments| {
      assert fragments[..k] == fragments;
    } else {
      OneFragmentMore(fragments, k);
      FailedStays(AllTokens(fragments[..k]), FragmentTokens(fragments[k]));
      LaterFragments(fragments, k + 1);
    }
  }
}
