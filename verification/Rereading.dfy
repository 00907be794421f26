/** Which headers leave the effective rules as they are, although they bring in rules of their own. */
module Rereading {
  import opened Wrappers
  import opened Order
  import opened TextLines
  import opened Rules
  import opened RuleReading
  import opened Instructions

  // ---------------------------------------------------------------- declarations before the last ones

  predicate Uniform(ds: seq<Declaration>, locked: bool) { forall d | d in ds :: d.locked == locked }

  function Ids(ds: seq<Declaration>): seq<string> {
    seq(|ds|, i requires 0 <= i < |ds| => ds[i].id)
  }

  /** What was declared earlier lets `w` win.  Locked declarations must all say the same.  Unlocked ones must not
      deny what `w` allows, and where `w` denies, the first denial must have its content. */
  ghost predicate Agrees(earlier: seq<Declaration>, w: Declaration, locked: bool) {
    if locked then forall j | 0 <= j < |earlier| && earlier[j].id == w.id :: Same(earlier[j], w)
    else if w.effect == Allow then NoDeny(earlier, |earlier|, w.id)
    else forall j | 0 <= j < |earlier| && earlier[j].id == w.id && earlier[j].effect == Deny && NoDeny(earlier, j, w.id) ::
           earlier[j].content == w.content
  }

  /** The earlier rules first appear in the order of the last ones, and agree with them. */
  ghost predicate Anticipates(earlier: seq<Declaration>, last: seq<Declaration>, locked: bool) {
    FirstIds(earlier) <= Ids(last) && forall i | 0 <= i < |last| :: Agrees(earlier, last[i], locked)
  }

  /** Merging succeeds and its winners are these rules, in this order. */
  ghost predicate Wins(ds: seq<Declaration>, last: seq<Declaration>) {
    && Run(ds).Some? && Resolved(ds, Run(ds).value) && FirstIds(ds) == Ids(last)
    && forall i | 0 <= i < |last| :: last[i].id in Run(ds).value.resolved && Same(Run(ds).value.resolved[last[i].id].declaration, last[i])
  }

  lemma {:induction false} FirstIdsGrow(a: seq<Declaration>, b: seq<Declaration>)
    ensures FirstIds(a) <= FirstIds(a + b)
  {
    if b == [] {
      assert a + b == a;
    } else {
      assert (a + b)[..|a + b| - 1] == a + b[..|b| - 1];
      FirstIdsGrow(a, b[..|b| - 1]);
    }
  }

  /** A beginning of a list, filled up from the list. */
  function Filled(start: seq<string>, ids: seq<string>, k: nat): seq<string>
    requires k <= |ids|
  {
    if k <= |start| then start else ids[..k]
  }

  lemma FilledMore(start: seq<string>, ids: seq<string>, k: nat)
    requires k < |ids| && start <= ids && ids[k] !in ids[..k]
    ensures Filled(start, ids, k + 1) ==
            if ids[k] in Filled(start, ids, k) then Filled(start, ids, k) else Filled(start, ids, k) + [ids[k]]
  {
    if k < |start| {
      assert start[k] == ids[k];
    } else {
      assert ids[..k + 1] == ids[..k] + [ids[k]];
      if k == |start| { assert start == ids[..k]; }
    }
  }

  lemma {:induction false} FirstIdsFill(a: seq<Declaration>, b: seq<Declaration>, k: nat)
    requires k <= |b| && DistinctIds(b) && FirstIds(a) <= Ids(b)
    ensures FirstIds(a + b[..k]) == Filled(FirstIds(a), Ids(b), k)
  {
    hide *;
    IdsAt(b);
    if k == 0 {
      assert a + b[..0] == a;
      FilledNothing(FirstIds(a), Ids(b));
    } else {
      var n := k - 1;
      FirstIdsFill(a, b, n);
      OneMoreId(a, b, n);
      NewId(b, n);
      FilledMore(FirstIds(a), Ids(b), n);
    }
  }

  lemma FilledNothing(start: seq<string>, ids: seq<string>)
    ensures Filled(start, ids, 0) == start
  {
  }

  lemma OneMoreId(a: seq<Declaration>, b: seq<Declaration>, k: nat)
    requires k < |b|
    ensures var rest := FirstIds(a + b[..k]);
            FirstIds(a + b[..k + 1]) == if b[k].id in rest then rest else rest + [b[k].id]
  {
    var ds := a + b[..k + 1];
    assert ds[..|ds| - 1] == a + b[..k] && ds[|ds| - 1] == b[k];
  }

  lemma NewId(b: seq<Declaration>, k: nat)
    requires k < |b| && DistinctIds(b)
    ensures Ids(b)[k] == b[k].id && b[k].id !in Ids(b)[..k]
  {
    assert forall i | 0 <= i < k :: Ids(b)[..k][i] == b[i].id;
  }

  lemma FirstIdsOfBoth(a: seq<Declaration>, b: seq<Declaration>)
    requires DistinctIds(b)
    ensures FirstIds(a + b) == Ids(b) <==> FirstIds(a) <= Ids(b)
  {
    FirstIdsGrow(a, b);
    if FirstIds(a) <= Ids(b) {
      FirstIdsFill(a, b, |b|);
      assert b[..|b|] == b;
      assert |FirstIds(a)| == |Ids(b)| ==> FirstIds(a) == Ids(b);
    }
  }

  /** Without locks the decision is the first denial, or else the last declaration. */
  lemma WinnerAgrees(earlier: seq<Declaration>, last: seq<Declaration>, i: nat, w: Declaration)
    requires i < |last| && DistinctIds(last)
    requires Right(earlier + last, last[i].id, w)
    ensures Same(w, last[i]) <==> Agrees(earlier, last[i], false)
  {
    var ds, id, p := earlier + last, last[i].id, |earlier| + i;
    assert ds[p] == last[i];
    assert forall k | 0 <= k < |earlier| :: ds[k] == earlier[k];
    forall k | |earlier| <= k < |ds| && k != p
      ensures ds[k].id != id
    {
      assert ds[k] == last[k - |earlier|];
    }
    var j :| Decides(ds, id, j) && Same(ds[j], w);
    if j < |earlier| {
      assert ds[j] == earlier[j];
      assert ds[j].effect == Deny;
      assert NoDeny(earlier, j, id);
      DecidesEarly(earlier, last[i], j);
    } else {
      assert j == p;
      assert NoDeny(ds, j, id) || NoDeny(ds, |ds|, id);
      assert NoDeny(earlier, |earlier|, id);
    }
  }

  lemma DecidesEarly(earlier: seq<Declaration>, w: Declaration, j: nat)
    requires j < |earlier| && earlier[j].id == w.id && earlier[j].effect == Deny && NoDeny(earlier, j, w.id)
    ensures Agrees(earlier, w, false) <==> Same(earlier[j], w)
  {
    forall k | 0 <= k < |earlier| && earlier[k].id == w.id && earlier[k].effect == Deny && NoDeny(earlier, k, w.id)
      ensures k == j
    {
    }
  }

  /** Where everything is locked, merging succeeds exactly when no rule is declared in two ways. */
  lemma LockedMerges(ds: seq<Declaration>)
    requires Uniform(ds, true)
    ensures Run(ds).Some? <==> forall j, k | 0 <= j < k < |ds| && ds[j].id == ds[k].id :: Same(ds[j], ds[k])
  {
    MergingIsRight(ds);
    hide Run;
    if forall j, k | 0 <= j < k < |ds| && ds[j].id == ds[k].id :: Same(ds[j], ds[k]) {
      forall k
        ensures !Clash(ds, k)
      {
        NothingClashes(ds, k);
      }
    } else {
      var j, k :| 0 <= j < k < |ds| && ds[j].id == ds[k].id && !Same(ds[j], ds[k]);
      SomethingClashes(ds, j, k);
    }
  }

  lemma NothingClashes(ds: seq<Declaration>, k: int)
    requires forall i, j | 0 <= i < j < |ds| && ds[i].id == ds[j].id :: Same(ds[i], ds[j])
    ensures !Clash(ds, k)
  {
    if 0 <= k < |ds| {
      forall j | Decides(ds[..k], ds[k].id, j)
        ensures Same(ds[k], ds[j])
      {
        assert ds[..k][j] == ds[j];
      }
    }
  }

  lemma {:induction false} SomethingClashes(ds: seq<Declaration>, j: nat, k: nat)
    requires Uniform(ds, true) && j < k < |ds| && ds[j].id == ds[k].id && !Same(ds[j], ds[k])
    ensures exists c :: Clash(ds, c)
  {
    var front := ds[..k];
    assert forall i | 0 <= i < k :: front[i] == ds[i];
    assert Uniform(front, true) by { assert forall d | d in front :: d in ds; }
    if c :| Clash(front, c) {
      assert front[..c] == ds[..c];
      assert Clash(ds, c);
    } else {
      MergingIsRight(front);
      FirstIdsAreUnique(front);
      assert front[j].id == ds[k].id && Appears(front, ds[k].id);
      var w := Run(front).value.resolved[ds[k].id].declaration;
      assert RecordRight(front, ds[k].id, Run(front).value.resolved[ds[k].id]);
      var m :| Decides(front, ds[k].id, m) && Same(front[m], w);
      if Same(ds[k], front[m]) {
        if m < j { SomethingClashes(front, m, j); } else { assert m != j; SomethingClashes(front, j, m); }
      } else {
        assert front[m] in front && LockedAs(front, ds[k].id, front[m]);
        assert Clash(ds, k);
      }
    }
  }

  lemma UnlockedMerges(ds: seq<Declaration>)
    requires Uniform(ds, false)
    ensures Run(ds).Some?
  {
    MergingIsRight(ds);
    assert forall k | 0 <= k < |ds| :: !ds[k].locked;
    assert forall k, id, w | 0 <= k <= |ds| :: !LockedAs(ds[..k], id, w);
  }

  /** Of all declarations the last ones win exactly when the earlier ones anticipate them. */
  lemma LastOnesWin(earlier: seq<Declaration>, last: seq<Declaration>, locked: bool)
    requires Uniform(earlier, locked) && Uniform(last, locked) && DistinctIds(last)
    ensures Wins(earlier + last, last) <==> Anticipates(earlier, last, locked)
  {
    var ds := earlier + last;
    assert Uniform(ds, locked);
    FirstIdsOfBoth(earlier, last);
    MergingIsRight(ds);
    hide Uniform, DistinctIds, Right, Agrees;
    if locked { LockedMerges(ds); SayTheSame(earlier, last); } else { UnlockedMerges(ds); }
    if Run(ds).Some? && FirstIds(ds) == Ids(last) {
      var state := Run(ds).value;
      forall i | 0 <= i < |last|
        ensures last[i].id in state.resolved
        ensures Same(state.resolved[last[i].id].declaration, last[i]) <==> Agrees(earlier, last[i], locked)
      {
        assert Ids(last)[i] == last[i].id;
        assert RecordRight(ds, last[i].id, state.resolved[last[i].id]);
        var w := state.resolved[last[i].id].declaration;
        if locked { LockedWinner(earlier, last, i, w); } else { WinnerAgrees(earlier, last, i, w); }
      }
    }
  }

  /** Two declarations of one rule among the last ones are the same one, so only the earlier ones can differ. */
  lemma SayTheSame(earlier: seq<Declaration>, last: seq<Declaration>)
    requires DistinctIds(last) && (FirstIds(earlier + last) == Ids(last) <==> FirstIds(earlier) <= Ids(last))
    ensures var ds := earlier + last;
            Anticipates(earlier, last, true) ==>
              forall j, k | 0 <= j < k < |ds| && ds[j].id == ds[k].id :: Same(ds[j], ds[k])
  {
    var ds := earlier + last;
    if Anticipates(earlier, last, true) {
      FirstIdsAreUnique(ds);
      forall j, k | 0 <= j < k < |ds| && ds[j].id == ds[k].id
        ensures Same(ds[j], ds[k])
      {
        assert Appears(ds, ds[j].id);
        var i :| 0 <= i < |Ids(last)| && Ids(last)[i] == ds[j].id;
        SaysTheSame(earlier, last, i, j);
        SaysTheSame(earlier, last, i, k);
      }
    }
  }

  lemma SaysTheSame(earlier: seq<Declaration>, last: seq<Declaration>, i: nat, j: nat)
    requires i < |last| && DistinctIds(last) && Agrees(earlier, last[i], true)
    requires j < |earlier + last| && (earlier + last)[j].id == last[i].id
    ensures Same((earlier + last)[j], last[i])
  {
    if j < |earlier| {
      assert (earlier + last)[j] == earlier[j];
    } else {
      assert (earlier + last)[j] == last[j - |earlier|];
    }
  }

  lemma LockedWinner(earlier: seq<Declaration>, last: seq<Declaration>, i: nat, w: Declaration)
    requires i < |last| && Right(earlier + last, last[i].id, w)
    requires var ds := earlier + last; forall j, k | 0 <= j < k < |ds| && ds[j].id == ds[k].id :: Same(ds[j], ds[k])
    ensures Same(w, last[i]) && Agrees(earlier, last[i], true)
  {
    var ds, p := earlier + last, |earlier| + i;
    assert ds[p] == last[i];
    var j :| Decides(ds, last[i].id, j) && Same(ds[j], w);
    assert j == p || (j < p && Same(ds[j], ds[p])) || (p < j && Same(ds[p], ds[j]));
    forall k | 0 <= k < |earlier| && earlier[k].id == last[i].id
      ensures Same(earlier[k], last[i])
    {
      assert ds[k] == earlier[k] && Same(ds[k], ds[p]);
    }
  }

  // ---------------------------------------------------------------- the composed file

  /** What is read from two texts together is what is read from each. */
  ghost predicate Joined(whole: seq<Token>, first: seq<Token>, rest: seq<Token>) {
    && (Whole(whole) <==> Whole(first) && Whole(rest))
    && (Whole(first) ==> RulesOf(whole) == RulesOf(first) + RulesOf(rest))
  }

  /** Lines that do not begin with a bullet are read apart from what precedes them. */
  lemma {:induction false} TokensApart(g: Fragment, head: seq<string>, tail: seq<string>)
    requires tail == [] || !IsBullet(tail[0])
    ensures Joined(Tokens(g, head + tail), Tokens(g, head), Tokens(g, tail))
    decreases |head|
  {
    hide *;
    if head == [] {
      assert head + tail == tail;
      NothingJoined(g, Tokens(g, tail));
    } else if ReadMarker(head[0]).None? {
      TokensApart(g, head[1..], tail);
      Behind(head, tail, 1);
      TextApart(g, head, tail);
    } else if |head| == 1 || !IsBullet(head[1]) {
      MarkerAlone(g, head, tail);
    } else {
      TokensApart(g, head[2..], tail);
      Behind(head, tail, 2);
      RuleApart(g, head, tail);
    }
  }

  lemma Behind(head: seq<string>, tail: seq<string>, k: nat)
    requires k <= |head|
    ensures (head + tail)[k..] == head[k..] + tail
  {
  }

  lemma TextApart(g: Fragment, head: seq<string>, tail: seq<string>)
    requires head != [] && ReadMarker(head[0]).None?
    requires Joined(Tokens(g, (head + tail)[1..]), Tokens(g, head[1..]), Tokens(g, tail))
    ensures Joined(Tokens(g, head + tail), Tokens(g, head), Tokens(g, tail))
  {
    FirstToken(g, head + tail);
    FirstToken(g, head);
    hide ReadMarker, IsBullet, Tokens, Joined, Declared;
    FirstApart(Tokens(g, head + tail), Tokens(g, head), Tokens(g, tail));
  }

  lemma RuleApart(g: Fragment, head: seq<string>, tail: seq<string>)
    requires |head| >= 2 && ReadMarker(head[0]).Some? && IsBullet(head[1])
    requires Joined(Tokens(g, (head + tail)[2..]), Tokens(g, head[2..]), Tokens(g, tail))
    ensures Joined(Tokens(g, head + tail), Tokens(g, head), Tokens(g, tail))
  {
    FirstToken(g, head + tail);
    FirstToken(g, head);
    hide ReadMarker, IsBullet, Tokens, Joined, Declared;
    FirstApart(Tokens(g, head + tail), Tokens(g, head), Tokens(g, tail));
  }

  lemma MarkerAlone(g: Fragment, head: seq<string>, tail: seq<string>)
    requires head != [] && ReadMarker(head[0]).Some? && (|head| == 1 || !IsBullet(head[1]))
    requires tail == [] || !IsBullet(tail[0])
    ensures Joined(Tokens(g, head + tail), Tokens(g, head), Tokens(g, tail))
  {
    FirstToken(g, head + tail);
    FirstToken(g, head);
    hide ReadMarker, IsBullet, Tokens, Joined, Declared;
    assert |head| == 1 && tail != [] ==> (head + tail)[1] == tail[0];
    BothBroken(Tokens(g, head + tail), Tokens(g, head), Tokens(g, tail));
  }

  lemma NothingJoined(g: Fragment, rest: seq<Token>)
    ensures Joined(rest, Tokens(g, []), rest)
  {
    NothingRead(g);
    hide RulesOf, Whole, Tokens;
    assert [] + RulesOf(rest) == RulesOf(rest);
  }

  lemma BothBroken(whole: seq<Token>, first: seq<Token>, rest: seq<Token>)
    requires whole != [] && first != [] && whole[0].Broken? && first[0].Broken?
    ensures Joined(whole, first, rest)
  {
    WholeFirst(whole);
    WholeFirst(first);
    hide RulesOf, Whole;
  }

  /** Text, a rule with its bullet, or a marker without one. */
  lemma FirstToken(g: Fragment, lines: seq<string>)
    requires lines != []
    ensures var tokens := Tokens(g, lines);
            && tokens != []
            && match ReadMarker(lines[0])
               case None => tokens[0] == Text(lines[0]) && tokens[1..] == Tokens(g, lines[1..])
               case Some(marker) =>
                 if |lines| < 2 || !IsBullet(lines[1]) then tokens[0].Broken?
                 else tokens[0] == Rule(Declared(g, marker, lines[1])) && tokens[1..] == Tokens(g, lines[2..])
  {
    hide ReadMarker, IsBullet, Declared;
  }

  lemma FirstApart(whole: seq<Token>, first: seq<Token>, rest: seq<Token>)
    requires whole != [] && first != [] && whole[0] == first[0] && Joined(whole[1..], first[1..], rest)
    ensures Joined(whole, first, rest)
  {
    RulesFirst(whole);
    RulesFirst(first);
    WholeFirst(whole);
    WholeFirst(first);
    hide RulesOf, Whole;
    var a, b := RulesOf(first[1..]), RulesOf(rest);
    if Whole(first) {
      if first[0].Rule? { Regroup([first[0].declaration], a, b); } else { Regroup([], a, b); }
    }
  }

  lemma Regroup(a: seq<Declaration>, b: seq<Declaration>, c: seq<Declaration>)
    ensures a + (b + c) == (a + b) + c
  {
  }

  lemma {:induction false} TokensAreUniform(g: Fragment, lines: seq<string>)
    ensures Uniform(RulesOf(Tokens(g, lines)), g.locked)
    decreases |lines|
  {
    NothingRead(g);
    hide *;
    if lines == [] {
      NothingUniform(g.locked);
    } else {
      FirstToken(g, lines);
      if ReadMarker(lines[0]).None? {
        TokensAreUniform(g, lines[1..]);
        FirstUniform(g, Tokens(g, lines));
      } else if |lines| >= 2 && IsBullet(lines[1]) {
        TokensAreUniform(g, lines[2..]);
        DeclaredLocked(g, ReadMarker(lines[0]).value, lines[1]);
        FirstUniform(g, Tokens(g, lines));
      } else {
        BrokenEnds(g, lines);
        NothingUniform(g.locked);
        FirstUniform(g, Tokens(g, lines));
      }
    }
  }

  lemma NothingUniform(locked: bool)
    ensures Uniform([], locked) && RulesOf([]) == []
  {
  }

  lemma DeclaredLocked(g: Fragment, m: Marker, bullet: string)
    ensures Declared(g, m, bullet).locked == g.locked
  {
  }

  lemma BrokenEnds(g: Fragment, lines: seq<string>)
    requires lines != [] && ReadMarker(lines[0]).Some? && (|lines| < 2 || !IsBullet(lines[1]))
    ensures Tokens(g, lines)[1..] == []
  {
    hide ReadMarker, IsBullet;
  }

  lemma FirstUniform(g: Fragment, tokens: seq<Token>)
    requires tokens != [] && Uniform(RulesOf(tokens[1..]), g.locked)
    requires tokens[0].Rule? ==> tokens[0].declaration.locked == g.locked
    ensures Uniform(RulesOf(tokens), g.locked)
  {
    RulesFirst(tokens);
    hide RulesOf;
  }

  /** Read as one fragment, the text has the same effective rules, in the same order. */
  ghost predicate RulesComeBack(g: Fragment, effective: seq<Record>) {
    var ds := RulesOf(FragmentTokens(g));
    && Whole(FragmentTokens(g)) && Run(ds).Some? && Resolved(ds, Run(ds).value)
    && Alike(Effective(ds, Run(ds).value), effective)
  }

  lemma AlikeIsWinning(g: Fragment, ds: seq<Declaration>, effective: seq<Record>)
    requires Run(ds).Some? && Resolved(ds, Run(ds).value)
    ensures Alike(Effective(ds, Run(ds).value), effective) <==> Wins(ds, Redeclared(g, effective))
  {
    var state, last := Run(ds).value, Redeclared(g, effective);
    RedeclaredAt(g, effective);
    ListedAt(ds, state);
    hide Run, Redeclared, Resolved, FirstIds, Effective;
    IdsAt(last);
    var listed, ids := Effective(ds, state), FirstIds(ds);
    if Alike(listed, effective) { AlikeWins(ds, listed, last, state, effective); }
    if Wins(ds, last) { WinningIsAlike(ds, listed, last, state, effective); }
  }

  lemma IdsAt(ds: seq<Declaration>)
    ensures |Ids(ds)| == |ds| && forall i | 0 <= i < |ds| :: Ids(ds)[i] == ds[i].id
  {
  }

  lemma ListedAt(ds: seq<Declaration>, state: State)
    requires Resolved(ds, state)
    ensures Listed(ds, state, Effective(ds, state))
  {
    forall i | 0 <= i < |FirstIds(ds)|
      ensures Effective(ds, state)[i].declaration.id == FirstIds(ds)[i] && FirstIds(ds)[i] in state.resolved
    {
      OrderOf(ds, state, i);
    }
  }

  ghost predicate Listed(ds: seq<Declaration>, state: State, listed: seq<Record>) {
    && |listed| == |FirstIds(ds)|
    && forall i | 0 <= i < |listed| ::
         listed[i].declaration.id == FirstIds(ds)[i] && FirstIds(ds)[i] in state.resolved && listed[i] == state.resolved[FirstIds(ds)[i]]
  }

  ghost predicate LooksLike(last: seq<Declaration>, effective: seq<Record>) {
    && |last| == |effective| == |Ids(last)|
    && forall i | 0 <= i < |last| ::
         last[i].id == effective[i].declaration.id == Ids(last)[i] && last[i].effect == effective[i].declaration.effect
         && last[i].content == effective[i].declaration.content
  }

  lemma AlikeWins(ds: seq<Declaration>, listed: seq<Record>, last: seq<Declaration>, state: State, effective: seq<Record>)
    requires Run(ds) == Some(state) && Resolved(ds, state) && Listed(ds, state, listed) && LooksLike(last, effective)
    requires Alike(listed, effective)
    ensures Wins(ds, last)
  {
    hide Run, Resolved, FirstIds, Ids;
    assert forall i | 0 <= i < |last| :: FirstIds(ds)[i] == listed[i].declaration.id == last[i].id;
    assert FirstIds(ds) == Ids(last);
  }

  lemma WinningIsAlike(ds: seq<Declaration>, listed: seq<Record>, last: seq<Declaration>, state: State, effective: seq<Record>)
    requires Run(ds) == Some(state) && Listed(ds, state, listed) && LooksLike(last, effective) && Wins(ds, last)
    ensures Alike(listed, effective)
  {
    hide Run, Resolved, FirstIds, Ids;
    assert forall i | 0 <= i < |last| :: FirstIds(ds)[i] == Ids(last)[i];
  }

  lemma TailBegins(effective: seq<Record>)
    ensures TailLines(effective) == [] || !IsBullet(TailLines(effective)[0])
  {
    hide RuleLines, IsBullet;
    HashIsNoBullet("## Effective Rules");
  }

  lemma HashIsNoBullet(s: string)
    requires s != [] && s[0] == '#'
    ensures !IsBullet(s)
  {
    assert !IsSpace('#');
  }

  lemma RedeclaredIsUniform(g: Fragment, effective: seq<Record>)
    ensures Uniform(Redeclared(g, effective), g.locked)
  {
  }

  /** The same effective rules come back exactly when the part of the file before them is readable and what it
      declares anticipates them: it takes up a beginning of the list, in order, and agrees with it. */
  lemma RulesComeBackExactly(fragments: seq<Fragment>, g: Fragment)
    requires Mergeable(fragments) && g.content == ComposedFile(fragments)
    ensures var effective, head := EffectiveOf(fragments), Tokens(g, HeadOf(fragments));
            RulesComeBack(g, effective) <==>
              Whole(head) && Anticipates(RulesOf(head), Redeclared(g, effective), g.locked)
  {
    ComposedShape(fragments, g);
    hide *;
    var effective, head := EffectiveOf(fragments), HeadOf(fragments);
    var tail := TailLines(effective);
    TailTokens(g, effective);
    TailBegins(effective);
    TokensApart(g, head, tail);
    JoinedMeans(Tokens(g, head + tail), Tokens(g, head), Tokens(g, tail));
    TokensAreUniform(g, head);
    RedeclaredIsUniform(g, effective);
    if Whole(Tokens(g, head)) {
      var earlier := RulesOf(Tokens(g, head));
      LastOnesWin(earlier, Redeclared(g, effective), g.locked);
      WinningIsComingBack(g, earlier + Redeclared(g, effective), effective);
    } else if RulesComeBack(g, effective) {
      ComesBackWhole(g, effective);
    }
  }

  lemma JoinedMeans(whole: seq<Token>, first: seq<Token>, rest: seq<Token>)
    requires Joined(whole, first, rest)
    ensures Whole(whole) <==> Whole(first) && Whole(rest)
    ensures Whole(first) ==> RulesOf(whole) == RulesOf(first) + RulesOf(rest)
  {
  }

  lemma ComesBackWhole(g: Fragment, effective: seq<Record>)
    requires RulesComeBack(g, effective)
    ensures Whole(FragmentTokens(g))
  {
  }

  lemma TailTokens(g: Fragment, effective: seq<Record>)
    requires forall i | 0 <= i < |effective| :: Legible(effective[i].declaration)
    ensures Whole(Tokens(g, TailLines(effective)))
    ensures RulesOf(Tokens(g, TailLines(effective))) == Redeclared(g, effective)
  {
    hide Legible, Whole, RulesOf, Tokens, TailLines, Redeclared;
    TailReadsBack(g, [], effective);
    assert [] + TailLines(effective) == TailLines(effective);
  }

  lemma WinningIsComingBack(g: Fragment, ds: seq<Declaration>, effective: seq<Record>)
    requires ds == RulesOf(FragmentTokens(g)) && Whole(FragmentTokens(g))
    ensures RulesComeBack(g, effective) <==> Wins(ds, Redeclared(g, effective))
  {
    MergingIsRight(ds);
    hide RulesOf, Run, Whole, FragmentTokens, Redeclared, Alike, Resolved;
    if Run(ds).Some? { AlikeIsWinning(g, ds, effective); }
  }

  /** Reading back with nothing added is more than this. */
  lemma ReadingBackIsMore(g: Fragment, effective: seq<Record>)
    ensures ReadsBack(g, effective) ==> RulesComeBack(g, effective)
    ensures effective == [] ==> (ReadsBack(g, effective) <==> RulesComeBack(g, effective))
  {
    var ds := RulesOf(FragmentTokens(g));
    hide RulesOf, Run, FragmentTokens;
    if effective == [] && RulesComeBack(g, effective) {
      FirstIdsAreUnique(ds);
      assert ds != [] ==> Appears(ds, ds[0].id);
    }
  }

  /** A hidden marker without rules to anticipate breaks the weaker promise too. */
  lemma HiddenMarkerIsFatal(f: Fragment)
    requires HidesMarker(f.id) && f.content == "text\n"
    ensures Mergeable([f]) && EffectiveOf([f]) == []
    ensures forall g: Fragment | g.content == ComposedFile([f]) :: !RulesComeBack(g, [])
  {
    hide *;
    HeaderCanBeMarker(f);
    forall g: Fragment | g.content == ComposedFile([f])
      ensures !RulesComeBack(g, [])
    {
      ReadingBackIsMore(g, []);
    }
  }

  /** A rule that is declared twice in the same way wins as itself, so a header may repeat a rule. */
  lemma RepeatedRule(d: Declaration)
    ensures Wins([d, d], [d])
  {
    assert [d][..0] == [] && FirstIds([]) == [];
    assert FirstIds([d]) == [d.id] == Ids([d]);
    LastOnesWin([d], [d], d.locked);
    assert [d] + [d] == [d, d];
  }
}
