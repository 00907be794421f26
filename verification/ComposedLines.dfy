/** What the composed file says, from the lines of the fragments.

    A line is passed on when neither it nor the line above it is a rule marker.  The lines a fragment passes on
    stand below its header, without the blank lines and the white space at either end; a fragment that passes on
    nothing but blank lines is left out.  The effective rules follow, each as a marker and its bullet. */
module ComposedLines {
  import opened Wrappers
  import opened Order
  import opened TextLines
  import opened Rules
  import opened RuleReading
  import opened Instructions

  // ---------------------------------------------------------------- white space

  ghost predicate Blank(s: string) { forall i | 0 <= i < |s| :: IsSpace(s[i]) }

  lemma {:induction false} StripStartOver(a: string, s: string)
    requires Blank(a) && (s != [] ==> !IsSpace(s[0]))
    ensures StripStart(a + s) == s
  {
    if a == [] {
      assert a + s == s;
    } else {
      assert (a + s)[1..] == a[1..] + s;
      StripStartOver(a[1..], s);
    }
  }

  lemma {:induction false} StripEndOver(s: string, b: string)
    requires Blank(b) && (s != [] ==> !IsSpace(s[|s| - 1]))
    ensures StripEnd(s + b) == s
  {
    if b == [] {
      assert s + b == s;
    } else {
      assert (s + b)[..|s + b| - 1] == s + b[..|b| - 1];
      StripEndOver(s, b[..|b| - 1]);
    }
  }

  lemma {:induction false} StartIsBlank(s: string)
    ensures Blank(s[..|s| - |StripStart(s)|])
  {
    if s != [] && IsSpace(s[0]) {
      StartIsBlank(s[1..]);
      var r := StripStart(s[1..]);
      assert s[..|s| - |r|] == [s[0]] + s[1..][..|s| - 1 - |r|];
    }
  }

  lemma {:induction false} EndIsBlank(s: string)
    ensures Blank(s[|StripEnd(s)|..])
  {
    if s != [] && IsSpace(s[|s| - 1]) {
      var front := s[..|s| - 1];
      EndIsBlank(front);
      assert s[|StripEnd(front)|..] == front[|StripEnd(front)|..] + [s[|s| - 1]];
    }
  }

  /** Stripping takes away white space at both ends, all of it, and nothing else. */
  lemma StripTakesSpace(s: string)
    ensures Stripped(Strip(s))
    ensures exists a, b :: Blank(a) && Blank(b) && s == a + Strip(s) + b
  {
    var t := StripStart(s);
    var r := StripEnd(t);
    StripIsStripped(s);
    StartIsBlank(s);
    EndIsBlank(t);
    hide IsSpace, Blank, Stripped, StripStart, StripEnd;
    var a, b := s[..|s| - |t|], t[|r|..];
    assert t == r + b && s == a + t;
    assert s == a + r + b;
  }

  // ---------------------------------------------------------------- lines

  /** A character, or two, at which a line ends. */
  ghost predicate BreakText(s: string) { s == "\r\n" || (|s| == 1 && IsBreak(s[0])) }

  /** The lines with their breaks, one after another; only the last line may end without one. */
  ghost predicate Woven(s: string, lines: seq<string>, breaks: seq<string>)
    decreases |lines|
  {
    && |lines| == |breaks|
    && if lines == [] then s == ""
       else
         && OneLine(lines[0]) && |lines[0]| + |breaks[0]| <= |s|
         && s[..|lines[0]| + |breaks[0]|] == lines[0] + breaks[0]
         && (BreakText(breaks[0]) || (breaks[0] == "" && lines[0] != "" && |lines| == 1))
         && (breaks[0] == "\r" ==> !("\n" <= s[|lines[0]| + 1..]))
         && Woven(s[|lines[0]| + |breaks[0]|..], lines[1..], breaks[1..])
  }

  /** Splitting cuts a text at its line breaks and loses nothing else. */
  lemma {:induction false} SplitCutsAtBreaks(s: string) returns (breaks: seq<string>)
    ensures Woven(s, SplitLines(s), breaks)
    decreases |s|
  {
    if s == [] {
      breaks := [];
    } else {
      var n, m := LineEnd(s), NextLine(s);
      var rest := SplitCutsAtBreaks(s[m..]);
      FirstBreak(s);
      SplitStep(s);
      hide *;
      breaks := [s[n..m]] + rest;
      if n == |s| { NoLines(); }
      OneMoreLine(s, n, m, SplitLines(s[m..]), rest);
    }
  }

  lemma OneMoreLine(s: string, n: nat, m: nat, lines: seq<string>, breaks: seq<string>)
    requires n <= m <= |s| && OneLine(s[..n]) && Woven(s[m..], lines, breaks)
    requires n < |s| ==> BreakText(s[n..m]) && (s[n..m] == "\r" ==> !("\n" <= s[n + 1..]))
    requires n == |s| ==> n > 0 && lines == []
    ensures Woven(s, [s[..n]] + lines, [s[n..m]] + breaks)
  {
    hide OneLine, BreakText;
    var all, more := [s[..n]] + lines, [s[n..m]] + breaks;
    assert all[0] == s[..n] && all[1..] == lines && more[0] == s[n..m] && more[1..] == breaks;
    assert |all[0]| == n && |more[0]| == m - n && s[..m] == s[..n] + s[n..m];
    assert Woven(s[m..], all[1..], more[1..]);
  }

  /** Between the first line and the next one is a break, unless the text ends. */
  lemma FirstBreak(s: string)
    requires s != []
    ensures var n, m := LineEnd(s), NextLine(s);
            && OneLine(s[..n]) && (n == |s| ==> m == n && n > 0)
            && (n < |s| ==> BreakText(s[n..m]) && (s[n..m] == "\r" ==> !("\n" <= s[n + 1..])))
  {
    var n, m := LineEnd(s), NextLine(s);
    NextLineIs(s, n);
    assert OneLine(s[..n]);
    hide IsBreak, LineEnd, NextLine, OneLine;
    if n < |s| {
      assert IsBreak(s[n]);
      BreakAt(s, n, m);
    }
  }

  lemma BreakAt(s: string, n: nat, m: nat)
    requires n < |s| && IsBreak(s[n])
    requires m == if s[n] == '\r' && n + 1 < |s| && s[n + 1] == '\n' then n + 2 else n + 1
    ensures BreakText(s[n..m]) && (s[n..m] == "\r" ==> !("\n" <= s[n + 1..]))
  {
    hide IsBreak;
    if m == n + 2 {
      assert s[n..m] == "\r\n";
    } else {
      assert s[n..m] == [s[n]];
      assert n + 1 < |s| ==> s[n + 1..][0] == s[n + 1];
    }
  }

  // ---------------------------------------------------------------- markers

  /** A line that is a rule marker: a comment with a rule's id and effect in it. */
  ghost predicate IsMarker(line: string, id: string, effect: Effect) {
    exists a, b, c :: MarkerWith(Strip(line), id, effect, a, b, c)
  }

  ghost predicate MarkerWith(s: string, id: string, effect: Effect, a: string, b: string, c: string) {
    && Blank(a) && Blank(b) && b != "" && Blank(c) && RuleId(id)
    && s == "<!--" + (a + ("rule:" + (id + (b + ("effect=" + ((if effect == Allow then "allow" else "deny") + (c + "-->")))))))
  }

  /** A letter or digit, and then letters, digits, points, underscores and hyphens. */
  ghost predicate RuleId(id: string) {
    && id != "" && id[0] !in "._-"
    && forall i | 0 <= i < |id| ::
         'a' <= id[i] <= 'z' || 'A' <= id[i] <= 'Z' || '0' <= id[i] <= '9' || id[i] in "._-"
  }

  lemma RuleIdIsValid(id: string)
    ensures RuleId(id) <==> ValidId(id)
  {
    assert forall c: char :: c in "._-" <==> c == '.' || c == '_' || c == '-';
  }

  function EffectName(effect: Effect): string { if effect == Allow then "allow" else "deny" }

  lemma SpacedOut(s: string) returns (a: string)
    ensures Blank(a) && s == a + StripStart(s)
    ensures a != "" <==> StripStart(s) != s
  {
    StartIsBlank(s);
    var r := StripStart(s);
    a := s[..|s| - |r|];
    assert s == a + r;
  }

  ghost predicate TailWith(s: string, effect: Effect, c: string) {
    Blank(c) && s == "effect=" + (EffectName(effect) + (c + "-->"))
  }

  ghost predicate NameWith(s: string, id: string, effect: Effect, b: string, c: string) {
    Blank(b) && b != "" && Blank(c) && ValidId(id) && s == "rule:" + (id + (b + ("effect=" + (EffectName(effect) + (c + "-->")))))
  }

  lemma TailHasShape(s: string, id: string, effect: Effect) returns (c: string)
    requires ReadTail(id, s) == Some(Marker(id, effect))
    ensures TailWith(s, effect, c)
  {
    hide StripStart, ReadEffect;
    var t := Dropped("effect=", s).value;
    var u := ReadEffect(t).value.1;
    EffectHasShape(t, effect, u);
    assert s == "effect=" + t;
    hide Dropped;
    c := SpacedOut(u);
  }

  lemma EffectHasShape(t: string, effect: Effect, u: string)
    requires ReadEffect(t) == Some((effect, u))
    ensures t == EffectName(effect) + u
  {
  }

  lemma TailIsRead(s: string, id: string, effect: Effect, c: string)
    requires Blank(c) && s == "effect=" + (EffectName(effect) + (c + "-->"))
    ensures ReadTail(id, s) == Some(Marker(id, effect))
  {
    var u := c + "-->";
    StripStartOver(c, "-->");
    DroppedPrefix("effect=", EffectName(effect) + u);
    EffectIsRead(effect, u);
    hide StripStart, ReadEffect, Dropped;
  }

  lemma EffectIsRead(effect: Effect, u: string)
    ensures ReadEffect(EffectName(effect) + u) == Some((effect, u))
  {
    var s := EffectName(effect) + u;
    assert s[|EffectName(effect)|..] == u;
    assert effect == Deny ==> s[0] == 'd';
  }

  lemma NameHasShape(s: string, id: string, effect: Effect) returns (b: string, c: string)
    requires ReadName(s) == Some(Marker(id, effect))
    ensures NameWith(s, id, effect, b, c)
  {
    hide ReadTail, ValidId, IdLength, StripStart;
    var t := Dropped("rule:", s).value;
    assert s == "rule:" + t;
    var n := IdLength(t);
    var spaced := t[n..];
    TailKeepsId(t[..n], StripStart(spaced));
    assert t == id + spaced && ValidId(id) && StripStart(spaced) != spaced;
    hide ReadName, Dropped;
    c := TailHasShape(StripStart(spaced), id, effect);
    b := SpacedOut(spaced);
  }

  lemma TailKeepsId(id: string, s: string)
    ensures ReadTail(id, s).Some? ==> ReadTail(id, s).value.id == id
  {
  }

  lemma NameIsRead(s: string, id: string, effect: Effect, b: string, c: string)
    requires Blank(b) && b != "" && Blank(c) && ValidId(id)
    requires s == "rule:" + (id + (b + ("effect=" + (EffectName(effect) + (c + "-->")))))
    ensures ReadName(s) == Some(Marker(id, effect))
  {
    var tail := "effect=" + (EffectName(effect) + (c + "-->"));
    assert tail[0] == 'e' && !IsSpace('e');
    StripStartOver(b, tail);
    TailIsRead(tail, id, effect, c);
    DroppedPrefix("rule:", id + (b + tail));
    IdThenSpace(id, b, tail);
    hide StripStart, ReadTail, IdLength, ValidId, Dropped, IsSpace, Blank, EffectName;
    assert (id + (b + tail))[..|id|] == id && (id + (b + tail))[|id|..] == b + tail;
    assert |b + tail| != |tail|;
  }

  lemma IdThenSpace(id: string, b: string, tail: string)
    requires ValidId(id) && Blank(b) && b != ""
    ensures IdLength(id + (b + tail)) == |id|
  {
    assert (b + tail)[0] == b[0] && IsSpace(b[0]);
    IdLengthIs(id + (b + tail), |id|);
  }

  /** The marker that is read is the one the line spells. */
  lemma MarkerByShape(line: string, id: string, effect: Effect)
    ensures ReadMarker(line) == Some(Marker(id, effect)) <==> IsMarker(line, id, effect)
  {
    if ReadMarker(line) == Some(Marker(id, effect)) { MarkerHasShape(line, id, effect); }
    if IsMarker(line, id, effect) { MarkerIsRead(line, id, effect); }
  }

  lemma MarkerHasShape(line: string, id: string, effect: Effect)
    requires ReadMarker(line) == Some(Marker(id, effect))
    ensures IsMarker(line, id, effect)
  {
    hide ReadName, StripStart, Strip, ValidId;
    var s := Strip(line);
    var inner := s[4..];
    var b, c := NameHasShape(StripStart(inner), id, effect);
    var a := SpacedOut(inner);
    RuleIdIsValid(id);
    hide RuleId;
    assert s == "<!--" + inner;
    assert MarkerWith(s, id, effect, a, b, c);
  }

  lemma MarkerIsRead(line: string, id: string, effect: Effect)
    requires IsMarker(line, id, effect)
    ensures ReadMarker(line) == Some(Marker(id, effect))
  {
    hide RuleId;
    var a, b, c :| MarkerWith(Strip(line), id, effect, a, b, c);
    RuleIdIsValid(id);
    hide ValidId;
    var name := "rule:" + (id + (b + ("effect=" + (EffectName(effect) + (c + "-->")))));
    assert name[0] == 'r' && !IsSpace('r');
    hide ReadName, StripStart, Strip, Dropped, IsSpace, Blank, EffectName;
    StripStartOver(a, name);
    NameIsRead(name, id, effect, b, c);
    DroppedPrefix("<!--", a + name);
  }

  ghost predicate IsMarkerLine(line: string) { exists id, effect :: IsMarker(line, id, effect) }

  lemma MarkerLineIsRead(line: string)
    ensures IsMarkerLine(line) <==> ReadMarker(line).Some?
  {
    hide ReadMarker, IsMarker;
    if ReadMarker(line).Some? {
      var m := ReadMarker(line).value;
      MarkerByShape(line, m.id, m.effect);
    }
    if id, effect :| IsMarker(line, id, effect) { MarkerByShape(line, id, effect); }
  }

  // ---------------------------------------------------------------- lines that are passed on

  /** Neither the line nor the one above it is a marker. */
  ghost predicate PassesOn(lines: seq<string>, k: int)
    requires 0 <= k < |lines|
  {
    !IsMarkerLine(lines[k]) && (k > 0 ==> !IsMarkerLine(lines[k - 1]))
  }

  /** The lines that are passed on, in order. */
  ghost function PassedLines(lines: seq<string>): seq<string> {
    if lines == [] then []
    else
      var n := |lines| - 1;
      PassedLines(lines[..n]) + if PassesOn(lines, n) then [lines[n]] else []
  }

  lemma {:induction false} PassedApart(lines: seq<string>, n: nat)
    requires n <= |lines| && (0 < n < |lines| ==> !IsMarkerLine(lines[n - 1]))
    ensures PassedLines(lines) == PassedLines(lines[..n]) + PassedLines(lines[n..])
  {
    hide IsMarkerLine;
    if n == |lines| {
      assert lines[..n] == lines && lines[n..] == [];
    } else {
      var last := |lines| - 1;
      var front := lines[..last];
      PassedApart(front, n);
      assert front[..n] == lines[..n] && lines[n..][..last - n] == front[n..];
      assert PassesOn(lines, last) <==> PassesOn(lines[n..], last - n);
    }
  }

  lemma OnePassed(line: string)
    ensures PassedLines([line]) == if IsMarkerLine(line) then [] else [line]
  {
    assert [line][..0] == [];
  }

  lemma RulePassesNothing(marker: string, bullet: string)
    requires IsMarkerLine(marker)
    ensures PassedLines([marker, bullet]) == []
  {
    hide IsMarkerLine;
    var lines := [marker, bullet];
    assert lines[..1] == [marker];
    OnePassed(marker);
  }

  /** What the text of a fragment is made of. */
  lemma {:induction false} TextIsPassed(f: Fragment, lines: seq<string>)
    requires Whole(Tokens(f, lines))
    ensures TextOf(Tokens(f, lines)) == PassedLines(lines)
    decreases |lines|
  {
    hide ReadMarker, IsBullet, TextOf, Strip, PassedLines, IsMarkerLine;
    if lines == [] {
      NoText();
      NonePassed();
    } else {
      var tokens := Tokens(f, lines);
      TextFirst(tokens);
      MarkerLineIsRead(lines[0]);
      assert forall t | t in tokens[1..] :: t in tokens;
      if ReadMarker(lines[0]).None? {
        assert tokens[1..] == Tokens(f, lines[1..]);
        TextIsPassed(f, lines[1..]);
        PassedApart(lines, 1);
        OnePassed(lines[0]);
        assert lines[..1] == [lines[0]];
      } else {
        assert tokens[0] in tokens;
        assert tokens[1..] == Tokens(f, lines[2..]);
        TextIsPassed(f, lines[2..]);
        BulletIsNoMarker(lines[1]);
        MarkerLineIsRead(lines[1]);
        PassedApart(lines, 2);
        RulePassesNothing(lines[0], lines[1]);
        assert lines[..2] == [lines[0], lines[1]];
      }
    }
  }

  lemma NonePassed()
    ensures PassedLines([]) == []
  {
  }

  // ---------------------------------------------------------------- lines that declare a rule

  /** White space, a hyphen, and anything. */
  ghost predicate StartsWithHyphen(line: string) {
    exists i :: 0 <= i < |line| && line[i] == '-' && Blank(line[..i])
  }

  lemma BulletByShape(line: string)
    ensures IsBullet(line) <==> StartsWithHyphen(line)
  {
    StartIsBlank(line);
    var r := StripStart(line);
    assert r != [] ==> line[|line| - |r|] == r[0];
    if StartsWithHyphen(line) {
      var i :| 0 <= i < |line| && line[i] == '-' && Blank(line[..i]);
      assert !IsSpace('-');
      assert line == line[..i] + line[i..];
      StripStartOver(line[..i], line[i..]);
    }
  }

  /** Every marker has its bullet on the next line. */
  ghost predicate AllBulleted(lines: seq<string>) {
    forall k | 0 <= k < |lines| && IsMarkerLine(lines[k]) :: k + 1 < |lines| && StartsWithHyphen(lines[k + 1])
  }

  lemma {:induction false} WholeIsBulleted(f: Fragment, lines: seq<string>)
    ensures Whole(Tokens(f, lines)) <==> AllBulleted(lines)
    decreases |lines|
  {
    hide ReadMarker, IsBullet, Strip, IsMarkerLine, StartsWithHyphen;
    if lines != [] {
      var tokens := Tokens(f, lines);
      MarkerLineIsRead(lines[0]);
      if |lines| > 1 { BulletByShape(lines[1]); }
      if ReadMarker(lines[0]).None? {
        WholeIsBulleted(f, lines[1..]);
        assert tokens == [tokens[0]] + Tokens(f, lines[1..]);
        BulletedApart(lines, 1);
      } else if |lines| < 2 || !IsBullet(lines[1]) {
        assert tokens == [tokens[0]] && tokens[0].Broken?;
        assert tokens[0] in tokens;
      } else {
        WholeIsBulleted(f, lines[2..]);
        assert tokens == [tokens[0]] + Tokens(f, lines[2..]);
        BulletIsNoMarker(lines[1]);
        MarkerLineIsRead(lines[1]);
        BulletedApart(lines, 2);
      }
    }
  }

  lemma BulletedApart(lines: seq<string>, n: nat)
    requires 0 < n <= |lines| && !IsMarkerLine(lines[n - 1])
    requires forall k | 0 <= k < n && IsMarkerLine(lines[k]) :: k + 1 < |lines| && StartsWithHyphen(lines[k + 1])
    ensures AllBulleted(lines) <==> AllBulleted(lines[n..])
  {
    hide IsMarkerLine, StartsWithHyphen;
    var rest := lines[n..];
    assert forall k | 0 <= k < |rest| :: rest[k] == lines[n + k];
    if AllBulleted(rest) {
      forall k | 0 <= k < |lines| && IsMarkerLine(lines[k])
        ensures k + 1 < |lines| && StartsWithHyphen(lines[k + 1])
      {
        if k >= n { assert rest[k - n] == lines[k] && rest[k - n + 1] == lines[k + 1]; }
      }
    }
    if AllBulleted(lines) {
      forall k | 0 <= k < |rest| && IsMarkerLine(rest[k])
        ensures k + 1 < |rest| && StartsWithHyphen(rest[k + 1])
      {
        assert IsMarkerLine(lines[n + k]);
        assert rest[k + 1] == lines[n + k + 1];
      }
    }
  }

  /** One declaration for each marker, in order: its content is the line below without the space around it, and
      the rest comes from the fragment. */
  ghost function DeclaredRules(f: Fragment, lines: seq<string>): seq<Declaration> {
    if |lines| < 2 then []
    else
      var n := |lines| - 1;
      var marker := ReadMarker(lines[n - 1]);
      DeclaredRules(f, lines[..n]) +
      if marker.None? then []
      else [Declaration(marker.value.id, marker.value.effect, Strip(lines[n]), f.locked, f.package, f.scope)]
  }

  lemma {:induction false} DeclaredApart(f: Fragment, lines: seq<string>, n: nat)
    requires 0 < n <= |lines| && ReadMarker(lines[n - 1]).None?
    ensures DeclaredRules(f, lines) == DeclaredRules(f, lines[..n]) + DeclaredRules(f, lines[n..])
  {
    hide ReadMarker, Strip;
    if n == |lines| {
      assert lines[..n] == lines && lines[n..] == [];
    } else {
      var last := |lines| - 1;
      var front, rest := lines[..last], lines[n..];
      DeclaredApart(f, front, n);
      assert front[..n] == lines[..n] && rest[..last - n] == front[n..];
      if |rest| < 2 {
        assert rest[..last - n] == [];
      } else {
        assert rest[last - n] == lines[last] && rest[last - n - 1] == lines[last - 1];
      }
    }
  }

  /** The rules of a fragment are the ones its markers declare. */
  lemma {:induction false} RulesAreDeclared(f: Fragment, lines: seq<string>)
    requires Whole(Tokens(f, lines))
    ensures RulesOf(Tokens(f, lines)) == DeclaredRules(f, lines)
    decreases |lines|
  {
    hide ReadMarker, IsBullet, RulesOf, Strip, DeclaredRules;
    if lines == [] {
      NothingToCount();
      NothingDeclared(f, lines);
    } else {
      var tokens := Tokens(f, lines);
      RulesFirst(tokens);
      assert forall t | t in tokens[1..] :: t in tokens;
      if ReadMarker(lines[0]).None? {
        assert tokens[1..] == Tokens(f, lines[1..]);
        RulesAreDeclared(f, lines[1..]);
        DeclaredApart(f, lines, 1);
        NothingDeclared(f, lines[..1]);
      } else {
        assert tokens[0] in tokens;
        assert tokens[1..] == Tokens(f, lines[2..]);
        RulesAreDeclared(f, lines[2..]);
        BulletIsNoMarker(lines[1]);
        DeclaredApart(f, lines, 2);
        OneDeclared(f, lines[..2]);
      }
    }
  }

  lemma NothingDeclared(f: Fragment, lines: seq<string>)
    requires |lines| < 2
    ensures DeclaredRules(f, lines) == []
  {
  }

  lemma OneDeclared(f: Fragment, lines: seq<string>)
    requires |lines| == 2 && ReadMarker(lines[0]).Some?
    ensures var m := ReadMarker(lines[0]).value;
            DeclaredRules(f, lines) == [Declaration(m.id, m.effect, Strip(lines[1]), f.locked, f.package, f.scope)]
  {
    hide ReadMarker, Strip;
    assert DeclaredRules(f, lines[..1]) == [];
  }

  // ---------------------------------------------------------------- what remains of them

  ghost predicate AllBlank(lines: seq<string>) { forall i | 0 <= i < |lines| :: Blank(lines[i]) }

  /** `body` is what remains of the lines from `a` up to `b` when the blank lines around them go, and the white
      space before the first and behind the last. */
  ghost predicate Remains(lines: seq<string>, a: nat, b: nat, body: seq<string>) {
    && a < b <= |lines| && |body| == b - a
    && AllBlank(lines[..a]) && AllBlank(lines[b..]) && !Blank(lines[a]) && !Blank(lines[b - 1])
    && forall k | 0 <= k < |body| ::
         body[k] == Clipped(lines[a + k], k == 0, k == |body| - 1)
  }

  function Clipped(line: string, first: bool, last: bool): string {
    var s := if first then StripStart(line) else line;
    if last then StripEnd(s) else s
  }

  lemma {:induction false} BlankStart(s: string)
    ensures Blank(s) <==> StripStart(s) == ""
  {
    hide IsSpace, Blank;
    BlankAtFirst(s);
    if s != [] && IsSpace(s[0]) { BlankStart(s[1..]); }
  }

  lemma BlankAtFirst(s: string)
    ensures Blank(s) <==> s == [] || (IsSpace(s[0]) && Blank(s[1..]))
    ensures Blank(s) <==> s == [] || (IsSpace(s[|s| - 1]) && Blank(s[..|s| - 1]))
  {
    hide IsSpace;
    if s != [] { assert s == [s[0]] + s[1..] && s == s[..|s| - 1] + [s[|s| - 1]]; }
  }

  lemma {:induction false} BlankEnd(s: string)
    ensures Blank(s) <==> StripEnd(s) == ""
  {
    hide IsSpace, Blank;
    BlankAtFirst(s);
    if s != [] && IsSpace(s[|s| - 1]) { BlankEnd(s[..|s| - 1]); }
  }

  lemma JoinFirst(lines: seq<string>)
    requires |lines| > 1
    ensures Join(lines) == lines[0] + "\n" + Join(lines[1..])
  {
  }

  lemma {:induction false} JoinLast(lines: seq<string>)
    requires |lines| > 1
    ensures Join(lines) == Join(lines[..|lines| - 1]) + "\n" + lines[|lines| - 1]
  {
    var n := |lines| - 1;
    if n == 1 {
      assert lines[..1] == [lines[0]] && lines[1..] == [lines[1]];
    } else {
      JoinLast(lines[1..]);
      assert lines[1..][..n - 1] == lines[..n][1..];
      var middle := Join(lines[1..][..n - 1]);
      assert Join(lines[..n]) == lines[0] + "\n" + middle;
      assert lines[0] + "\n" + (middle + "\n" + lines[n]) == (lines[0] + "\n" + middle) + "\n" + lines[n];
    }
  }

  /** Stripping joined lines at their start: blank lines go, and the first other line is stripped. */
  lemma {:induction false} StartOfJoined(lines: seq<string>, a: nat)
    requires a < |lines| && AllBlank(lines[..a]) && !Blank(lines[a])
    ensures StripStart(Join(lines)) == Join([StripStart(lines[a])] + lines[a + 1..])
    decreases a
  {
    hide Join, StripStart, Blank;
    if a == 0 {
      FirstStripped(lines);
    } else {
      JoinFirst(lines);
      assert lines[..a][0] == lines[0];
      assert lines[1..][..a - 1] == lines[..a][1..] && lines[1..][a..] == lines[a + 1..];
      StartOfJoined(lines[1..], a - 1);
      BlankWithBreak(lines[0]);
      BlankGoes(lines[0] + "\n", Join(lines[1..]));
    }
  }

  lemma BlankWithBreak(s: string)
    requires Blank(s)
    ensures Blank(s + "\n") && Blank("\n" + s)
  {
  }

  lemma FirstStripped(lines: seq<string>)
    requires lines != [] && !Blank(lines[0])
    ensures StripStart(Join(lines)) == Join([StripStart(lines[0])] + lines[1..])
  {
    hide *;
    var first, r := FirstWord(lines[0]);
    StrippedFirst(first, r, lines);
  }

  lemma FirstWord(line: string) returns (space: string, r: string)
    requires !Blank(line)
    ensures Blank(space) && r == StripStart(line) && line == space + r && r != [] && !IsSpace(r[0])
  {
    BlankStart(line);
    hide IsSpace, Blank;
    space := SpacedOut(line);
    r := StripStart(line);
  }

  lemma StrippedFirst(space: string, r: string, lines: seq<string>)
    requires lines != [] && lines[0] == space + r && Blank(space) && r != [] && !IsSpace(r[0])
    ensures StripStart(Join(lines)) == Join([r] + lines[1..])
  {
    hide IsSpace, Blank, StripStart, Join;
    var more := [r] + lines[1..];
    if |lines| > 1 {
      JoinFirst(lines);
      JoinFirst(more);
      assert more[1..] == lines[1..];
      assert Join(lines) == space + Join(more);
    } else {
      assert lines == [lines[0]] && more == [r];
      JoinOne(lines[0]);
      JoinOne(r);
    }
    assert Join(more)[0] == r[0];
    StripStartOver(space, Join(more));
  }

  lemma JoinOne(line: string)
    ensures Join([line]) == line
  {
  }

  lemma {:induction false} BlankGoes(a: string, s: string)
    requires Blank(a)
    ensures StripStart(a + s) == StripStart(s)
  {
    hide IsSpace, StripStart, Blank;
    if a == [] {
      assert a + s == s;
    } else {
      BlankParts(a);
      SpaceGoes(a[0], a[1..] + s);
      assert a + s == [a[0]] + (a[1..] + s);
      BlankGoes(a[1..], s);
    }
  }

  lemma BlankParts(a: string)
    requires Blank(a) && a != []
    ensures IsSpace(a[0]) && Blank(a[1..])
  {
    hide IsSpace;
  }

  lemma SpaceGoes(c: char, s: string)
    requires IsSpace(c)
    ensures StripStart([c] + s) == StripStart(s)
  {
    assert ([c] + s)[1..] == s;
  }

  lemma {:induction false} BlankGoesAtEnd(s: string, b: string)
    requires Blank(b)
    ensures StripEnd(s + b) == StripEnd(s)
  {
    if b == [] {
      assert s + b == s;
    } else {
      var front := b[..|b| - 1];
      BlankGoesAtEnd(s, front);
      assert (s + b)[..|s + b| - 1] == s + front;
    }
  }

  /** The same at their end. */
  lemma {:induction false} EndOfJoined(lines: seq<string>, b: nat)
    requires 0 < b <= |lines| && AllBlank(lines[b..]) && !Blank(lines[b - 1])
    ensures StripEnd(Join(lines)) == Join(lines[..b - 1] + [StripEnd(lines[b - 1])])
    decreases |lines| - b
  {
    hide Join, StripEnd, Blank;
    var n := |lines| - 1;
    if b == |lines| {
      LastStripped(lines);
    } else {
      JoinLast(lines);
      assert lines[b..][n - b] == lines[n];
      assert lines[..n][b..] == lines[b..][..n - b] && lines[..n][..b - 1] == lines[..b - 1];
      EndOfJoined(lines[..n], b);
      BlankWithBreak(lines[n]);
      BlankGoesAtEnd(Join(lines[..n]), "\n" + lines[n]);
      assert Join(lines[..n]) + "\n" + lines[n] == Join(lines[..n]) + ("\n" + lines[n]);
    }
  }

  lemma LastStripped(lines: seq<string>)
    requires lines != [] && !Blank(lines[|lines| - 1])
    ensures StripEnd(Join(lines)) == Join(lines[..|lines| - 1] + [StripEnd(lines[|lines| - 1])])
  {
    hide *;
    var r, last := LastWord(lines[|lines| - 1]);
    StrippedLast(r, last, lines);
  }

  lemma LastWord(line: string) returns (r: string, space: string)
    requires !Blank(line)
    ensures Blank(space) && r == StripEnd(line) && line == r + space && r != [] && !IsSpace(r[|r| - 1])
  {
    BlankEnd(line);
    EndIsBlank(line);
    hide IsSpace, Blank;
    r := StripEnd(line);
    space := line[|r|..];
  }

  lemma StrippedLast(r: string, space: string, lines: seq<string>)
    requires lines != [] && lines[|lines| - 1] == r + space && Blank(space) && r != [] && !IsSpace(r[|r| - 1])
    ensures StripEnd(Join(lines)) == Join(lines[..|lines| - 1] + [r])
  {
    hide *;
    var n := |lines| - 1;
    var front, more := lines[..n], lines[..n] + [r];
    if n > 0 {
      JoinLast(lines);
      JoinLast(more);
      assert more[..n] == front;
      LastEnds(Join(front) + "\n", r, space);
    } else {
      assert lines == [lines[0]] && more == [r];
      JoinOne(lines[0]);
      JoinOne(r);
      LastEnds("", r, space);
      assert "" + r == r && "" + (r + space) == r + space;
    }
  }

  lemma LastEnds(before: string, r: string, space: string)
    requires Blank(space) && r != [] && !IsSpace(r[|r| - 1])
    ensures StripEnd(before + (r + space)) == before + r
  {
    hide IsSpace, Blank, StripEnd;
    assert before + (r + space) == (before + r) + space;
    assert (before + r)[|before + r| - 1] == r[|r| - 1];
    StripEndOver(before + r, space);
  }

  lemma {:induction false} BlankJoined(lines: seq<string>)
    ensures Blank(Join(lines)) <==> AllBlank(lines)
  {
    hide IsSpace;
    if |lines| > 1 {
      JoinFirst(lines);
      BlankJoined(lines[1..]);
      BlankSum(lines[0] + "\n", Join(lines[1..]));
      BlankSum(lines[0], "\n");
      BlankWithBreak("");
      assert "" + "\n" == "\n";
      assert AllBlank(lines) <==> Blank(lines[0]) && AllBlank(lines[1..]) by { assert lines == [lines[0]] + lines[1..]; }
    }
  }

  lemma BlankSum(a: string, b: string)
    ensures Blank(a + b) <==> Blank(a) && Blank(b)
  {
    hide IsSpace;
    assert forall i | 0 <= i < |a| :: (a + b)[i] == a[i];
    assert forall i | 0 <= i < |b| :: (a + b)[|a| + i] == b[i];
  }

  lemma BlankStrips(s: string)
    ensures Strip(s) == "" <==> Blank(s)
  {
    BlankStart(s);
    BlankEnd(StripStart(s));
    BlankStart(StripStart(s));
    StripStartAgain(s);
  }

  lemma StripStartAgain(s: string)
    ensures StripStart(StripStart(s)) == StripStart(s)
  {
  }

  /** Joined and stripped, lines that are not all blank are what remains of them, joined. */
  lemma StrippedRemains(lines: seq<string>) returns (a: nat, b: nat, body: seq<string>)
    requires !AllBlank(lines)
    ensures Remains(lines, a, b, body) && Strip(Join(lines)) == Join(body)
  {
    a := FirstText(lines);
    b := LastText(lines);
    assert a < b by { TextOverlaps(lines, a, b); }
    var mid := [StripStart(lines[a])] + lines[a + 1..];
    StillText(lines[a]);
    MiddleEnds(lines, mid, a, b);
    hide IsSpace, Blank, StripStart, StripEnd, Join, AllBlank;
    StartOfJoined(lines, a);
    EndOfJoined(mid, b - a);
    body := mid[..b - a - 1] + [StripEnd(mid[b - a - 1])];
    BodyRemains(lines, mid, a, b, body);
  }

  lemma TextOverlaps(lines: seq<string>, a: nat, b: nat)
    requires a < |lines| && 0 < b <= |lines| && AllBlank(lines[b..]) && !Blank(lines[a])
    ensures a < b
  {
    hide Blank;
    assert forall i | b <= i < |lines| :: lines[b..][i - b] == lines[i] && Blank(lines[i]);
  }

  lemma MiddleEnds(lines: seq<string>, mid: seq<string>, a: nat, b: nat)
    requires a < b <= |lines| && mid == [StripStart(lines[a])] + lines[a + 1..]
    requires AllBlank(lines[b..]) && !Blank(StripStart(lines[a])) && !Blank(lines[b - 1])
    ensures AllBlank(mid[b - a..]) && !Blank(mid[b - a - 1])
  {
    hide Blank, StripStart;
    assert mid[b - a..] == lines[b..];
  }

  lemma BodyRemains(lines: seq<string>, mid: seq<string>, a: nat, b: nat, body: seq<string>)
    requires a < b <= |lines| && mid == [StripStart(lines[a])] + lines[a + 1..]
    requires AllBlank(lines[..a]) && AllBlank(lines[b..]) && !Blank(lines[a]) && !Blank(lines[b - 1])
    requires body == mid[..b - a - 1] + [StripEnd(mid[b - a - 1])]
    ensures Remains(lines, a, b, body)
  {
    hide Blank, StripStart, StripEnd, AllBlank;
    forall k | 0 <= k < |body|
      ensures body[k] == Clipped(lines[a + k], k == 0, k == |body| - 1)
    {
      if k > 0 { assert mid[k] == lines[a + k]; }
    }
  }

  lemma StillText(line: string)
    requires !Blank(line)
    ensures !Blank(StripStart(line))
  {
    BlankStart(line);
    BlankStart(StripStart(line));
    StripStartAgain(line);
  }

  lemma {:induction false} FirstText(lines: seq<string>) returns (a: nat)
    requires !AllBlank(lines)
    ensures a < |lines| && AllBlank(lines[..a]) && !Blank(lines[a])
  {
    hide Blank;
    if !Blank(lines[0]) {
      a := 0;
    } else {
      assert lines == [lines[0]] + lines[1..];
      var n := FirstText(lines[1..]);
      a := n + 1;
      assert lines[..a] == [lines[0]] + lines[1..][..n];
    }
  }

  lemma {:induction false} LastText(lines: seq<string>) returns (b: nat)
    requires !AllBlank(lines)
    ensures 0 < b <= |lines| && AllBlank(lines[b..]) && !Blank(lines[b - 1])
  {
    hide Blank;
    var n := |lines| - 1;
    if !Blank(lines[n]) {
      b := |lines|;
    } else {
      assert lines == lines[..n] + [lines[n]];
      b := LastText(lines[..n]);
      assert lines[b..] == lines[..n][b..] + [lines[n]];
    }
  }

  // ---------------------------------------------------------------- the composed file

  /** Each line with its newline. */
  ghost function Lined(lines: seq<string>): string {
    if lines == [] then "" else lines[0] + "\n" + Lined(lines[1..])
  }

  ghost function Flat(texts: seq<string>): string {
    if texts == [] then "" else texts[0] + Flat(texts[1..])
  }

  ghost function Passed(f: Fragment): seq<string> { PassedLines(SplitLines(f.content)) }

  /** What the file has for one fragment: nothing, or its header and what remains of the lines it passes on. */
  ghost predicate SectionText(f: Fragment, s: string) {
    if AllBlank(Passed(f)) then s == ""
    else exists a, b, body :: SectionWith(f, s, a, b, body)
  }

  ghost predicate SectionWith(f: Fragment, s: string, a: nat, b: nat, body: seq<string>) {
    && Remains(Passed(f), a, b, body)
    && s == "<!-- fragment:" + f.id + " scope=" + f.scope + " sha256=" + f.digest + " -->" + "\n" + Lined(body) + "\n"
  }

  ghost function RuleText(d: Declaration): string {
    "<!-- rule:" + d.id + " effect=" + EffectName(d.effect) + " -->" + "\n" + d.content + "\n"
  }

  ghost function RulesText(records: seq<Record>): string {
    if records == [] then ""
    else
      "## Effective Rules" + "\n" + "\n" +
      Flat(seq(|records|, i requires 0 <= i < |records| => RuleText(records[i].declaration))) + "\n"
  }

  /** The file is the title, a section for each fragment in order, and the effective rules in order. */
  ghost predicate Says(content: string, fragments: seq<Fragment>, effective: seq<Record>, sections: seq<string>) {
    && |sections| == |fragments| && (forall k | 0 <= k < |fragments| :: SectionText(fragments[k], sections[k]))
    && content == Lined(TITLE) + Flat(sections) + RulesText(effective)
  }

  lemma {:induction false} LinedIsEnded(lines: seq<string>)
    ensures Lined(lines) == Ended(lines)
  {
    if lines != [] {
      LinedIsEnded(lines[1..]);
      assert lines == [lines[0]] + lines[1..];
      EndedSum([lines[0]], lines[1..]);
      OneEnded(lines[0]);
    }
  }

  lemma {:induction false} JoinIsLined(lines: seq<string>)
    requires lines != []
    ensures Join(lines) + "\n" == Lined(lines)
  {
    if |lines| == 1 {
      assert lines[1..] == [];
      assert Lined(lines) == lines[0] + "\n" + "";
    } else {
      JoinIsLined(lines[1..]);
      assert Join(lines) + "\n" == lines[0] + "\n" + (Join(lines[1..]) + "\n");
    }
  }

  lemma {:induction false} FlatSum(a: seq<string>, b: seq<string>)
    ensures Flat(a + b) == Flat(a) + Flat(b)
  {
    if a == [] {
      assert a + b == b;
    } else {
      assert (a + b)[1..] == a[1..] + b;
      FlatSum(a[1..], b);
    }
  }

  lemma FlatOne(s: string)
    ensures Flat([s]) == s && Flat([]) == ""
  {
    assert [s][1..] == [];
    assert s + "" == s;
  }

  lemma SectionSays(f: Fragment)
    requires Whole(FragmentTokens(f))
    ensures SectionText(f, Section(f, FragmentText(f)))
  {
    TextIsPassed(f, SplitLines(f.content));
    assert FragmentText(f) == Strip(Join(Passed(f)));
    hide *;
    BlankJoined(Passed(f));
    BlankStrips(Join(Passed(f)));
    if AllBlank(Passed(f)) {
      NoSection(f);
    } else {
      var a, b, body := StrippedRemains(Passed(f));
      SectionOf(f, a, b, body);
    }
  }

  lemma NoSection(f: Fragment)
    requires AllBlank(Passed(f))
    ensures SectionText(f, Section(f, ""))
  {
    hide AllBlank, Passed;
  }

  lemma SectionOf(f: Fragment, a: nat, b: nat, body: seq<string>)
    requires Remains(Passed(f), a, b, body) && !AllBlank(Passed(f)) && Join(body) != ""
    ensures SectionText(f, Section(f, Join(body)))
  {
    JoinIsLined(body);
    HeaderEnds(f);
    hide AllBlank, Passed, Remains, Lined, Join, Header;
    SectionBreaks(f, Join(body));
    assert SectionWith(f, Section(f, Join(body)), a, b, body);
  }

  lemma SectionBreaks(f: Fragment, text: string)
    requires text != ""
    ensures Section(f, text) == Header(f) + "\n" + (text + "\n") + "\n"
  {
    hide Header;
  }

  lemma {:induction false} SectionsSay(fragments: seq<Fragment>, text: map<string, string>) returns (sections: seq<string>)
    requires forall f | f in fragments :: f.id in text && text[f.id] == FragmentText(f) && Whole(FragmentTokens(f))
    ensures |sections| == |fragments| && (forall k | 0 <= k < |fragments| :: SectionText(fragments[k], sections[k]))
    ensures Flat(sections) == Sections(fragments, text)
  {
    hide SectionText, Section, FragmentText, FragmentTokens, Whole;
    if fragments == [] {
      sections := [];
    } else {
      var n := |fragments| - 1;
      assert fragments == fragments[..n] + [fragments[n]];
      var before := SectionsSay(fragments[..n], text);
      var last := Section(fragments[n], text[fragments[n].id]);
      SectionSays(fragments[n]);
      sections := before + [last];
      FlatSum(before, [last]);
      FlatOne(last);
    }
  }

  ghost function RuleTexts(records: seq<Record>): seq<string> {
    seq(|records|, i requires 0 <= i < |records| => RuleText(records[i].declaration))
  }

  lemma {:induction false} RulesAreListed(records: seq<Record>)
    ensures Ended(RuleLines(records)) == Flat(RuleTexts(records))
  {
    if records == [] {
      NoRuleLines();
      NothingEnded();
    } else {
      var n := |records| - 1;
      var front, last := records[..n], records[n].declaration;
      RulesAreListed(front);
      RuleLinesMore(records, n);
      assert records[..n + 1] == records;
      assert RuleText(last) == MarkerText(last.id, last.effect) + "\n" + last.content + "\n";
      hide RuleText, MarkerText;
      assert RuleTexts(records) == RuleTexts(front) + [RuleText(last)];
      FlatSum(RuleTexts(front), [RuleText(last)]);
      FlatOne(RuleText(last));
    }
  }

  lemma RulesSay(records: seq<Record>)
    ensures RuleSection(records) == RulesText(records)
  {
    RuleSectionEnds(records);
    RulesAreListed(records);
    NoRuleSection();
    hide Flat, Ended, RuleLines, RuleSection, RuleText;
    assert RulesText(records) == if records == [] then "" else "## Effective Rules" + "\n" + "\n" + Flat(RuleTexts(records)) + "\n";
  }

  lemma {:induction false} EachIsWhole(fragments: seq<Fragment>)
    requires Whole(AllTokens(fragments))
    ensures forall f | f in fragments :: Whole(FragmentTokens(f))
  {
    if fragments != [] {
      var front, last := fragments[..|fragments| - 1], fragments[|fragments| - 1];
      AllTokensMore(fragments);
      hide *;
      WholeParts(AllTokens(front), FragmentTokens(last));
      EachIsWhole(front);
      forall f | f in fragments
        ensures Whole(FragmentTokens(f))
      {
        FrontOrLast(fragments, f);
      }
    }
  }

  lemma AllTokensMore(fragments: seq<Fragment>)
    requires fragments != []
    ensures AllTokens(fragments) == AllTokens(fragments[..|fragments| - 1]) + FragmentTokens(fragments[|fragments| - 1])
  {
    hide FragmentTokens;
  }

  lemma FrontOrLast(fragments: seq<Fragment>, f: Fragment)
    requires f in fragments
    ensures f in fragments[..|fragments| - 1] || f == fragments[|fragments| - 1]
  {
    assert fragments == fragments[..|fragments| - 1] + [fragments[|fragments| - 1]];
  }

  lemma WholeParts(a: seq<Token>, b: seq<Token>)
    requires Whole(a + b)
    ensures Whole(a) && Whole(b)
  {
    assert forall t | t in a :: t in a + b;
    assert forall t | t in b :: t in a + b;
  }

  /** The composed file, from the lines of the fragments: the title, then for each fragment in order its header
      over the lines it passes on, then the effective rules in order. */
  lemma FileSays(fragments: seq<Fragment>) returns (sections: seq<string>)
    requires IdsDiffer(fragments) && Mergeable(fragments) && Whole(AllTokens(fragments))
    ensures Says(ComposedFile(fragments), fragments, EffectiveOf(fragments), sections)
  {
    ComposedFileIs(fragments);
    hide *;
    EachIsWhole(fragments);
    sections := SectionsSay(fragments, Texts(fragments));
    LinedIsEnded(TITLE);
    RulesSay(EffectiveOf(fragments));
    SaysSo(fragments, EffectiveOf(fragments), sections);
  }

  lemma ComposedFileIs(fragments: seq<Fragment>)
    requires IdsDiffer(fragments) && Mergeable(fragments)
    ensures forall f | f in fragments :: f.id in Texts(fragments) && Texts(fragments)[f.id] == FragmentText(f)
    ensures ComposedFile(fragments) ==
            Ended(TITLE) + Sections(fragments, Texts(fragments)) + RuleSection(EffectiveOf(fragments))
  {
    TextsOfAll(fragments);
    hide IdsDiffer, Texts, FragmentText, Ended, Sections, RuleSection, EffectiveOf, Mergeable;
  }

  lemma SaysSo(fragments: seq<Fragment>, effective: seq<Record>, sections: seq<string>)
    requires |sections| == |fragments| && forall k | 0 <= k < |fragments| :: SectionText(fragments[k], sections[k])
    ensures Says(Lined(TITLE) + Flat(sections) + RulesText(effective), fragments, effective, sections)
  {
    hide SectionText, Lined, Flat, RulesText;
  }

  // ---------------------------------------------------------------- and its lines

  ghost function LinesOfAll(texts: seq<string>): seq<string> {
    if texts == [] then [] else SplitLines(texts[0]) + LinesOfAll(texts[1..])
  }

  lemma PassedAreLines(f: Fragment, a: nat, b: nat, body: seq<string>)
    requires Remains(Passed(f), a, b, body)
    ensures forall k | 0 <= k < |body| :: OneLine(body[k])
  {
    PassedOneLine(SplitLines(f.content));
    assert forall line | line in Passed(f) :: OneLine(line);
    hide Blank, OneLine, Passed, Clipped, AllBlank;
    forall k | 0 <= k < |body|
      ensures OneLine(body[k])
    {
      ClippedIsOneLine(Passed(f)[a + k], k == 0, k == |body| - 1);
    }
  }

  lemma ClippedIsOneLine(line: string, first: bool, last: bool)
    requires OneLine(line)
    ensures OneLine(Clipped(line, first, last))
  {
    hide IsBreak, IsSpace;
    assert OneLine(StripStart(line));
  }

  lemma {:induction false} PassedOneLine(lines: seq<string>)
    requires forall line | line in lines :: OneLine(line)
    ensures forall line | line in PassedLines(lines) :: OneLine(line)
  {
    hide OneLine, IsMarkerLine;
    if lines != [] { PassedOneLine(lines[..|lines| - 1]); }
  }

  /** A section's lines: those of its header, then what remains of the passed lines, then a blank one. */
  lemma SectionLines(f: Fragment, s: string, a: nat, b: nat, body: seq<string>)
    requires SectionWith(f, s, a, b, body)
    ensures SplitLines(s) ==
            SplitLines("<!-- fragment:" + f.id + " scope=" + f.scope + " sha256=" + f.digest + " -->") + body + [""]
    ensures EndsLine(s)
  {
    PassedAreLines(f, a, b, body);
    HeaderEnds(f);
    hide Passed, Remains;
    SectionSplits(Header(f), body, s);
  }

  lemma HeaderEnds(f: Fragment)
    ensures Header(f) == "<!-- fragment:" + f.id + " scope=" + f.scope + " sha256=" + f.digest + " -->"
    ensures Header(f) != "" && !IsBreak(Header(f)[|Header(f)| - 1])
  {
    assert Header(f)[|Header(f)| - 1] == '>';
  }

  lemma SectionSplits(header: string, body: seq<string>, s: string)
    requires header != "" && !IsBreak(header[|header| - 1]) && forall k | 0 <= k < |body| :: OneLine(body[k])
    requires s == header + "\n" + Lined(body) + "\n"
    ensures SplitLines(s) == SplitLines(header) + body + [""] && EndsLine(s)
  {
    hide Lined, Ended, SplitLines, IsBreak, OneLine;
    LinedIsEnded(body);
    assert s == (header + "\n") + (Lined(body) + "\n");
    EndedLines(body);
    TrailingNewline(header);
    SplitAfter(header + "\n", Lined(body) + "\n");
    SplitAfter(Lined(body), "\n");
    NewlineAlone();
    assert "" + "\n" == "\n";
  }

  lemma SectionIsLines(f: Fragment, s: string)
    requires SectionText(f, s)
    ensures EndsLine(s)
  {
    hide AllBlank, Passed, SectionWith;
    if !AllBlank(Passed(f)) {
      var a, b, body :| SectionWith(f, s, a, b, body);
      SectionLines(f, s, a, b, body);
    }
  }

  lemma {:induction false} SectionsSplit(fragments: seq<Fragment>, sections: seq<string>)
    requires |sections| == |fragments| && forall k | 0 <= k < |fragments| :: SectionText(fragments[k], sections[k])
    ensures SplitLines(Flat(sections)) == LinesOfAll(sections) && EndsLine(Flat(sections))
  {
    hide SectionText, SplitLines;
    if sections == [] {
      NoLines();
    } else {
      SectionIsLines(fragments[0], sections[0]);
      SectionsSplit(fragments[1..], sections[1..]);
      SplitAfter(sections[0], Flat(sections[1..]));
    }
  }

  /** The lines of the file: the title, the sections one after another, the rules. */
  lemma FileLines(content: string, fragments: seq<Fragment>, effective: seq<Record>, sections: seq<string>)
    requires Says(content, fragments, effective, sections)
    ensures SplitLines(content) == TITLE + LinesOfAll(sections) + SplitLines(RulesText(effective))
  {
    hide SectionText, SplitLines, Flat, LinesOfAll, RulesText, OneLine;
    TitleHasNoMarker();
    LinedIsEnded(TITLE);
    hide Lined, Ended;
    EndedLines(TITLE);
    SectionsSplit(fragments, sections);
    assert content == Lined(TITLE) + (Flat(sections) + RulesText(effective));
    SplitAfter(Lined(TITLE), Flat(sections) + RulesText(effective));
    SplitAfter(Flat(sections), RulesText(effective));
  }
}
