/** Composing the instruction file, and reading it again.

    The file starts with the managed header and a notice.  Every fragment with text left has a section, under a
    comment that names the fragment, its scope and its digest.  The effective rules end the file, each as a marker
    comment and a bullet.  That is the syntax the parser reads, so the file can itself be read as a fragment.  What
    comes back are the same rules, provided no fragment header brings in a line that is a marker; the last part
    shows that the provision is needed, with an id that breaks the promise. */
module Instructions {
  import opened Wrappers
  import opened Order
  import opened TextLines
  import opened Rules
  import opened RuleReading

  // ---------------------------------------------------------------- composing

  function MarkerText(id: string, effect: Effect): string {
    "<!-- rule:" + id + " effect=" + EffectText(effect) + " -->"
  }

  function Header(f: Fragment): string {
    "<!-- fragment:" + f.id + " scope=" + f.scope + " sha256=" + f.digest + " -->"
  }

  const MANAGED_REST := "agent-development-" + "skills:managed " + "instructions-v1 -->"
  const MANAGED_HEADER := "<!-- " + MANAGED_REST
  const HEADING := "# 全局 Agent Instructions"
  const NOTICE := "> 此文件由 `agent-skills " + "install` 确定性生成；" + "请在源 Fragment 中修改。"
  const TITLE := [MANAGED_HEADER, HEADING, "", NOTICE, ""]

  /** Lines, each ended by a newline. */
  function Ended(lines: seq<string>): string {
    if lines == [] then "" else Ended(lines[..|lines| - 1]) + lines[|lines| - 1] + "\n"
  }

  /** One fragment's header and text; nothing for a fragment that held rules only. */
  function Section(f: Fragment, text: string): string {
    if text == "" then "" else Header(f) + "\n" + text + "\n" + "\n"
  }

  function Sections(fragments: seq<Fragment>, text: map<string, string>): string
    requires forall f | f in fragments :: f.id in text
  {
    if fragments == [] then ""
    else
      var last := fragments[|fragments| - 1];
      Sections(fragments[..|fragments| - 1], text) + Section(last, text[last.id])
  }

  function RuleLines(records: seq<Record>): seq<string> {
    if records == [] then []
    else
      var d := records[|records| - 1].declaration;
      RuleLines(records[..|records| - 1]) + [MarkerText(d.id, d.effect), d.content]
  }

  function RuleSection(records: seq<Record>): string {
    if records == [] then "" else Ended(["## Effective Rules", ""] + RuleLines(records) + [""])
  }

  function Composed(fragments: seq<Fragment>, text: map<string, string>, effective: seq<Record>): string
    requires forall f | f in fragments :: f.id in text
  {
    Ended(TITLE) + Sections(fragments, text) + RuleSection(effective)
  }

  datatype Composition = Composition(content: string, trace: seq<Traced>, effective: seq<Record>) | Conflict | Refusal(fault: Fault)

  ghost predicate IdsDiffer(fragments: seq<Fragment>) {
    forall i, j | 0 <= i < j < |fragments| :: fragments[i].id != fragments[j].id
  }

  lemma {:induction false} TextsOfAll(fragments: seq<Fragment>)
    ensures forall f | f in fragments :: f.id in Texts(fragments)
    ensures IdsDiffer(fragments) ==> forall f | f in fragments :: Texts(fragments)[f.id] == FragmentText(f)
  {
    hide FragmentText;
    if fragments != [] {
      var front, last := fragments[..|fragments| - 1], fragments[|fragments| - 1];
      TextsOfAll(front);
      assert fragments == front + [last];
      if IdsDiffer(fragments) {
        forall f | f in front
          ensures f.id != last.id
        {
          var i :| 0 <= i < |front| && front[i] == f;
          assert fragments[i] == f && fragments[|fragments| - 1] == last;
        }
        assert IdsDiffer(front) by {
          assert forall i | 0 <= i < |front| :: front[i] == fragments[i];
        }
      }
    }
  }

  // ---------------------------------------------------------------- reading what was composed

  /** No line of the text is a rule marker. */
  ghost predicate MarkerFree(lines: seq<string>) { forall line | line in lines :: ReadMarker(line).None? }

  function MarkerCount(lines: seq<string>): nat {
    if lines == [] then 0 else MarkerCount(lines[..|lines| - 1]) + if ReadMarker(lines[|lines| - 1]).Some? then 1 else 0
  }

  lemma {:induction false} MarkerCountSum(a: seq<string>, b: seq<string>)
    ensures MarkerCount(a + b) == MarkerCount(a) + MarkerCount(b)
  {
    hide ReadMarker;
    if b == [] {
      assert a + b == a;
    } else {
      assert (a + b)[..|a + b| - 1] == a + b[..|b| - 1];
      MarkerCountSum(a, b[..|b| - 1]);
    }
  }

  lemma {:induction false} NoMarkersCount(lines: seq<string>)
    ensures MarkerCount(lines) == 0 <==> MarkerFree(lines)
  {
    hide ReadMarker;
    if lines != [] {
      var front, last := lines[..|lines| - 1], lines[|lines| - 1];
      NoMarkersCount(front);
      assert lines == front + [last];
    }
  }

  /** A bullet is never a marker. */
  lemma BulletIsNoMarker(line: string)
    requires IsBullet(line)
    ensures ReadMarker(line).None?
  {
    var s := StripStart(line);
    var t := StripEnd(s);
    assert t != [] ==> t[0] == '-';
  }

  /** When every marker has its bullet, each marker line is one declaration. */
  lemma {:induction false} EachMarkerCounts(f: Fragment, lines: seq<string>)
    requires Whole(Tokens(f, lines))
    ensures |RulesOf(Tokens(f, lines))| == MarkerCount(lines)
    decreases |lines|
  {
    hide ReadMarker, IsBullet, MarkerCount, RulesOf;
    NothingToCount();
    if lines != [] {
      var tokens := Tokens(f, lines);
      CountFirst(lines);
      RulesFirst(tokens);
      if ReadMarker(lines[0]).None? {
        assert tokens[1..] == Tokens(f, lines[1..]);
        assert Whole(tokens[1..]) by { assert forall t | t in tokens[1..] :: t in tokens; }
        EachMarkerCounts(f, lines[1..]);
      } else {
        assert tokens[0] in tokens;
        assert tokens[1..] == Tokens(f, lines[2..]);
        assert Whole(tokens[1..]) by { assert forall t | t in tokens[1..] :: t in tokens; }
        EachMarkerCounts(f, lines[2..]);
        BulletIsNoMarker(lines[1]);
        CountFirst(lines[1..]);
        assert lines[1..][0] == lines[1] && lines[1..][1..] == lines[2..];
      }
    }
  }

  lemma NothingToCount()
    ensures MarkerCount([]) == 0 && RulesOf([]) == []
  {
  }

  lemma CountFirst(lines: seq<string>)
    requires lines != []
    ensures MarkerCount(lines) == (if ReadMarker(lines[0]).Some? then 1 else 0) + MarkerCount(lines[1..])
  {
    hide ReadMarker;
    assert lines == [lines[0]] + lines[1..];
    assert MarkerCount([lines[0]]) == MarkerCount([]) + if ReadMarker(lines[0]).Some? then 1 else 0;
    MarkerCountSum([lines[0]], lines[1..]);
  }

  lemma {:induction false} RulesSum(a: seq<Token>, b: seq<Token>)
    ensures RulesOf(a + b) == RulesOf(a) + RulesOf(b)
  {
    if b == [] {
      assert a + b == a;
    } else {
      assert (a + b)[..|a + b| - 1] == a + b[..|b| - 1];
      RulesSum(a, b[..|b| - 1]);
    }
  }

  lemma RulesFirst(tokens: seq<Token>)
    requires tokens != []
    ensures RulesOf(tokens) == (if tokens[0].Rule? then [tokens[0].declaration] else []) + RulesOf(tokens[1..])
  {
    assert tokens == [tokens[0]] + tokens[1..];
    RulesSum([tokens[0]], tokens[1..]);
  }

  // ---------------------------------------------------------------- markers read back

  /** A rule as it can be read: a valid id, and a bullet on one line without space around it. */
  ghost predicate Legible(d: Declaration) {
    ValidId(d.id) && IsBullet(d.content) && Stripped(d.content) && OneLine(d.content)
  }

  lemma {:induction false} IdLengthIs(s: string, n: nat)
    requires n <= |s| && (forall i | 0 <= i < n :: IsIdChar(s[i])) && (n < |s| ==> !IsIdChar(s[n]))
    ensures IdLength(s) == n
  {
    if n > 0 { IdLengthIs(s[1..], n - 1); }
  }

  lemma StripSpace(s: string)
    requires s != [] && !IsSpace(s[0])
    ensures StripStart(" " + s) == s
  {
    StripStartFrom(' ', s);
  }

  lemma DroppedPrefix(prefix: string, rest: string)
    ensures Dropped(prefix, prefix + rest) == Some(rest)
  {
    assert (prefix + rest)[|prefix|..] == rest && prefix <= prefix + rest;
  }

  /** The printed marker is read as the marker it prints, and takes one line. */
  lemma MarkerReadsBack(id: string, effect: Effect)
    requires ValidId(id)
    ensures ReadMarker(MarkerText(id, effect)) == Some(Marker(id, effect))
    ensures OneLine(MarkerText(id, effect))
  {
    hide StripStart, ReadName, Strip, MarkerText, Dropped, EffectText;
    var name := "rule:" + (id + (" effect=" + (EffectText(effect) + " -->")));
    MarkerIsOneLine(id, effect);
    NameReads(id, effect);
    MarkerShape(id, effect);
    OneSpace(name);
    DroppedPrefix("<!--", " " + name);
  }

  lemma MarkerShape(id: string, effect: Effect)
    ensures MarkerText(id, effect) == "<!--" + (" " + ("rule:" + (id + (" effect=" + (EffectText(effect) + " -->")))))
  {
    assert "<!-- rule:" == "<!--" + (" " + "rule:");
  }

  lemma NameReads(id: string, effect: Effect)
    requires ValidId(id)
    ensures ReadName("rule:" + (id + (" effect=" + (EffectText(effect) + " -->")))) == Some(Marker(id, effect))
  {
    hide StripStart, ReadTail, IdLength, ValidId, Dropped, EffectText;
    var tail := EffectText(effect) + " -->";
    TailReads(id, effect);
    OneSpace("effect=" + tail);
    SpacedShape(tail);
    DroppedPrefix("rule:", id + (" effect=" + tail));
    IdEnds(id, " effect=" + tail);
    IdSplits(id, " effect=" + tail);
  }

  lemma SpacedShape(tail: string)
    ensures " effect=" + tail == " " + ("effect=" + tail) && (" effect=" + tail)[0] == ' '
    ensures " effect=" + tail != "effect=" + tail
  {
    assert " effect=" == " " + "effect=";
  }

  lemma IdSplits(id: string, spaced: string)
    ensures (id + spaced)[..|id|] == id && (id + spaced)[|id|..] == spaced
  {
  }

  lemma TailReads(id: string, effect: Effect)
    ensures ReadTail(id, "effect=" + (EffectText(effect) + " -->")) == Some(Marker(id, effect))
  {
    DroppedPrefix("effect=", EffectText(effect) + " -->");
    EffectReads(effect);
    hide StripStart, ReadEffect, Dropped;
  }

  lemma OneSpace(s: string)
    requires s != [] && (s[0] == 'r' || s[0] == 'e' || s[0] == '-')
    ensures StripStart(" " + s) == s
  {
    PlainCharacters();
    StripSpace(s);
  }

  lemma PlainCharacters()
    ensures !IsSpace('r') && !IsSpace('e') && !IsSpace('-') && !IsSpace('<') && !IsSpace('>') && !IsSpace('a') && !IsSpace('f')
  {
  }

  lemma IdEnds(id: string, spaced: string)
    requires ValidId(id) && spaced != [] && spaced[0] == ' '
    ensures IdLength(id + spaced) == |id|
  {
    IdLengthIs(id + spaced, |id|);
  }

  lemma EffectReads(effect: Effect)
    ensures ReadEffect(EffectText(effect) + " -->") == Some((effect, " -->"))
    ensures StripStart(" -->") == "-->"
  {
    var s := EffectText(effect) + " -->";
    OneSpace("-->");
    assert " " + "-->" == " -->";
    hide StripStart, IsSpace;
    assert s[|EffectText(effect)|..] == " -->";
    assert effect == Deny ==> s[0] == 'd';
  }

  lemma MarkerIsOneLine(id: string, effect: Effect)
    requires ValidId(id)
    ensures OneLine(MarkerText(id, effect)) && Strip(MarkerText(id, effect)) == MarkerText(id, effect)
  {
    MarkerEnds(id, effect);
    StrippedStays(MarkerText(id, effect));
    MarkerPieces(id, effect);
    hide OneLine, EffectText;
    OneLineParts("<!-- rule:", id);
    OneLineParts("<!-- rule:" + id, " effect=");
    OneLineParts("<!-- rule:" + id + " effect=", EffectText(effect));
    OneLineParts("<!-- rule:" + id + " effect=" + EffectText(effect), " -->");
  }

  lemma MarkerEnds(id: string, effect: Effect)
    ensures Stripped(MarkerText(id, effect))
  {
    var line := MarkerText(id, effect);
    assert line[0] == '<' && line[|line| - 1] == '>';
    PlainCharacters();
  }

  lemma MarkerPieces(id: string, effect: Effect)
    requires ValidId(id)
    ensures OneLine("<!-- rule:") && OneLine(id) && OneLine(" effect=") && OneLine(EffectText(effect)) && OneLine(" -->")
  {
  }

  // ---------------------------------------------------------------- the composed lines

  predicate EndsLine(s: string) { s == [] || s[|s| - 1] == '\n' }

  lemma SplitAfter(s: string, rest: string)
    requires EndsLine(s)
    ensures SplitLines(s + rest) == SplitLines(s) + SplitLines(rest)
  {
    if s == [] {
      assert s + rest == rest;
      assert SplitLines(s) == [];
    } else {
      var a := s[..|s| - 1];
      assert s == a + "\n";
      SplitAtNewline(a, rest);
    }
  }

  lemma {:induction false} EndedLines(lines: seq<string>)
    requires forall i | 0 <= i < |lines| :: OneLine(lines[i])
    ensures SplitLines(Ended(lines)) == lines && EndsLine(Ended(lines))
  {
    hide SplitLines;
    if lines == [] {
      assert SplitLines([]) == [] by { NoLines(); }
    } else {
      var front, last := lines[..|lines| - 1], lines[|lines| - 1];
      EndedLines(front);
      SplitAfter(Ended(front), last + "\n");
      LineFirst(last, "");
      NoLines();
      assert last + "\n" + "" == last + "\n";
      assert Ended(lines) == Ended(front) + (last + "\n");
    }
  }

  lemma {:induction false} TrailingNewline(s: string)
    requires s != [] && !IsBreak(s[|s| - 1])
    ensures SplitLines(s + "\n") == SplitLines(s)
    decreases |s|
  {
    hide *;
    if LineEnd(s) == |s| {
      TrailingOnly(s);
    } else {
      NotAtBreak(s);
      assert s <= s + "\n";
      SameEnd(s, s + "\n");
      var k := NextLine(s);
      SplitStep(s);
      SplitStep(s + "\n");
      TailPlus(s, k);
      TrailingNewline(s[k..]);
    }
  }

  lemma TailPlus(s: string, k: nat)
    requires k < |s|
    ensures (s + "\n")[k..] == s[k..] + "\n" && s[k..] != [] && s[k..][|s[k..]| - 1] == s[|s| - 1]
  {
  }

  lemma TrailingOnly(s: string)
    requires s != [] && LineEnd(s) == |s|
    ensures SplitLines(s + "\n") == SplitLines(s)
  {
    LineOnly(s);
    LineFirst(s, "");
    NoLines();
    hide *;
    assert s + "\n" + "" == s + "\n";
  }

  lemma NotAtBreak(s: string)
    requires s != [] && !IsBreak(s[|s| - 1]) && LineEnd(s) < |s|
    ensures NextLine(s) < |s|
  {
    var n := LineEnd(s);
    assert IsBreak(s[n]);
  }

  lemma OneLineParts(a: string, b: string)
    requires OneLine(a) && OneLine(b)
    ensures OneLine(a + b)
  {
  }

  lemma {:induction false} SectionsEndLines(fragments: seq<Fragment>, text: map<string, string>)
    requires forall f | f in fragments :: f.id in text
    ensures EndsLine(Sections(fragments, text))
  {
    if fragments != [] {
      var front, last := fragments[..|fragments| - 1], fragments[|fragments| - 1];
      SectionsEndLines(front, text);
      if text[last.id] != "" {
        var s := Section(last, text[last.id]);
        assert s[|s| - 1] == '\n';
        assert (Sections(front, text) + s)[|Sections(front, text) + s| - 1] == '\n';
      } else {
        assert Sections(front, text) + "" == Sections(front, text);
      }
    }
  }

  // ---------------------------------------------------------------- where markers can be

  lemma NotOpened(line: string)
    requires Stripped(line) && (line == [] || line[0] != '<')
    ensures ReadMarker(line).None?
  {
    StrippedStays(line);
  }

  lemma OtherComment(line: string, rest: string)
    requires Stripped(line) && line == "<!-- " + rest && rest != [] && rest[0] != 'r' && !IsSpace(rest[0])
    ensures ReadMarker(line).None?
  {
    StrippedStays(line);
    CommentShape(rest);
    DroppedPrefix("<!--", " " + rest);
    StripSpace(rest);
    NotARule(rest);
    hide Dropped, Strip, StripStart, ReadName, IsSpace;
  }

  lemma CommentShape(rest: string)
    ensures "<!-- " + rest == "<!--" + (" " + rest)
  {
  }

  lemma NotARule(s: string)
    requires s != [] && s[0] != 'r'
    ensures ReadName(s).None?
  {
  }

  lemma TitleHasNoMarker()
    ensures forall i | 0 <= i < |TITLE| :: OneLine(TITLE[i])
    ensures MarkerFree(TITLE)
  {
    hide OneLine, ReadMarker, MarkerFree;
    ManagedHeader();
    Heading();
    Notice();
    NotOpened("");
    OneLineNothing();
    FiveLines(MANAGED_HEADER, HEADING, "", NOTICE, "");
  }

  lemma FiveLines(a: string, b: string, c: string, d: string, e: string)
    requires OneLine(a) && OneLine(b) && OneLine(c) && OneLine(d) && OneLine(e)
    requires ReadMarker(a).None? && ReadMarker(b).None? && ReadMarker(c).None? && ReadMarker(d).None? && ReadMarker(e).None?
    ensures var lines := [a, b, c, d, e]; MarkerFree(lines) && forall i | 0 <= i < |lines| :: OneLine(lines[i])
  {
    hide ReadMarker, OneLine;
  }

  lemma OneLineNothing()
    ensures OneLine("")
  {
  }

  lemma ManagedHeader()
    ensures ReadMarker(MANAGED_HEADER).None? && OneLine(MANAGED_HEADER)
  {
    var a, b, c := "agent-development-", "skills:managed ", "instructions-v1 -->";
    assert OneLine("<!-- ") && OneLine(a) && OneLine(b) && OneLine(c);
    OneLineParts(a, b);
    OneLineParts(a + b, c);
    OneLineParts("<!-- ", MANAGED_REST);
    PlainCharacters();
    hide IsBreak, IsSpace, OneLine;
    assert MANAGED_REST[0] == 'a' && MANAGED_HEADER[0] == '<' && MANAGED_HEADER[|MANAGED_HEADER| - 1] == '>';
    OtherComment(MANAGED_HEADER, MANAGED_REST);
  }

  lemma Heading()
    ensures ReadMarker(HEADING).None? && OneLine(HEADING)
  {
    NotOpened(HEADING);
  }

  lemma Notice()
    ensures ReadMarker(NOTICE).None? && OneLine(NOTICE)
  {
    var a, b, c := "> 此文件由 `agent-skills ", "install` 确定性生成；", "请在源 Fragment 中修改。";
    assert OneLine(a) && OneLine(b) && OneLine(c);
    OneLineParts(a, b);
    OneLineParts(a + b, c);
    assert a[0] == '>' && !IsSpace(a[0]) && !IsSpace(c[|c| - 1]);
    hide IsBreak, IsSpace, OneLine;
    assert NOTICE[0] == a[0] && NOTICE[|NOTICE| - 1] == c[|c| - 1];
    NotOpened(NOTICE);
  }

  /** Text without its rules holds no marker: each line was read and found to be none. */
  lemma {:induction false} TextHasNoMarker(f: Fragment, lines: seq<string>)
    requires forall line | line in lines :: OneLine(line)
    ensures forall line | line in TextOf(Tokens(f, lines)) :: ReadMarker(line).None? && OneLine(line)
    decreases |lines|
  {
    hide ReadMarker, IsBullet, TextOf, OneLine, Strip;
    if lines == [] {
      NoText();
    } else {
      var tokens := Tokens(f, lines);
      TextFirst(tokens);
      assert lines == [lines[0]] + lines[1..];
      if ReadMarker(lines[0]).None? {
        assert tokens[1..] == Tokens(f, lines[1..]);
        TextHasNoMarker(f, lines[1..]);
      } else if |lines| >= 2 && IsBullet(lines[1]) {
        assert tokens[1..] == Tokens(f, lines[2..]);
        assert forall line | line in lines[2..] :: line in lines;
        TextHasNoMarker(f, lines[2..]);
      } else {
        assert tokens[1..] == [];
        NoText();
      }
    }
  }

  lemma NoText()
    ensures TextOf([]) == []
  {
  }

  lemma {:induction false} TextSum(a: seq<Token>, b: seq<Token>)
    ensures TextOf(a + b) == TextOf(a) + TextOf(b)
  {
    if b == [] {
      assert a + b == a;
    } else {
      assert (a + b)[..|a + b| - 1] == a + b[..|b| - 1];
      TextSum(a, b[..|b| - 1]);
    }
  }

  lemma TextFirst(tokens: seq<Token>)
    requires tokens != []
    ensures TextOf(tokens) == (if tokens[0].Text? then [tokens[0].line] else []) + TextOf(tokens[1..])
  {
    assert tokens == [tokens[0]] + tokens[1..];
    TextSum([tokens[0]], tokens[1..]);
  }

  lemma FragmentTextHasNoMarker(f: Fragment)
    ensures MarkerFree(SplitLines(FragmentText(f) + "\n"))
  {
    var lines := TextOf(FragmentTokens(f));
    var joined, text := Join(lines), FragmentText(f);
    TextHasNoMarker(f, SplitLines(f.content));
    JoinedLines(lines);
    StripWithin(joined);
    StripIsStripped(joined);
    hide SplitLines, StripStart, StripEnd, IsSpace, IsBreak;
    forall line | line in SplitLines(text)
      ensures ReadMarker(line).None?
    {
      var other :| other in SplitLines(joined) && Strip(other) == Strip(line);
    }
    if text == "" {
      EmptyLine();
    } else {
      NoBreakAtEnd(text);
      TrailingNewline(text);
    }
  }

  lemma NoBreakAtEnd(text: string)
    requires Stripped(text) && text != ""
    ensures !IsBreak(text[|text| - 1])
  {
  }

  lemma EmptyLine()
    ensures MarkerFree(SplitLines("" + "\n"))
  {
    NewlineAlone();
    NotOpened("");
    hide *;
    assert SplitLines("" + "\n") == [""];
    OnlyLineFree("");
  }

  lemma OnlyLineFree(line: string)
    requires ReadMarker(line).None?
    ensures MarkerFree([line])
  {
  }

  lemma NewlineAlone()
    ensures SplitLines("" + "\n") == [""]
  {
    LineFirst("", "");
    NoLines();
    hide *;
    assert "" + "\n" + "" == "" + "\n";
  }

  /** Only a fragment's header can bring a marker into the head of the file. */
  ghost predicate HeadersSafe(fragments: seq<Fragment>, text: map<string, string>)
    requires forall f | f in fragments :: f.id in text
  {
    forall f | f in fragments && text[f.id] != "" :: MarkerFree(SplitLines(Header(f) + "\n"))
  }

  lemma MarkerFreeSum(a: seq<string>, b: seq<string>)
    ensures MarkerFree(a + b) <==> MarkerFree(a) && MarkerFree(b)
  {
    hide ReadMarker;
    assert forall line | line in a :: line in a + b;
    assert forall line | line in b :: line in a + b;
  }

  lemma SectionMarkers(f: Fragment, text: string)
    requires text == FragmentText(f)
    ensures MarkerFree(SplitLines(Section(f, text))) <==> text == "" || MarkerFree(SplitLines(Header(f) + "\n"))
  {
    hide ReadMarker, Header, FragmentText, SplitLines, MarkerFree;
    if text == "" {
      NoLines();
      MarkerFreeNothing();
    } else {
      var head, body := Header(f) + "\n", text + "\n";
      assert Section(f, text) == head + (body + "\n");
      SplitAfter(head, body + "\n");
      SplitAfter(body, "\n");
      FragmentTextHasNoMarker(f);
      EmptyLine();
      assert "" + "\n" == "\n";
      MarkerFreeSum(SplitLines(body), SplitLines("\n"));
      MarkerFreeSum(SplitLines(head), SplitLines(body) + SplitLines("\n"));
    }
  }

  lemma MarkerFreeNothing()
    ensures MarkerFree([])
  {
  }

  lemma {:induction false} SectionsMarkers(fragments: seq<Fragment>, text: map<string, string>)
    requires forall f | f in fragments :: f.id in text && text[f.id] == FragmentText(f)
    ensures MarkerFree(SplitLines(Sections(fragments, text))) <==> HeadersSafe(fragments, text)
  {
    hide MarkerFree, SplitLines, Section, Header, FragmentText;
    if fragments == [] {
      NoLines();
      MarkerFreeNothing();
    } else {
      var front, last := fragments[..|fragments| - 1], fragments[|fragments| - 1];
      assert fragments == front + [last];
      SectionsMarkers(front, text);
      SectionMarkers(last, text[last.id]);
      SectionsEndLines(front, text);
      SplitAfter(Sections(front, text), Section(last, text[last.id]));
      MarkerFreeSum(SplitLines(Sections(front, text)), SplitLines(Section(last, text[last.id])));
    }
  }

  /** A header that is one line is safe, so ids, scopes and digests without line breaks are. */
  lemma OneLineHeader(f: Fragment)
    requires OneLine(f.id) && OneLine(f.scope) && OneLine(f.digest)
    ensures MarkerFree(SplitLines(Header(f) + "\n"))
  {
    HeaderIsOneLine(f);
    HeaderIsNoMarker(f);
    hide *;
    LineAlone(Header(f));
    OnlyLineFree(Header(f));
  }

  lemma LineAlone(line: string)
    requires OneLine(line)
    ensures SplitLines(line + "\n") == [line]
  {
    LineFirst(line, "");
    NoLines();
    hide *;
    assert line + "\n" + "" == line + "\n";
  }

  lemma HeaderIsOneLine(f: Fragment)
    requires OneLine(f.id) && OneLine(f.scope) && OneLine(f.digest)
    ensures OneLine(Header(f))
  {
    var a, b, c, d := "<!-- fragment:", " scope=", " sha256=", " -->";
    assert OneLine(a) && OneLine(b) && OneLine(c) && OneLine(d);
    hide IsBreak;
    assert Header(f) == a + f.id + b + f.scope + c + f.digest + d;
  }

  lemma HeaderIsNoMarker(f: Fragment)
    ensures ReadMarker(Header(f)).None?
  {
    var h := Header(f);
    var rest := "fragment:" + f.id + " scope=" + f.scope + " sha256=" + f.digest + " -->";
    assert h == "<!-- " + rest;
    assert h[0] == '<' && h[|h| - 1] == '>';
    PlainCharacters();
    OtherComment(h, rest);
  }

  // ---------------------------------------------------------------- reading the composed file

  /** What the composed rules look like to a reader who takes the whole file as one fragment. */
  function Redeclared(g: Fragment, records: seq<Record>): seq<Declaration> {
    seq(|records|, i requires 0 <= i < |records| =>
      var d := records[i].declaration;
      Declaration(d.id, d.effect, d.content, g.locked, g.package, g.scope))
  }

  /** The same rules in the same order. */
  ghost predicate Alike(a: seq<Record>, b: seq<Record>) {
    && |a| == |b|
    && forall i | 0 <= i < |a| ::
         a[i].declaration.id == b[i].declaration.id && a[i].declaration.effect == b[i].declaration.effect
         && a[i].declaration.content == b[i].declaration.content
  }

  lemma {:induction false} PassOver(g: Fragment, head: seq<string>, rest: seq<string>)
    requires MarkerFree(head)
    ensures RulesOf(Tokens(g, head + rest)) == RulesOf(Tokens(g, rest))
    ensures Whole(Tokens(g, head + rest)) <==> Whole(Tokens(g, rest))
    decreases |head|
  {
    hide ReadMarker, IsBullet, RulesOf;
    if head == [] {
      assert head + rest == rest;
    } else {
      assert (head + rest)[0] == head[0] && (head + rest)[1..] == head[1..] + rest;
      assert head[0] in head;
      PassOver(g, head[1..], rest);
      var tokens := Tokens(g, head + rest);
      RulesFirst(tokens);
      assert tokens[1..] == Tokens(g, head[1..] + rest);
      WholeFirst(tokens);
    }
  }

  lemma WholeFirst(tokens: seq<Token>)
    requires tokens != []
    ensures Whole(tokens) <==> !tokens[0].Broken? && Whole(tokens[1..])
  {
    assert tokens == [tokens[0]] + tokens[1..];
  }

  lemma RuleLinesFirst(records: seq<Record>)
    requires records != []
    ensures var d := records[0].declaration;
            RuleLines(records) == [MarkerText(d.id, d.effect), d.content] + RuleLines(records[1..])
  {
    hide MarkerText;
    if |records| > 1 {
      var front := records[..|records| - 1];
      RuleLinesFirst(front);
      assert front[1..] == records[1..][..|records[1..]| - 1];
      assert records[1..][|records[1..]| - 1] == records[|records| - 1];
    } else {
      assert records[..0] == [] && records[1..] == [];
      assert RuleLines([]) == [];
    }
  }

  /** Each printed rule is read as one declaration. */
  lemma {:induction false} RulesReadBack(g: Fragment, records: seq<Record>, rest: seq<string>)
    requires forall i | 0 <= i < |records| :: Legible(records[i].declaration)
    ensures RulesOf(Tokens(g, RuleLines(records) + rest)) == Redeclared(g, records) + RulesOf(Tokens(g, rest))
    ensures Whole(Tokens(g, RuleLines(records) + rest)) <==> Whole(Tokens(g, rest))
    decreases |records|
  {
    hide ReadMarker, RulesOf, MarkerText, Strip, RuleLines, Legible, IsBullet;
    if records == [] {
      NoRuleLines();
      assert [] + rest == rest;
      assert Redeclared(g, records) == [];
    } else {
      var d := records[0].declaration;
      var marker := MarkerText(d.id, d.effect);
      var lines := RuleLines(records) + rest;
      RuleLinesFirst(records);
      LegibleParts(d);
      assert lines[0] == marker && lines[1] == d.content && lines[2..] == RuleLines(records[1..]) + rest;
      var tokens := Tokens(g, lines);
      assert tokens == [Rule(Declared(g, Marker(d.id, d.effect), d.content))] + Tokens(g, lines[2..]);
      assert tokens[1..] == Tokens(g, lines[2..]);
      RulesFirst(tokens);
      WholeFirst(tokens);
      RulesReadBack(g, records[1..], rest);
      assert Redeclared(g, records) == [tokens[0].declaration] + Redeclared(g, records[1..]);
    }
  }

  lemma NoRuleLines()
    ensures RuleLines([]) == []
  {
  }

  lemma LegibleParts(d: Declaration)
    requires Legible(d)
    ensures ReadMarker(MarkerText(d.id, d.effect)) == Some(Marker(d.id, d.effect)) && OneLine(MarkerText(d.id, d.effect))
    ensures IsBullet(d.content) && Strip(d.content) == d.content && OneLine(d.content)
  {
    MarkerReadsBack(d.id, d.effect);
    StrippedStays(d.content);
  }

  lemma {:induction false} RuleLinesAreLines(records: seq<Record>)
    requires forall i | 0 <= i < |records| :: Legible(records[i].declaration)
    ensures forall i | 0 <= i < |RuleLines(records)| :: OneLine(RuleLines(records)[i])
    ensures MarkerCount(RuleLines(records)) == |records|
  {
    hide ReadMarker, MarkerText, Legible, OneLine;
    if records != [] {
      var front, d := records[..|records| - 1], records[|records| - 1].declaration;
      RuleLinesAreLines(front);
      LegibleParts(d);
      BulletIsNoMarker(d.content);
      MarkerCountSum(RuleLines(front), [MarkerText(d.id, d.effect), d.content]);
      TwoLines(MarkerText(d.id, d.effect), d.content);
    }
  }

  lemma TwoLines(a: string, b: string)
    ensures MarkerCount([a, b]) == (if ReadMarker(a).Some? then 1 else 0) + if ReadMarker(b).Some? then 1 else 0
  {
    hide ReadMarker;
    assert [a, b][..1] == [a] && [a][..0] == [];
    assert MarkerCount([a]) == MarkerCount([a][..0]) + if ReadMarker(a).Some? then 1 else 0;
    assert MarkerCount([a, b]) == MarkerCount([a, b][..1]) + if ReadMarker(b).Some? then 1 else 0;
  }

  // ---------------------------------------------------------------- merging distinct rules

  ghost predicate DistinctIds(ds: seq<Declaration>) {
    forall i, j | 0 <= i < j < |ds| :: ds[i].id != ds[j].id
  }

  /** The state holds exactly these declarations. */
  ghost predicate Holds(ds: seq<Declaration>, state: State) {
    && (forall i | 0 <= i < |ds| :: ds[i].id in state.resolved && state.resolved[ds[i].id].declaration == ds[i])
    && (forall id | id in state.resolved :: Appears(ds, id))
  }

  lemma FrontIsDistinct(ds: seq<Declaration>)
    requires DistinctIds(ds) && ds != []
    ensures DistinctIds(ds[..|ds| - 1]) && !Appears(ds[..|ds| - 1], ds[|ds| - 1].id)
  {
  }

  lemma HoldsMore(front: seq<Declaration>, last: Declaration, state: State, next: State)
    requires Holds(front, state) && !Appears(front, last.id) && next.resolved == state.resolved[last.id := Record(last, state.nextOrder)]
    ensures Holds(front + [last], next)
  {
    var ds := front + [last];
    forall i | 0 <= i < |ds|
      ensures ds[i].id in next.resolved && next.resolved[ds[i].id].declaration == ds[i]
    {
      if i < |front| { assert ds[i] == front[i]; }
    }
    forall id | id in next.resolved
      ensures Appears(ds, id)
    {
      AppearsLast(front, last, id);
    }
  }

  /** Rules with different ids never clash, and are kept as declared. */
  lemma {:induction false} DistinctMerge(ds: seq<Declaration>)
    requires DistinctIds(ds)
    ensures Run(ds).Some? && Holds(ds, Run(ds).value)
  {
    if ds != [] {
      var front, last := ds[..|ds| - 1], ds[|ds| - 1];
      FrontIsDistinct(ds);
      hide DistinctIds, Holds, Accept, Appears;
      DistinctMerge(front);
      var state := Run(front).value;
      HoldsMeans(front, state, last.id);
      AcceptNew(state, last);
      HoldsMore(front, last, state, Accept(state, last).value);
      assert ds == front + [last];
    }
  }

  lemma HoldsMeans(ds: seq<Declaration>, state: State, id: string)
    requires Holds(ds, state) && !Appears(ds, id)
    ensures id !in state.resolved
  {
  }

  lemma {:induction false} DistinctFirstIds(ds: seq<Declaration>)
    requires DistinctIds(ds)
    ensures |FirstIds(ds)| == |ds| && forall i | 0 <= i < |ds| :: FirstIds(ds)[i] == ds[i].id
  {
    if ds != [] {
      FrontIsDistinct(ds);
      DistinctFirstIds(ds[..|ds| - 1]);
      FirstIdsAreUnique(ds[..|ds| - 1]);
    }
  }

  lemma AcceptNew(state: State, d: Declaration)
    requires d.id !in state.resolved
    ensures Accept(state, d).Some? && Accept(state, d).value.resolved == state.resolved[d.id := Record(d, state.nextOrder)]
  {
  }

  lemma RedeclaredAt(g: Fragment, effective: seq<Record>)
    ensures |Redeclared(g, effective)| == |effective|
    ensures forall i | 0 <= i < |effective| ::
              Redeclared(g, effective)[i].id == effective[i].declaration.id && Redeclared(g, effective)[i].effect == effective[i].declaration.effect
              && Redeclared(g, effective)[i].content == effective[i].declaration.content
  {
  }

  /** Merging the reread rules gives the same rules in the same order. */
  lemma RereadMerge(g: Fragment, effective: seq<Record>)
    requires DistinctIds(Redeclared(g, effective))
    ensures var ds := Redeclared(g, effective);
            Run(ds).Some? && Resolved(ds, Run(ds).value) && Alike(Effective(ds, Run(ds).value), effective)
  {
    var ds := Redeclared(g, effective);
    DistinctMerge(ds);
    DistinctFirstIds(ds);
    MergingIsRight(ds);
    hide Run, Resolved, FirstIds, DistinctIds, Appears, Redeclared;
    RedeclaredAt(g, effective);
    var state := Run(ds).value;
    forall i | 0 <= i < |effective|
      ensures Effective(ds, state)[i].declaration == ds[i]
    {
      assert FirstIds(ds)[i] == ds[i].id;
    }
  }

  // ---------------------------------------------------------------- effective rules are legible

  lemma {:induction false} TokensAreLegible(f: Fragment, lines: seq<string>)
    requires forall line | line in lines :: OneLine(line)
    ensures forall d | d in RulesOf(Tokens(f, lines)) :: Legible(d)
    decreases |lines|
  {
    hide ReadMarker, IsBullet, RulesOf, Legible, OneLine, Strip;
    if lines == [] {
      NothingToCount();
    } else {
      var tokens := Tokens(f, lines);
      RulesFirst(tokens);
      assert lines == [lines[0]] + lines[1..];
      if ReadMarker(lines[0]).None? {
        assert tokens[1..] == Tokens(f, lines[1..]);
        TokensAreLegible(f, lines[1..]);
      } else if |lines| >= 2 && IsBullet(lines[1]) {
        assert tokens[1..] == Tokens(f, lines[2..]);
        assert forall line | line in lines[2..] :: line in lines;
        TokensAreLegible(f, lines[2..]);
        assert lines[1] in lines;
        DeclaredIsLegible(f, lines[0], lines[1]);
      } else {
        assert tokens[1..] == [];
        NothingToCount();
      }
    }
  }

  lemma DeclaredIsLegible(f: Fragment, line: string, bullet: string)
    requires ReadMarker(line).Some? && IsBullet(bullet) && OneLine(bullet)
    ensures Legible(Declared(f, ReadMarker(line).value, bullet))
  {
    ReadIdIsValid(line);
    StripIsStripped(bullet);
    StrippedBullet(bullet);
  }

  lemma ReadIdIsValid(line: string)
    requires ReadMarker(line).Some?
    ensures ValidId(ReadMarker(line).value.id)
  {
    hide Strip, StripStart;
  }

  lemma StrippedBullet(bullet: string)
    requires IsBullet(bullet) && OneLine(bullet)
    ensures IsBullet(Strip(bullet)) && OneLine(Strip(bullet))
  {
    var t := StripStart(bullet);
    var s := StripEnd(t);
    DashStays(t);
    assert s[0] == '-';
    StripIsStripped(bullet);
    StrippedStays(s);
    assert t == bullet[|bullet| - |t|..] && s == t[..|s|];
  }

  lemma {:induction false} DashStays(t: string)
    requires t != [] && t[0] == '-'
    ensures StripEnd(t) != [] && StripEnd(t)[0] == '-'
  {
    if IsSpace(t[|t| - 1]) { DashStays(t[..|t| - 1]); }
  }

  lemma {:induction false} AllAreLegible(fragments: seq<Fragment>)
    ensures forall d | d in RulesOf(AllTokens(fragments)) :: Legible(d)
  {
    hide RulesOf, Legible, SplitLines;
    if fragments == [] {
      NothingToCount();
    } else {
      var front, last := fragments[..|fragments| - 1], fragments[|fragments| - 1];
      AllAreLegible(front);
      TokensAreLegible(last, SplitLines(last.content));
      RulesSum(AllTokens(front), FragmentTokens(last));
    }
  }

  /** A winner is one of the declarations, so what can be printed can be read. */
  lemma EffectiveIsLegible(ds: seq<Declaration>, state: State, i: nat)
    requires Resolved(ds, state) && i < |FirstIds(ds)| && forall d | d in ds :: Legible(d)
    ensures Legible(Effective(ds, state)[i].declaration)
  {
    var id := FirstIds(ds)[i];
    var r := state.resolved[id];
    assert RecordRight(ds, id, r);
    var j :| Decides(ds, id, j) && Same(ds[j], r.declaration);
    assert ds[j] in ds;
  }

  lemma EffectiveIsDistinct(ds: seq<Declaration>, state: State, g: Fragment)
    requires Resolved(ds, state)
    ensures DistinctIds(Redeclared(g, Effective(ds, state)))
  {
    FirstIdsAreUnique(ds);
    var listed := Effective(ds, state);
    forall i | 0 <= i < |listed|
      ensures listed[i].declaration.id == FirstIds(ds)[i]
    {
      OrderOf(ds, state, i);
    }
  }

  // ---------------------------------------------------------------- the composed file as one fragment

  function HeadLines(fragments: seq<Fragment>, text: map<string, string>): seq<string>
    requires forall f | f in fragments :: f.id in text
  {
    TITLE + SplitLines(Sections(fragments, text))
  }

  function TailLines(records: seq<Record>): seq<string> {
    if records == [] then [] else ["## Effective Rules", ""] + RuleLines(records) + [""]
  }

  lemma TailIsLines(records: seq<Record>)
    requires forall i | 0 <= i < |records| :: Legible(records[i].declaration)
    ensures RuleSection(records) == Ended(TailLines(records))
    ensures SplitLines(RuleSection(records)) == TailLines(records)
    ensures MarkerCount(TailLines(records)) == |records|
  {
    hide ReadMarker, Legible;
    RuleLinesAreLines(records);
    SubHeading();
    if records == [] {
      EndedLines([]);
      assert MarkerCount([]) == 0;
    } else {
      var a, b := ["## Effective Rules", ""], RuleLines(records);
      EndedLines(a + b + [""]);
      MarkerCountSum(a + b, [""]);
      MarkerCountSum(a, b);
      NoMarkersCount(a);
      NoMarkersCount([""]);
    }
  }

  lemma SubHeading()
    ensures OneLine("## Effective Rules") && OneLine("") && MarkerFree(["## Effective Rules", ""]) && MarkerFree([""])
  {
    NotOpened("## Effective Rules");
    NotOpened("");
    hide ReadMarker, OneLine;
    OneLineNothing();
    assert OneLine("## Effective Rules") by { SubHeadingIsOneLine(); }
    TwoFree("## Effective Rules", "");
  }

  lemma SubHeadingIsOneLine()
    ensures OneLine("## Effective Rules")
  {
  }

  lemma TwoFree(a: string, b: string)
    requires ReadMarker(a).None? && ReadMarker(b).None?
    ensures MarkerFree([a, b]) && MarkerFree([a]) && MarkerFree([b])
  {
    hide ReadMarker;
  }

  lemma ComposedLines(fragments: seq<Fragment>, text: map<string, string>, effective: seq<Record>)
    requires forall f | f in fragments :: f.id in text
    requires forall i | 0 <= i < |effective| :: Legible(effective[i].declaration)
    ensures SplitLines(Composed(fragments, text, effective)) == HeadLines(fragments, text) + TailLines(effective)
  {
    hide SplitLines, Ended, Sections, RuleSection, TailLines, EndsLine, ReadMarker, MarkerFree, OneLine, Legible;
    TitleHasNoMarker();
    EndedLines(TITLE);
    SectionsEndLines(fragments, text);
    TailIsLines(effective);
    ThreeTexts(Ended(TITLE), Sections(fragments, text), RuleSection(effective));
  }

  lemma ThreeTexts(a: string, b: string, c: string)
    requires EndsLine(a) && EndsLine(b)
    ensures SplitLines(a + b + c) == SplitLines(a) + SplitLines(b) + SplitLines(c)
  {
    hide SplitLines, EndsLine;
    assert a + b + c == a + (b + c);
    SplitAfter(a, b + c);
    SplitAfter(b, c);
    assert SplitLines(a) + (SplitLines(b) + SplitLines(c)) == SplitLines(a) + SplitLines(b) + SplitLines(c);
  }

  lemma HeadMarkers(fragments: seq<Fragment>, text: map<string, string>)
    requires forall f | f in fragments :: f.id in text && text[f.id] == FragmentText(f)
    ensures MarkerFree(HeadLines(fragments, text)) <==> HeadersSafe(fragments, text)
  {
    TitleHasNoMarker();
    SectionsMarkers(fragments, text);
    MarkerFreeSum(TITLE, SplitLines(Sections(fragments, text)));
  }

  /** Read as one fragment, the text declares exactly these rules, each once, and merging gives them back in order. */
  ghost predicate ReadsBack(g: Fragment, effective: seq<Record>) {
    var ds := RulesOf(FragmentTokens(g));
    && Whole(FragmentTokens(g)) && Run(ds).Some? && |ds| == |effective|
    && Resolved(ds, Run(ds).value) && Alike(Effective(ds, Run(ds).value), effective)
  }

  lemma TailReadsBack(g: Fragment, head: seq<string>, effective: seq<Record>)
    requires MarkerFree(head) && forall i | 0 <= i < |effective| :: Legible(effective[i].declaration)
    ensures Whole(Tokens(g, head + TailLines(effective)))
    ensures RulesOf(Tokens(g, head + TailLines(effective))) == Redeclared(g, effective)
  {
    hide ReadMarker, Legible, MarkerFree, RulesOf, Tokens, Whole, RuleLines;
    NothingRead(g);
    SubHeading();
    if effective == [] {
      PassOver(g, head, []);
      assert Redeclared(g, effective) == [];
    } else {
      var a, b := ["## Effective Rules", ""], RuleLines(effective);
      assert head + TailLines(effective) == head + (a + (b + [""]));
      PassOver(g, head, a + (b + [""]));
      PassOver(g, a, b + [""]);
      RulesReadBack(g, effective, [""]);
      assert [""] + [] == [""];
      PassOver(g, [""], []);
      assert Redeclared(g, effective) + [] == Redeclared(g, effective);
    }
  }

  lemma NothingRead(g: Fragment)
    ensures RulesOf(Tokens(g, [])) == [] && Whole(Tokens(g, []))
  {
  }

  /** Only as many markers as rules: then none is left for the head. */
  lemma HeadIsFree(g: Fragment, head: seq<string>, effective: seq<Record>)
    requires forall i | 0 <= i < |effective| :: Legible(effective[i].declaration)
    requires Whole(Tokens(g, head + TailLines(effective)))
    requires |RulesOf(Tokens(g, head + TailLines(effective)))| == |effective|
    ensures MarkerFree(head)
  {
    hide ReadMarker, Legible, RulesOf, Tokens, Whole, TailLines, MarkerCount, MarkerFree;
    EachMarkerCounts(g, head + TailLines(effective));
    MarkerCountSum(head, TailLines(effective));
    TailIsLines(effective);
    NoMarkersCount(head);
  }

  /** The declarations of these fragments can be merged. */
  ghost predicate Mergeable(fragments: seq<Fragment>) { Run(RulesOf(AllTokens(fragments))).Some? }

  /** Their winners, in order. */
  ghost function EffectiveOf(fragments: seq<Fragment>): seq<Record>
    requires Mergeable(fragments)
  {
    var ds := RulesOf(AllTokens(fragments));
    MergingIsRight(ds);
    Effective(ds, Run(ds).value)
  }

  /** The file composed from them. */
  ghost function ComposedFile(fragments: seq<Fragment>): string
    requires Mergeable(fragments)
  {
    TextsOfAll(fragments);
    Composed(fragments, Texts(fragments), EffectiveOf(fragments))
  }

  /** The lines of that file before the effective rules. */
  function HeadOf(fragments: seq<Fragment>): seq<string> {
    TextsOfAll(fragments);
    HeadLines(fragments, Texts(fragments))
  }

  ghost predicate SafelyHeaded(fragments: seq<Fragment>) {
    TextsOfAll(fragments);
    HeadersSafe(fragments, Texts(fragments))
  }

  /** The file is its head and the effective rules, all of which can be read. */
  lemma ComposedShape(fragments: seq<Fragment>, g: Fragment)
    requires Mergeable(fragments) && g.content == ComposedFile(fragments)
    ensures FragmentTokens(g) == Tokens(g, HeadOf(fragments) + TailLines(EffectiveOf(fragments)))
    ensures forall i | 0 <= i < |EffectiveOf(fragments)| :: Legible(EffectiveOf(fragments)[i].declaration)
    ensures DistinctIds(Redeclared(g, EffectiveOf(fragments)))
  {
    hide RulesOf, Run, Texts, FragmentText, Composed, Legible, FirstIds, TailLines, HeadLines, SplitLines, Tokens, Redeclared, DistinctIds,
         Effective;
    var ds := RulesOf(AllTokens(fragments));
    MergingIsRight(ds);
    TextsOfAll(fragments);
    AllAreLegible(fragments);
    EffectiveAreLegible(ds, Run(ds).value);
    ComposedLines(fragments, Texts(fragments), EffectiveOf(fragments));
    EffectiveIsDistinct(ds, Run(ds).value, g);
  }

  lemma EffectiveAreLegible(ds: seq<Declaration>, state: State)
    requires Resolved(ds, state) && forall d | d in ds :: Legible(d)
    ensures forall i | 0 <= i < |Effective(ds, state)| :: Legible(Effective(ds, state)[i].declaration)
  {
    hide Legible, Resolved;
    forall i | 0 <= i < |FirstIds(ds)| { EffectiveIsLegible(ds, state, i); }
  }

  lemma HeadOfIsFree(fragments: seq<Fragment>)
    requires IdsDiffer(fragments)
    ensures MarkerFree(HeadOf(fragments)) <==> SafelyHeaded(fragments)
  {
    TextsOfAll(fragments);
    hide Texts, FragmentText, HeadLines, MarkerFree, HeadersSafe;
    HeadMarkers(fragments, Texts(fragments));
  }

  /**
   * Composing and reading again gives back the effective rules, with nothing added,
   * exactly when no fragment header brings in a line that is a marker.
   */
  lemma ComposedReadsBack(fragments: seq<Fragment>, g: Fragment)
    requires IdsDiffer(fragments) && Mergeable(fragments) && g.content == ComposedFile(fragments)
    ensures ReadsBack(g, EffectiveOf(fragments)) <==> SafelyHeaded(fragments)
  {
    ComposedShape(fragments, g);
    HeadOfIsFree(fragments);
    hide *;
    var head, effective := HeadOf(fragments), EffectiveOf(fragments);
    if SafelyHeaded(fragments) {
      TailReadsBack(g, head, effective);
      RereadMerge(g, effective);
      ReadsLike(g, effective);
    } else if ReadsBack(g, effective) {
      ReadsWhole(g, effective);
      HeadIsFree(g, head, effective);
    }
  }

  lemma ReadsLike(g: Fragment, effective: seq<Record>)
    requires Whole(FragmentTokens(g)) && RulesOf(FragmentTokens(g)) == Redeclared(g, effective)
    requires var ds := Redeclared(g, effective);
             Run(ds).Some? && Resolved(ds, Run(ds).value) && Alike(Effective(ds, Run(ds).value), effective)
    ensures ReadsBack(g, effective)
  {
    RedeclaredAt(g, effective);
    hide RulesOf, Run, Whole, FragmentTokens, Redeclared, Alike, Resolved;
  }

  lemma ReadsWhole(g: Fragment, effective: seq<Record>)
    requires ReadsBack(g, effective)
    ensures Whole(FragmentTokens(g)) && |RulesOf(FragmentTokens(g))| == |effective|
  {
  }

  // ---------------------------------------------------------------- a header that brings in a marker

  /** A fragment id may hold line breaks, and one of its lines may be a marker. */
  ghost predicate HidesMarker(id: string) {
    exists a, rule, effect, b :: OneLine(a) && ValidId(rule) && id == a + "\n" + MarkerText(rule, effect) + "\n" + b
  }

  lemma HidingIsUnsafe(f: Fragment)
    requires HidesMarker(f.id)
    ensures !MarkerFree(SplitLines(Header(f) + "\n"))
  {
    var a, rule, effect, b :| OneLine(a) && ValidId(rule) && f.id == a + "\n" + MarkerText(rule, effect) + "\n" + b;
    BadHeader(f, a, MarkerText(rule, effect), b) by { MarkerReadsBack(rule, effect); }
  }

  lemma BadHeader(f: Fragment, a: string, marker: string, b: string)
    requires OneLine(a) && OneLine(marker) && ReadMarker(marker).Some? && f.id == a + "\n" + marker + "\n" + b
    ensures !MarkerFree(SplitLines(Header(f) + "\n"))
  {
    hide ReadMarker, SplitLines, OneLine;
    var first, behind := "<!-- fragment:", " scope=" + f.scope + " sha256=" + f.digest + " -->";
    FirstIsOneLine();
    OneLineParts(first, a);
    var rest := b + behind + "\n";
    HeaderShape(f);
    Regrouped(first, a, marker, b, behind);
    LineFirst(first + a, marker + "\n" + rest);
    LineFirst(marker, rest);
    MarkedLines(first + a, marker, SplitLines(rest));
  }

  lemma FirstIsOneLine()
    ensures OneLine("<!-- fragment:")
  {
  }

  lemma MarkedLines(first: string, marker: string, rest: seq<string>)
    requires ReadMarker(marker).Some?
    ensures !MarkerFree([first] + ([marker] + rest))
  {
    hide ReadMarker;
    assert ([first] + ([marker] + rest))[1] == marker;
  }

  lemma HeaderShape(f: Fragment)
    ensures Header(f) == "<!-- fragment:" + f.id + (" scope=" + f.scope + " sha256=" + f.digest + " -->")
  {
  }

  lemma Regrouped(first: string, a: string, marker: string, b: string, behind: string)
    ensures first + (a + "\n" + marker + "\n" + b) + behind + "\n" == (first + a) + "\n" + (marker + "\n" + (b + behind + "\n"))
  {
  }

  lemma SomeIdHides()
    ensures HidesMarker("a" + "\n" + MarkerText("x", Deny) + "\n" + "b")
  {
    hide MarkerText;
    assert OneLine("a") && ValidId("x");
  }

  /** Such an id breaks the promise: what is composed from this one fragment without rules does not read back. */
  lemma HeaderCanBeMarker(f: Fragment)
    requires HidesMarker(f.id) && f.content == "text\n"
    ensures IdsDiffer([f]) && Mergeable([f]) && EffectiveOf([f]) == []
    ensures forall g: Fragment | g.content == ComposedFile([f]) :: !ReadsBack(g, [])
  {
    OnlyMarkerIsHidden(f);
    WithoutRules();
    NothingEffective([f]);
    UnsafelyHeaded([f]);
    hide *;
    forall g: Fragment | g.content == ComposedFile([f])
      ensures !ReadsBack(g, [])
    {
      ComposedReadsBack([f], g);
    }
  }

  lemma NothingEffective(fragments: seq<Fragment>)
    requires RulesOf(AllTokens(fragments)) == []
    ensures Mergeable(fragments) && EffectiveOf(fragments) == []
  {
    WithoutRules();
    hide RulesOf, AllTokens, Run, Effective;
  }

  lemma UnsafelyHeaded(fragments: seq<Fragment>)
    requires forall f | f in fragments :: f.id in Texts(fragments)
    requires !HeadersSafe(fragments, Texts(fragments))
    ensures !SafelyHeaded(fragments)
  {
    hide HeadersSafe, Texts;
  }

  lemma OnlyMarkerIsHidden(f: Fragment)
    requires HidesMarker(f.id) && f.content == "text\n"
    ensures IdsDiffer([f]) && Whole(AllTokens([f])) && RulesOf(AllTokens([f])) == []
    ensures (forall h | h in [f] :: h.id in Texts([f])) && !HeadersSafe([f], Texts([f]))
  {
    HidingIsUnsafe(f);
    PlainText(f);
    OnlyFragment(f);
    OnlyText();
    NotEmptyText();
    hide FragmentTokens, FragmentText, Header, MarkerText, MarkerFree, SplitLines, HidesMarker, RulesOf, Whole, AllTokens, Texts;
    assert f in [f];
  }

  lemma WithoutRules()
    ensures Run([]).Some? && Resolved([], Run([]).value) && Effective([], Run([]).value) == []
  {
    MergingIsRight([]);
  }

  lemma NotEmptyText()
    ensures "text" != ""
  {
  }

  lemma OnlyFragment(f: Fragment)
    ensures AllTokens([f]) == FragmentTokens(f) && Texts([f]) == map[f.id := FragmentText(f)]
  {
    hide FragmentTokens, FragmentText;
    assert [f][..0] == [] && AllTokens([]) == [] && Texts([]) == map[];
  }

  lemma OnlyText()
    ensures RulesOf([Text("text")]) == [] && Whole([Text("text")])
  {
    RulesFirst([Text("text")]);
    NothingToCount();
    assert [Text("text")][1..] == [];
  }

  lemma PlainText(f: Fragment)
    requires f.content == "text\n"
    ensures FragmentTokens(f) == [Text("text")] && FragmentText(f) == "text"
  {
    assert OneLine("text");
    LineFirst("text", "");
    NoLines();
    assert "text" + "\n" + "" == "text\n";
    assert SplitLines(f.content) == ["text"];
    assert Stripped("text");
    StrippedStays("text");
    NotOpened("text");
    var lines := ["text"];
    assert lines[1..] == [] && Tokens(f, []) == [];
    assert Tokens(f, lines) == [Text("text")];
    TextFirst([Text("text")]);
    NoText();
    assert TextOf([Text("text")]) == ["text"];
    assert Join(["text"]) == "text";
  }

  // ---------------------------------------------------------------- the method

  lemma SectionsMore(fragments: seq<Fragment>, text: map<string, string>, k: nat)
    requires k < |fragments| && forall f | f in fragments :: f.id in text
    ensures Sections(fragments[..k + 1], text) == Sections(fragments[..k], text) + Section(fragments[k], text[fragments[k].id])
  {
    assert fragments[..k + 1][..k] == fragments[..k];
  }

  lemma RuleLinesMore(records: seq<Record>, k: nat)
    requires k < |records|
    ensures var d := records[k].declaration;
            Ended(RuleLines(records[..k + 1])) == Ended(RuleLines(records[..k])) + (MarkerText(d.id, d.effect) + "\n" + d.content + "\n")
  {
    hide MarkerText;
    var d := records[k].declaration;
    var front, two := RuleLines(records[..k]), [MarkerText(d.id, d.effect), d.content];
    assert records[..k + 1][..k] == records[..k];
    var all := front + two;
    assert all[..|all| - 1] == front + [two[0]] && (front + [two[0]])[..|front|] == front;
  }

  function RuleTop(): string { "## Effective Rules" + "\n" + "\n" }

  lemma RuleSectionEnds(records: seq<Record>)
    ensures records != [] ==> RuleSection(records) == RuleTop() + Ended(RuleLines(records)) + "\n"
  {
    hide RuleLines;
    EndedSum(["## Effective Rules", ""], RuleLines(records));
    EndedSum(["## Effective Rules", ""] + RuleLines(records), [""]);
    TwoEnded("## Effective Rules", "");
    OneEnded("");
  }

  lemma OneEnded(a: string)
    ensures Ended([a]) == a + "\n"
  {
    assert [a][..0] == [];
  }

  lemma TwoEnded(a: string, b: string)
    ensures Ended([a, b]) == a + "\n" + b + "\n"
  {
    OneEnded(a);
    assert [a, b][..1] == [a];
  }

  lemma {:induction false} EndedSum(a: seq<string>, b: seq<string>)
    ensures Ended(a + b) == Ended(a) + Ended(b)
  {
    if b == [] {
      assert a + b == a;
    } else {
      assert (a + b)[..|a + b| - 1] == a + b[..|b| - 1];
      EndedSum(a, b[..|b| - 1]);
    }
  }

  method WriteSections(fragments: seq<Fragment>, text: map<string, string>) returns (content: string)
    requires forall f | f in fragments :: f.id in text
    ensures content == Sections(fragments, text)
  {
    hide Section;
    content := "";
    assert fragments[..0] == [];
    for k := 0 to |fragments|
      invariant content == Sections(fragments[..k], text)
    {
      SectionsMore(fragments, text, k);
      content := content + Section(fragments[k], text[fragments[k].id]);
    }
    assert fragments[..|fragments|] == fragments;
  }

  method WriteRules(effective: seq<Record>) returns (rules: string)
    ensures rules == RuleSection(effective)
  {
    hide *;
    RuleSectionEnds(effective);
    NoRuleSection();
    rules := "";
    if effective != [] {
      var listed := WriteRuleLines(effective);
      rules := RuleTop() + listed + "\n";
    }
  }

  lemma NoRuleSection()
    ensures RuleSection([]) == ""
  {
  }

  method WriteRuleLines(effective: seq<Record>) returns (listed: string)
    ensures listed == Ended(RuleLines(effective))
  {
    hide *;
    listed := "";
    NoRuleLines();
    NothingEnded();
    assert effective[..0] == [];
    for k := 0 to |effective|
      invariant listed == Ended(RuleLines(effective[..k]))
    {
      var d := effective[k].declaration;
      RuleLinesMore(effective, k);
      listed := listed + (MarkerText(d.id, d.effect) + "\n" + d.content + "\n");
    }
    assert effective[..|effective|] == effective;
  }

  lemma NothingEnded()
    ensures Ended([]) == ""
  {
  }

  /** `_compose_instructions`, from fragments in their final order. */
  method ComposeInstructions(fragments: seq<Fragment>) returns (composition: Composition)
    ensures composition.Conflict? <==> !IdsDiffer(fragments)
    ensures composition.Refusal? ==> RunTokens(AllTokens(fragments)) == Failed(composition.fault)
    ensures composition.Composition? ==>
              && Whole(AllTokens(fragments)) && Mergeable(fragments) && composition.trace == Run(RulesOf(AllTokens(fragments))).value.trace
              && composition.effective == EffectiveOf(fragments) && composition.content == ComposedFile(fragments)
  {
    if exists i, j | 0 <= i < j < |fragments| :: fragments[i].id == fragments[j].id { return Conflict; }
    assert IdsDiffer(fragments);
    hide IdsDiffer, RunTokens, RulesOf, Resolved, Run, Sections, RuleSection, Ended, Whole, AllTokens, Texts, FirstIds;
    var resolution := ResolveInstructionRules(fragments);
    if resolution.Refused? { return Refusal(resolution.fault); }
    TextsOfAll(fragments);
    var content := Ended(TITLE);
    var sections := WriteSections(fragments, resolution.text);
    content := content + sections;
    var rules := WriteRules(resolution.effective);
    content := content + rules;
    composition := Composition(content, resolution.trace, resolution.effective);
  }
}
