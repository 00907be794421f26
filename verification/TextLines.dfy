/** Lines and surrounding white space, as `str.splitlines` and `str.strip` see them. */
module TextLines {

  predicate IsBreak(c: char) {
    var n := c as int;
    0x0A <= n <= 0x0D || 0x1C <= n <= 0x1E || n == 0x85 || n == 0x2028 || n == 0x2029
  }

  predicate IsSpace(c: char) {
    var n := c as int;
    || IsBreak(c) || n == 0x09 || n == 0x1F || n == 0x20 || n == 0xA0 || n == 0x1680
    || 0x2000 <= n <= 0x200A || n == 0x202F || n == 0x205F || n == 0x3000
  }

  /** The line breaks of `str.splitlines`, and the further white space of `str.strip`. */
  lemma CharactersByCode(c: char)
    ensures IsBreak(c) <==> c as int in {10, 11, 12, 13, 28, 29, 30, 133, 8232, 8233}
    ensures IsSpace(c) <==>
      c as int in {9, 10, 11, 12, 13, 28, 29, 30, 31, 32, 133, 160, 5760, 8232, 8233, 8239, 8287, 12288} ||
      8192 <= c as int <= 8202
  {
  }

  // ---------------------------------------------------------------- strip

  function StripStart(s: string): (r: string)
    ensures |r| <= |s| && r == s[|s| - |r|..] && (r != [] ==> !IsSpace(r[0]))
  {
    if s == [] || !IsSpace(s[0]) then s else StripStart(s[1..])
  }

  function StripEnd(s: string): (r: string)
    ensures |r| <= |s| && r == s[..|r|] && (r != [] ==> !IsSpace(r[|r| - 1]))
  {
    if s == [] || !IsSpace(s[|s| - 1]) then s else StripEnd(s[..|s| - 1])
  }

  function Strip(s: string): string { StripEnd(StripStart(s)) }

  predicate Stripped(s: string) { s != [] ==> !IsSpace(s[0]) && !IsSpace(s[|s| - 1]) }

  lemma StripIsStripped(s: string)
    ensures Stripped(Strip(s))
  {
    var t := StripStart(s);
    var r := StripEnd(t);
    assert r != [] ==> r[0] == t[0];
  }

  lemma StrippedStays(s: string)
    requires Stripped(s)
    ensures Strip(s) == s && StripStart(s) == s
  {
  }

  lemma {:induction false} StripStartFrom(c: char, s: string)
    requires IsSpace(c)
    ensures StripStart([c] + s) == StripStart(s) && Strip([c] + s) == Strip(s)
  {
    assert ([c] + s)[1..] == s;
  }

  lemma {:induction false} StripEndFrom(s: string, c: char)
    requires IsSpace(c)
    ensures Strip(s + [c]) == Strip(s)
  {
    if s == [] || !IsSpace(s[0]) {
      if s == [] {
        assert [] + [c] == [c];
        assert StripStart([c]) == StripStart([c][1..]) == [];
      } else {
        assert (s + [c])[0] == s[0];
        assert (s + [c])[..|s|] == s;
      }
    } else {
      assert (s + [c])[1..] == s[1..] + [c];
      StripEndFrom(s[1..], c);
    }
  }

  // ---------------------------------------------------------------- lines

  /** The first line of `s` has length `n`. */
  ghost predicate EndsAt(s: string, n: nat) {
    n <= |s| && (forall i | 0 <= i < n :: !IsBreak(s[i])) && (n < |s| ==> IsBreak(s[n]))
  }

  /** The position of the first line break, or the length when there is none. */
  function LineEnd(s: string): (n: nat)
    ensures n <= |s| && EndsAt(s, n)
  {
    if s == [] || IsBreak(s[0]) then 0 else 1 + LineEnd(s[1..])
  }

  /** Where the next line starts: a carriage return and a newline are one break. */
  function NextLine(s: string): (n: nat)
    ensures LineEnd(s) <= n <= |s| && (s != [] ==> n > 0)
  {
    var n := LineEnd(s);
    if n == |s| then n
    else if s[n] == '\r' && n + 1 < |s| && s[n + 1] == '\n' then n + 2
    else n + 1
  }

  function SplitLines(s: string): (lines: seq<string>)
    ensures forall line | line in lines :: OneLine(line)
    decreases |s|
  {
    if s == [] then [] else [s[..LineEnd(s)]] + SplitLines(s[NextLine(s)..])
  }

  predicate OneLine(s: string) { forall i | 0 <= i < |s| :: !IsBreak(s[i]) }

  lemma {:induction false} LineEndIs(s: string, n: nat)
    requires EndsAt(s, n)
    ensures LineEnd(s) == n
  {
    hide IsBreak;
    if n > 0 {
      assert !IsBreak(s[0]);
      LineEndIs(s[1..], n - 1);
    }
  }

  /** What follows a line's break does not matter for the line. */
  lemma SameEnd(s: string, t: string)
    requires s <= t && LineEnd(s) < |s|
    ensures LineEnd(t) == LineEnd(s) && t[..LineEnd(t)] == s[..LineEnd(s)]
    ensures NextLine(s) < |s| || s[|s| - 1] == '\n' ==> NextLine(t) == NextLine(s)
  {
    hide IsBreak;
    LineEndIs(t, LineEnd(s));
  }

  lemma LongerLine(c: char, s: string)
    requires !IsBreak(c)
    ensures LineEnd([c] + s) == LineEnd(s) + 1
    ensures ([c] + s)[..LineEnd([c] + s)] == [c] + s[..LineEnd(s)]
    ensures ([c] + s)[NextLine([c] + s)..] == s[NextLine(s)..]
  {
    var t, n := [c] + s, LineEnd(s);
    assert forall i | 0 <= i < |s| :: t[i + 1] == s[i];
    assert EndsAt(t, n + 1) by { hide IsBreak; }
    LineEndIs(t, n + 1);
    hide LineEnd, EndsAt;
    NextLineIs(t, n + 1);
    NextLineIs(s, n);
  }

  lemma SplitStep(s: string)
    requires s != []
    ensures SplitLines(s) == [s[..LineEnd(s)]] + SplitLines(s[NextLine(s)..])
  {
  }

  lemma NextLineIs(s: string, n: nat)
    requires LineEnd(s) == n
    ensures NextLine(s) == if n == |s| then n else if s[n] == '\r' && n + 1 < |s| && s[n + 1] == '\n' then n + 2 else n + 1
  {
  }

  /** A line that ends with a newline is split off. */
  lemma LineFirst(line: string, rest: string)
    requires OneLine(line)
    ensures SplitLines(line + "\n" + rest) == [line] + SplitLines(rest)
  {
    var s := line + "\n" + rest;
    LineEndIs(s, |line|);
    assert s[..|line|] == line && s[|line| + 1..] == rest;
  }

  lemma LineOnly(line: string)
    requires OneLine(line) && line != []
    ensures SplitLines(line) == [line]
  {
    LineEndIs(line, |line|);
    assert line[..|line|] == line && line[|line|..] == [];
  }

  /** Text that ends with a newline splits apart from whatever follows. */
  lemma {:induction false} SplitAtNewline(a: string, rest: string)
    ensures SplitLines(a + "\n" + rest) == SplitLines(a + "\n") + SplitLines(rest)
    decreases |a|
  {
    hide *;
    var line, k := FirstLineOfBoth(a, rest);
    if k == |a| + 1 {
      AfterNewline(a, rest);
      NoLines();
    } else {
      BeforeNewline(a, rest, k);
      SplitAtNewline(a[k..], rest);
    }
  }

  lemma FirstLineOfBoth(a: string, rest: string) returns (line: string, k: nat)
    ensures 0 < k <= |a| + 1
    ensures SplitLines(a + "\n") == [line] + SplitLines((a + "\n")[k..])
    ensures SplitLines(a + "\n" + rest) == [line] + SplitLines((a + "\n" + rest)[k..])
  {
    var s, t := a + "\n" + rest, a + "\n";
    EndsBeforeNewline(a);
    assert s == t + rest;
    SameEnd(t, s);
    line, k := t[..LineEnd(t)], NextLine(t);
    hide *;
    SplitStep(s);
    SplitStep(t);
  }

  lemma AfterNewline(a: string, rest: string)
    ensures (a + "\n" + rest)[|a + "\n"|..] == rest && (a + "\n")[|a + "\n"|..] == []
  {
  }

  lemma BeforeNewline(a: string, rest: string, k: nat)
    requires k <= |a|
    ensures (a + "\n" + rest)[k..] == a[k..] + "\n" + rest && (a + "\n")[k..] == a[k..] + "\n"
  {
  }

  lemma EndsBeforeNewline(a: string)
    ensures LineEnd(a + "\n") < |a + "\n"|
  {
    var t := a + "\n";
    assert IsBreak(t[|a|]);
  }

  lemma NoLines()
    ensures SplitLines([]) == []
  {
  }

  function Join(lines: seq<string>): string {
    if lines == [] then "" else if |lines| == 1 then lines[0] else lines[0] + "\n" + Join(lines[1..])
  }

  /** Joining lines and splitting again brings in no new line. */
  lemma {:induction false} JoinedLines(lines: seq<string>)
    requires forall line | line in lines :: OneLine(line)
    ensures forall line | line in SplitLines(Join(lines)) :: line in lines
  {
    if |lines| == 1 {
      if lines[0] != [] { LineOnly(lines[0]); }
    } else if |lines| > 1 {
      LineFirst(lines[0], Join(lines[1..]));
      JoinedLines(lines[1..]);
      assert lines == [lines[0]] + lines[1..];
    }
  }

  // ---------------------------------------------------------------- stripping a text changes no line's content

  /** Every line of `a`, apart from white space around it, is a line of `b`. */
  ghost predicate Covered(a: seq<string>, b: seq<string>) {
    forall line | line in a :: exists other :: other in b && Strip(other) == Strip(line)
  }

  ghost predicate LinesWithin(s: string, t: string) { Covered(SplitLines(s), SplitLines(t)) }

  lemma CoverItself(a: seq<string>)
    ensures Covered(a, a) && Covered([], a)
  {
  }

  lemma CoverFirst(line: string, line': string, a: seq<string>, b: seq<string>)
    requires Covered(a, b)
    ensures Covered(a, [line'] + b)
    ensures Strip(line) == Strip(line') ==> Covered([line] + a, [line'] + b)
  {
    hide Strip;
    assert ([line'] + b)[0] == line';
    assert forall other | other in b :: other in [line'] + b;
  }

  lemma WithinTransitive(a: string, b: string, c: string)
    requires LinesWithin(a, b) && LinesWithin(b, c)
    ensures LinesWithin(a, c)
  {
    hide Strip, SplitLines;
    forall line | line in SplitLines(a)
      ensures exists other :: other in SplitLines(c) && Strip(other) == Strip(line)
    {
      var middle :| middle in SplitLines(b) && Strip(middle) == Strip(line);
      var other :| other in SplitLines(c) && Strip(other) == Strip(middle);
    }
  }

  lemma FirstSpaceGone(c: char, s: string)
    requires IsSpace(c)
    ensures LinesWithin(s, [c] + s)
  {
    var t := [c] + s;
    SplitStep(t);
    if s == [] {
      NoLines();
      CoverItself(SplitLines(t));
    } else {
      SplitStep(s);
      if IsBreak(c) { BreakFirst(c, s); } else { SpaceFirst(c, s); }
    }
  }

  lemma SpaceFirst(c: char, s: string)
    requires IsSpace(c) && !IsBreak(c) && s != []
    ensures LinesWithin(s, [c] + s)
  {
    var t := [c] + s;
    LongerLine(c, s);
    SplitStep(t);
    SplitStep(s);
    StripStartFrom(c, s[..LineEnd(s)]);
    hide SplitLines, LineEnd, NextLine, IsBreak, IsSpace, Strip, Covered, EndsAt;
    var rest := SplitLines(s[NextLine(s)..]);
    CoverItself(rest);
    CoverFirst(s[..LineEnd(s)], [c] + s[..LineEnd(s)], rest, rest);
  }

  lemma BreakFirst(c: char, s: string)
    requires IsBreak(c) && s != []
    ensures LinesWithin(s, [c] + s)
  {
    hide *;
    if c == '\r' && s[0] == '\n' {
      CarriageReturnFirst(s);
    } else {
      EmptyLineFirst(c, s);
    }
    CoverItself(SplitLines(s));
    CoverFirst("", "", SplitLines(s), SplitLines(s));
    WithinMeans(s, [c] + s);
  }

  lemma WithinMeans(s: string, t: string)
    ensures LinesWithin(s, t) <==> Covered(SplitLines(s), SplitLines(t))
  {
  }

  lemma CarriageReturnFirst(s: string)
    requires s != [] && s[0] == '\n'
    ensures SplitLines(['\r'] + s) == SplitLines(s)
  {
    var t := ['\r'] + s;
    LineEndIs(t, 0);
    NewlineFirst(s);
    assert t[2..] == s[1..] && t[..0] == s[..0];
  }

  lemma EmptyLineFirst(c: char, s: string)
    requires IsBreak(c) && s != [] && !(c == '\r' && s[0] == '\n')
    ensures SplitLines([c] + s) == [""] + SplitLines(s)
  {
    var t := [c] + s;
    LineEndIs(t, 0);
    assert t[1..] == s && t[..0] == "";
  }

  lemma NewlineFirst(s: string)
    requires s != [] && s[0] == '\n'
    ensures LineEnd(s) == 0 && NextLine(s) == 1
  {
    LineEndIs(s, 0);
  }

  lemma {:induction false} LastSpaceGone(s: string, c: char)
    requires IsSpace(c)
    ensures LinesWithin(s, s + [c])
    decreases |s|
  {
    if s == [] {
      NoLines();
      CoverItself(SplitLines(s + [c]));
    } else if LineEnd(s) == |s| {
      LastOfOnlyLine(s, c);
    } else {
      hide *;
      if NextLine(s) < |s| { LastSpaceGone(s[NextLine(s)..], c); }
      FirstLineStays(s, c);
    }
  }

  /** A text with a line break keeps its first line when a character is added at its end. */
  lemma FirstLineStays(s: string, c: char)
    requires LineEnd(s) < |s|
    requires NextLine(s) < |s| ==> LinesWithin(s[NextLine(s)..], s[NextLine(s)..] + [c])
    ensures LinesWithin(s, s + [c])
  {
    var t, line, rest := s + [c], s[..LineEnd(s)], s[NextLine(s)..];
    assert s <= t;
    SameEnd(s, t);
    hide *;
    SplitStep(t);
    SplitStep(s);
    WithinMeans(s, t);
    if NextLine(s) == |s| {
      NoLines();
      CoverItself(SplitLines(t[NextLine(t)..]));
      CoverFirst(line, line, [], SplitLines(t[NextLine(t)..]));
    } else {
      WithinMeans(rest, rest + [c]);
      CoverFirst(line, line, SplitLines(rest), SplitLines(rest + [c]));
      TailOfSum(s, c, NextLine(s));
    }
  }

  lemma TailOfSum(s: string, c: char, k: nat)
    requires k <= |s|
    ensures (s + [c])[k..] == s[k..] + [c]
  {
  }

  lemma LastOfOnlyLine(s: string, c: char)
    requires IsSpace(c) && s != [] && LineEnd(s) == |s|
    ensures LinesWithin(s, s + [c])
  {
    var t := s + [c];
    LineOnly(s);
    StripEndFrom(s, c);
    OnlyLineLonger(s, c);
    SplitStep(t);
    hide SplitLines, LineEnd, NextLine, IsBreak, IsSpace, Strip, Covered, EndsAt;
    var line := t[..LineEnd(t)];
    CoverItself(SplitLines(t[NextLine(t)..]));
    CoverFirst(s, line, [], SplitLines(t[NextLine(t)..]));
    assert [s] + [] == [s];
  }

  lemma OnlyLineLonger(s: string, c: char)
    requires LineEnd(s) == |s|
    ensures var t := s + [c]; t[..LineEnd(t)] == s || t[..LineEnd(t)] == t
  {
    var t := s + [c];
    assert forall i | 0 <= i < |s| :: t[i] == s[i];
    if IsBreak(c) {
      assert EndsAt(t, |s|) by { hide IsBreak; }
      LineEndIs(t, |s|);
    } else {
      assert EndsAt(t, |s| + 1) by { hide IsBreak; }
      LineEndIs(t, |s| + 1);
    }
  }

  lemma {:induction false} StripStartWithin(s: string)
    ensures LinesWithin(StripStart(s), s)
  {
    if s != [] && IsSpace(s[0]) {
      StripStartWithin(s[1..]);
      FirstSpaceGone(s[0], s[1..]);
      assert s == [s[0]] + s[1..];
      WithinTransitive(StripStart(s), s[1..], s);
    }
  }

  lemma {:induction false} StripEndWithin(s: string)
    ensures LinesWithin(StripEnd(s), s)
  {
    if s == [] || !IsSpace(s[|s| - 1]) {
      hide SplitLines;
      CoverItself(SplitLines(s));
    } else {
      hide SplitLines, LinesWithin;
      var front := s[..|s| - 1];
      StripEndWithin(front);
      LastSpaceGone(front, s[|s| - 1]);
      assert s == front + [s[|s| - 1]];
      WithinTransitive(StripEnd(s), front, s);
    }
  }

  lemma StripWithin(s: string)
    ensures LinesWithin(Strip(s), s)
  {
    StripStartWithin(s);
    StripEndWithin(StripStart(s));
    WithinTransitive(Strip(s), StripStart(s), s);
  }
}
