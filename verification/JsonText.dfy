/** The text of canonical JSON, and why it can be read in one way only. */
module JsonText {
  import opened Order
  import opened Digits

  /** A value in canonical form: its object keys stand in the order they are printed in. */
  datatype Tree =
    | TNull
    | TBool(flag: bool)
    | TNumber(digits: string)
    | TString(text: string)
    | TArray(items: seq<Tree>)
    | TObject(members: seq<Member>)

  datatype Member = Member(key: string, tree: Tree)

  // ---------------------------------------------------------------- strings

  function HexDigit(n: nat): char
    requires n < 16
  {
    if n < 10 then ('0' as int + n) as char else ('a' as int + n - 10) as char
  }

  /** One byte of a string: two-character escapes, `\u00xx` for the other controls, all else as it is. */
  function EscapeChar(c: char): (s: string)
    ensures s != [] && s[0] != '"'
  {
    if c == '"' then ['\\', '"']
    else if c == '\\' then ['\\', '\\']
    else if c as int == 8 then ['\\', 'b']
    else if c as int == 12 then ['\\', 'f']
    else if c as int == 10 then ['\\', 'n']
    else if c as int == 13 then ['\\', 'r']
    else if c as int == 9 then ['\\', 't']
    else if c as int < 32 then ['\\', 'u', '0', '0', HexDigit(c as int / 16), HexDigit(c as int % 16)]
    else [c]
  }

  function Escaped(text: string): string {
    if text == [] then "" else EscapeChar(text[0]) + Escaped(text[1..])
  }

  function Quoted(text: string): string { ['"'] + Escaped(text) + ['"'] }

  /** An escape sequence is never the beginning of another one. */
  lemma EscapeIsReadable(c: char, d: char, x: string, y: string)
    requires EscapeChar(c) + x == EscapeChar(d) + y
    ensures c == d && x == y
  {
    var s, t := EscapeChar(c), EscapeChar(d);
    assert (s + x)[0] == s[0] && (t + y)[0] == t[0];
    if |s| > 1 && |t| > 1 {
      assert (s + x)[1] == s[1] && (t + y)[1] == t[1];
      if |s| == 6 && |t| == 6 {
        assert (s + x)[4] == s[4] && (t + y)[4] == t[4];
        assert (s + x)[5] == s[5] && (t + y)[5] == t[5];
      }
    }
    assert s == t;
    assert (s + x)[|s|..] == x && (t + y)[|t|..] == y;
  }

  lemma {:induction false} EscapedIsReadable(a: string, b: string, x: string, y: string)
    requires Escaped(a) + ['"'] + x == Escaped(b) + ['"'] + y
    ensures a == b && x == y
  {
    hide EscapeChar, Escaped;
    EscapedHead(a, x);
    EscapedHead(b, y);
    if a == [] {
      EscapedNothing(x);
      EscapedNothing(y);
      assert (['"'] + x)[1..] == x && (['"'] + y)[1..] == y;
    } else {
      EscapedSplits(a, x);
      EscapedSplits(b, y);
      EscapeIsReadable(a[0], b[0], Escaped(a[1..]) + ['"'] + x, Escaped(b[1..]) + ['"'] + y);
      EscapedIsReadable(a[1..], b[1..], x, y);
      assert a == [a[0]] + a[1..] && b == [b[0]] + b[1..];
    }
  }

  lemma EscapedNothing(x: string)
    ensures Escaped("") + ['"'] + x == ['"'] + x
  {
  }

  lemma EscapedSplits(a: string, x: string)
    requires a != []
    ensures Escaped(a) + ['"'] + x == EscapeChar(a[0]) + (Escaped(a[1..]) + ['"'] + x)
  {
  }

  lemma EscapedHead(a: string, x: string)
    ensures var s := Escaped(a) + ['"'] + x; s != [] && (s[0] == '"' <==> a == [])
  {
    if a != [] { assert (Escaped(a) + ['"'] + x)[0] == EscapeChar(a[0])[0]; }
  }

  lemma QuotedIsReadable(a: string, b: string, x: string, y: string)
    requires Quoted(a) + x == Quoted(b) + y
    ensures a == b && x == y
  {
    assert (Quoted(a) + x)[1..] == Escaped(a) + ['"'] + x;
    assert (Quoted(b) + y)[1..] == Escaped(b) + ['"'] + y;
    EscapedIsReadable(a, b, x, y);
  }

  // ---------------------------------------------------------------- printing

  function Print(t: Tree): string
    decreases t
  {
    match t
    case TNull => "null"
    case TBool(flag) => if flag then "true" else "false"
    case TNumber(digits) => digits
    case TString(text) => Quoted(text)
    case TArray(items) => "[" + PrintItems(items) + "]"
    case TObject(members) => "{" + PrintMembers(members) + "}"
  }

  function PrintItems(items: seq<Tree>): string
    decreases items
  {
    if items == [] then "" else Print(items[0]) + PrintMoreItems(items[1..])
  }

  function PrintMoreItems(items: seq<Tree>): string
    decreases items
  {
    if items == [] then "" else "," + Print(items[0]) + PrintMoreItems(items[1..])
  }

  function PrintMember(m: Member): string
    decreases m
  {
    Quoted(m.key) + ":" + Print(m.tree)
  }

  function PrintMembers(members: seq<Member>): string
    decreases members
  {
    if members == [] then "" else PrintMember(members[0]) + PrintMoreMembers(members[1..])
  }

  function PrintMoreMembers(members: seq<Member>): string
    decreases members
  {
    if members == [] then "" else "," + PrintMember(members[0]) + PrintMoreMembers(members[1..])
  }

  // ---------------------------------------------------------------- reading

  predicate NumberChar(c: char) { IsDigit(c) || c == '-' || c == '+' || c == '.' || c == 'e' }

  predicate NumberChars(s: string) { forall i | 0 <= i < |s| :: NumberChar(s[i]) }

  /** The characters of a printed number, beginning with a digit or a minus sign. */
  predicate NumberText(s: string) {
    s != [] && (IsDigit(s[0]) || s[0] == '-') && NumberChars(s)
  }

  ghost predicate Printable(t: Tree) {
    match t
    case TNumber(digits) => NumberText(digits)
    case TArray(items) => forall i | 0 <= i < |items| :: Printable(items[i])
    case TObject(members) => forall i | 0 <= i < |members| :: Printable(members[i].tree)
    case _ => true
  }

  /** What may follow a value. */
  predicate Stops(rest: string) { rest == [] || rest[0] in ",]}\n" }

  /** The first character gives the kind of value away. */
  function Lead(t: Tree): char
    requires Printable(t)
  {
    match t
    case TNull => 'n'
    case TBool(flag) => if flag then 't' else 'f'
    case TNumber(digits) => digits[0]
    case TString(_) => '"'
    case TArray(_) => '['
    case TObject(_) => '{'
  }

  lemma StartsWithLead(t: Tree)
    requires Printable(t)
    ensures Print(t) != [] && Print(t)[0] == Lead(t)
    ensures Lead(t) != ',' && Lead(t) != ']' && Lead(t) != '}'
  {
  }

  lemma SameKind(a: Tree, b: Tree, x: string, y: string)
    requires Printable(a) && Printable(b) && Print(a) + x == Print(b) + y
    ensures Lead(a) == Lead(b)
    ensures a.TNull? == b.TNull? && a.TBool? == b.TBool? && a.TNumber? == b.TNumber?
    ensures a.TString? == b.TString? && a.TArray? == b.TArray? && a.TObject? == b.TObject?
    ensures a.TBool? ==> a.flag == b.flag
  {
    StartsWithLead(a);
    StartsWithLead(b);
    hide Print;
    assert (Print(a) + x)[0] == Lead(a) && (Print(b) + y)[0] == Lead(b);
  }

  lemma NumberIsReadable(a: string, b: string, x: string, y: string)
    requires NumberText(a) && NumberText(b) && Stops(x) && Stops(y) && a + x == b + y
    ensures a == b && x == y
  {
    NumberEnds(a, x);
    NumberEnds(b, y);
    assert |a| == |b|;
    assert (a + x)[..|a|] == a && (b + y)[..|b|] == b && (a + x)[|a|..] == x && (b + y)[|b|..] == y;
  }

  lemma NumberEnds(a: string, x: string)
    requires NumberText(a) && Stops(x)
    ensures forall i | 0 <= i < |a| :: NumberChar((a + x)[i])
    ensures |a| < |a + x| ==> !NumberChar((a + x)[|a|])
  {
  }

  /** A printed value followed by a stop can be read in one way only. */
  lemma {:induction false} Readable(a: Tree, b: Tree, x: string, y: string)
    requires Printable(a) && Printable(b) && Stops(x) && Stops(y) && Print(a) + x == Print(b) + y
    ensures a == b && x == y
    decreases a
  {
    SameKind(a, b, x, y);
    match a
    case TNull => SameEnd("null", x, y);
    case TBool(flag) => SameEnd(if flag then "true" else "false", x, y);
    case TNumber(digits) => NumberIsReadable(digits, b.digits, x, y);
    case TString(text) => QuotedIsReadable(text, b.text, x, y);
    case TArray(items) =>
      Bracketed("[", PrintItems(items), PrintItems(b.items), "]", x, y);
      ItemsAreReadable(items, b.items, x, y);
    case TObject(members) =>
      Bracketed("{", PrintMembers(members), PrintMembers(b.members), "}", x, y);
      MembersAreReadable(members, b.members, x, y);
  }

  lemma Bracketed(open: string, s: string, t: string, close: string, x: string, y: string)
    requires open + s + close + x == open + t + close + y
    ensures s + close + x == t + close + y
  {
    assert open + s + close + x == open + (s + close + x);
    assert open + t + close + y == open + (t + close + y);
    SameEnd(open, s + close + x, t + close + y);
  }

  lemma SameEnd(s: string, x: string, y: string)
    requires s + x == s + y
    ensures x == y
  {
    assert (s + x)[|s|..] == x && (s + y)[|s|..] == y;
  }

  lemma {:induction false} ItemsAreReadable(a: seq<Tree>, b: seq<Tree>, x: string, y: string)
    requires (forall i | 0 <= i < |a| :: Printable(a[i])) && forall i | 0 <= i < |b| :: Printable(b[i])
    requires PrintItems(a) + "]" + x == PrintItems(b) + "]" + y
    ensures a == b && x == y
    decreases a, 1
  {
    if a == [] || b == [] {
      if a != [] { FirstItem(a, x); }
      if b != [] { FirstItem(b, y); }
      assert (PrintItems(a) + "]" + x)[0] == (PrintItems(b) + "]" + y)[0];
      SameEnd("]", x, y) by { assert "" + "]" + x == "]" + x && "" + "]" + y == "]" + y; }
    } else {
      hide *;
      var u, v := PrintMoreItems(a[1..]) + "]" + x, PrintMoreItems(b[1..]) + "]" + y;
      ItemsSplit(a, x);
      ItemsSplit(b, y);
      MoreItemsStop(a[1..], x);
      MoreItemsStop(b[1..], y);
      Readable(a[0], b[0], u, v);
      MoreItemsAreReadable(a[1..], b[1..], x, y);
      assert a == [a[0]] + a[1..] && b == [b[0]] + b[1..];
    }
  }

  lemma Regroup(first: string, more: string, close: string, x: string)
    ensures first + more + close + x == first + (more + close + x)
    ensures "," + first + more + close + x == "," + (first + (more + close + x))
  {
  }

  lemma ItemsSplit(a: seq<Tree>, x: string)
    requires a != []
    ensures PrintItems(a) + "]" + x == Print(a[0]) + (PrintMoreItems(a[1..]) + "]" + x)
    ensures PrintMoreItems(a) + "]" + x == "," + (Print(a[0]) + (PrintMoreItems(a[1..]) + "]" + x))
  {
    hide Print, PrintMember;
    Regroup(Print(a[0]), PrintMoreItems(a[1..]), "]", x);
  }

  lemma FirstItem(a: seq<Tree>, x: string)
    requires a != [] && Printable(a[0])
    ensures PrintItems(a) + "]" + x != [] && (PrintItems(a) + "]" + x)[0] != ']'
  {
    StartsWithLead(a[0]);
    hide Print;
  }

  lemma MoreItemsStop(a: seq<Tree>, x: string)
    ensures Stops(PrintMoreItems(a) + "]" + x)
    ensures (PrintMoreItems(a) + "]" + x)[0] == if a == [] then ']' else ','
  {
    hide Print;
  }

  lemma {:induction false} MoreItemsAreReadable(a: seq<Tree>, b: seq<Tree>, x: string, y: string)
    requires (forall i | 0 <= i < |a| :: Printable(a[i])) && forall i | 0 <= i < |b| :: Printable(b[i])
    requires PrintMoreItems(a) + "]" + x == PrintMoreItems(b) + "]" + y
    ensures a == b && x == y
    decreases a, 0
  {
    MoreItemsStop(a, x);
    MoreItemsStop(b, y);
    if a == [] {
      SameEnd("]", x, y) by { assert "" + "]" + x == "]" + x && "" + "]" + y == "]" + y; }
    } else {
      hide *;
      var u, v := PrintMoreItems(a[1..]) + "]" + x, PrintMoreItems(b[1..]) + "]" + y;
      ItemsSplit(a, x);
      ItemsSplit(b, y);
      SameEnd(",", Print(a[0]) + u, Print(b[0]) + v);
      MoreItemsStop(a[1..], x);
      MoreItemsStop(b[1..], y);
      Readable(a[0], b[0], u, v);
      MoreItemsAreReadable(a[1..], b[1..], x, y);
      assert a == [a[0]] + a[1..] && b == [b[0]] + b[1..];
    }
  }

  lemma {:induction false} MemberIsReadable(a: Member, b: Member, x: string, y: string)
    requires Printable(a.tree) && Printable(b.tree) && Stops(x) && Stops(y)
    requires PrintMember(a) + x == PrintMember(b) + y
    ensures a == b && x == y
    decreases a
  {
    hide Quoted, Print, Stops;
    MemberSplits(a, x);
    MemberSplits(b, y);
    QuotedIsReadable(a.key, b.key, ":" + (Print(a.tree) + x), ":" + (Print(b.tree) + y));
    SameEnd(":", Print(a.tree) + x, Print(b.tree) + y);
    Readable(a.tree, b.tree, x, y);
  }

  lemma MemberSplits(m: Member, x: string)
    ensures PrintMember(m) + x == Quoted(m.key) + (":" + (Print(m.tree) + x))
  {
    hide Quoted, Print;
  }

  lemma {:induction false} MembersAreReadable(a: seq<Member>, b: seq<Member>, x: string, y: string)
    requires (forall i | 0 <= i < |a| :: Printable(a[i].tree)) && forall i | 0 <= i < |b| :: Printable(b[i].tree)
    requires PrintMembers(a) + "}" + x == PrintMembers(b) + "}" + y
    ensures a == b && x == y
    decreases a, 1
  {
    if a == [] || b == [] {
      if a != [] { FirstMember(a, x); }
      if b != [] { FirstMember(b, y); }
      assert (PrintMembers(a) + "}" + x)[0] == (PrintMembers(b) + "}" + y)[0];
      SameEnd("}", x, y) by { assert "" + "}" + x == "}" + x && "" + "}" + y == "}" + y; }
    } else {
      hide *;
      var u, v := PrintMoreMembers(a[1..]) + "}" + x, PrintMoreMembers(b[1..]) + "}" + y;
      MembersSplit(a, x);
      MembersSplit(b, y);
      MoreMembersStop(a[1..], x);
      MoreMembersStop(b[1..], y);
      MemberIsReadable(a[0], b[0], u, v);
      MoreMembersAreReadable(a[1..], b[1..], x, y);
      assert a == [a[0]] + a[1..] && b == [b[0]] + b[1..];
    }
  }

  lemma MembersSplit(a: seq<Member>, x: string)
    requires a != []
    ensures PrintMembers(a) + "}" + x == PrintMember(a[0]) + (PrintMoreMembers(a[1..]) + "}" + x)
    ensures PrintMoreMembers(a) + "}" + x == "," + (PrintMember(a[0]) + (PrintMoreMembers(a[1..]) + "}" + x))
  {
    hide Print, PrintMember;
    Regroup(PrintMember(a[0]), PrintMoreMembers(a[1..]), "}", x);
  }

  lemma FirstMember(a: seq<Member>, x: string)
    requires a != []
    ensures PrintMembers(a) + "}" + x != [] && (PrintMembers(a) + "}" + x)[0] != '}'
  {
    hide Print, Escaped;
  }

  lemma MoreMembersStop(a: seq<Member>, x: string)
    ensures Stops(PrintMoreMembers(a) + "}" + x)
    ensures (PrintMoreMembers(a) + "}" + x)[0] == if a == [] then '}' else ','
  {
    hide PrintMember;
  }

  lemma {:induction false} MoreMembersAreReadable(a: seq<Member>, b: seq<Member>, x: string, y: string)
    requires (forall i | 0 <= i < |a| :: Printable(a[i].tree)) && forall i | 0 <= i < |b| :: Printable(b[i].tree)
    requires PrintMoreMembers(a) + "}" + x == PrintMoreMembers(b) + "}" + y
    ensures a == b && x == y
    decreases a, 0
  {
    MoreMembersStop(a, x);
    MoreMembersStop(b, y);
    if a == [] {
      SameEnd("}", x, y) by { assert "" + "}" + x == "}" + x && "" + "}" + y == "}" + y; }
    } else {
      hide *;
      var u, v := PrintMoreMembers(a[1..]) + "}" + x, PrintMoreMembers(b[1..]) + "}" + y;
      MembersSplit(a, x);
      MembersSplit(b, y);
      SameEnd(",", PrintMember(a[0]) + u, PrintMember(b[0]) + v);
      MoreMembersStop(a[1..], x);
      MoreMembersStop(b[1..], y);
      MemberIsReadable(a[0], b[0], u, v);
      MoreMembersAreReadable(a[1..], b[1..], x, y);
      assert a == [a[0]] + a[1..] && b == [b[0]] + b[1..];
    }
  }
}
