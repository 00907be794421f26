/** The printer that writes canonical JSON, and what its output identifies. */
module JsonPrinter {
  import opened Wrappers
  import opened Order
  import opened Digits
  import opened Integers
  import opened Floats
  import opened FloatLayout
  import opened JsonText
  import opened JsonValues

  // ---------------------------------------------------------------- printed numbers

  lemma IntegerIsNumberText(source: string)
    requires IntegerText(source)
    ensures NumberText(source) && NumberText("0")
  {
    var unsigned := Unsigned(source);
    assert NumberChars(unsigned);
    Together(if source[0] == '-' then "-" else "", unsigned);
    assert source == (if source[0] == '-' then "-" else "") + unsigned;
  }

  lemma Together(a: string, b: string)
    requires NumberChars(a) && NumberChars(b)
    ensures NumberChars(a + b)
  {
  }

  lemma DigitsAreNumberChars(s: string)
    requires AllDigits(s)
    ensures NumberChars(s)
  {
  }

  lemma SuffixIsNumberText(e: int)
    ensures NumberChars(ExponentSuffix(e))
  {
    var digits := TwoDigits(if e < 0 then -e else e);
    DigitsAreNumberChars(digits);
    Together(if e >= 0 then "+" else "-", digits);
  }

  lemma ExponentIsNumberText(significant: string, scientific: int)
    requires significant != [] && AllDigits(significant)
    ensures NumberChars(WithExponent(significant, scientific)) && IsDigit(WithExponent(significant, scientific)[0])
  {
    hide NumberChars, ExponentSuffix;
    var tail := if |significant| > 1 then "." + significant[1..] else "";
    DigitsAreNumberChars(significant[..1]);
    DigitsAreNumberChars(significant[1..]);
    Marks();
    Together(".", significant[1..]);
    Together(significant[..1], tail);
    SuffixIsNumberText(scientific);
    Together(significant[..1] + tail, "e");
    Together(significant[..1] + tail + "e", ExponentSuffix(scientific));
  }

  lemma PointIsNumberText(significant: string, scientific: int)
    requires significant != [] && AllDigits(significant)
    ensures NumberChars(WithPoint(significant, scientific)) && IsDigit(WithPoint(significant, scientific)[0])
  {
    var position := scientific + 1;
    var integer, fraction :=
      if position <= 0 then "0" else if position >= |significant| then significant + Zeros(position - |significant|) else significant[..position],
      if position <= 0 then Zeros(-position) + significant else if position >= |significant| then "0" else significant[position..];
    assert AllDigits(integer) && AllDigits(fraction) && integer != [];
    assert WithPoint(significant, scientific) == integer + "." + fraction;
    hide WithPoint, NumberChars, Zeros;
    Marks();
    DigitsAreNumberChars(integer);
    DigitsAreNumberChars(fraction);
    Together(integer, ".");
    Together(integer + ".", fraction);
  }

  lemma Marks()
    ensures NumberChars(".") && NumberChars("e") && NumberChars("-") && NumberChars("") && NumberChars("0.0")
  {
    assert NumberChar("."[0]) && NumberChar("e"[0]) && NumberChar("-"[0]);
    assert NumberChar("0.0"[0]) && NumberChar("0.0"[1]) && NumberChar("0.0"[2]);
  }

  lemma LayoutIsNumberText(d: Decimal)
    requires NormalDecimal(d)
    ensures NumberText(Layout(d))
  {
    Marks();
    match d
    case Zero(negative) => SignedNumber(negative, "0.0");
    case Decimal(negative, significant, scientific) =>
      hide NumberChars, WithExponent, WithPoint;
      if InExponentForm(d) {
        ExponentIsNumberText(significant, scientific);
        SignedNumber(negative, WithExponent(significant, scientific));
      } else {
        PointIsNumberText(significant, scientific);
        SignedNumber(negative, WithPoint(significant, scientific));
      }
  }

  lemma SignedNumber(negative: bool, unsigned: string)
    requires unsigned != [] && IsDigit(unsigned[0]) && NumberChars(unsigned)
    ensures NumberText(Sign(negative) + unsigned)
  {
    Marks();
    Together(Sign(negative), unsigned);
  }

  lemma NumberIsNumberText(source: string, rounded: Option<string>)
    requires NumberFine(source, rounded) && (IsFloat(source) ==> rounded.Some?)
    ensures NumberText(PythonNumber(source, rounded))
  {
    hide NumberText, Layout, OnlyZeros, Decompose, SplitParts, ExponentFits, Significant, IsZeroText, Numeric, NormalDecimal;
    if IsFloat(source) {
      DecomposeKeepsValue(rounded.value);
      LayoutIsNumberText(Decompose(rounded.value));
    } else {
      IntegerIsNumberText(source);
    }
  }

  lemma {:induction false} CanonIsPrintable(v: Value)
    requires WellFormed(v) && Finite(v)
    ensures Printable(Canon(v))
    decreases v
  {
    match v
    case Number(source, rounded) => NumberIsNumberText(source, rounded);
    case Array(items) =>
      forall i | 0 <= i < |items| { CanonIsPrintable(items[i]); }
    case Object(entries) =>
      forall i | 0 <= i < |entries| { CanonIsPrintable(entries[i].value); }
      var c := CanonEntries(entries);
      SortMembers(MemberLess, c);
      var members := Sort(MemberLess, c);
      forall i | 0 <= i < |members|
        ensures Printable(members[i].tree)
      {
        assert members[i] in members;
        var j :| 0 <= j < |c| && c[j] == members[i];
      }
    case _ =>
  }

  // ---------------------------------------------------------------- what the text identifies

  ghost function CanonicalText(v: Value): string
    requires WellFormed(v) && Finite(v)
  {
    Print(Canon(v)) + "\n"
  }

  /** Two values have the same canonical text exactly when they mean the same. */
  lemma TextIsMeaning(a: Value, b: Value)
    requires WellFormed(a) && WellFormed(b) && Finite(a) && Finite(b)
    ensures CanonicalText(a) == CanonicalText(b) <==> MeaningOf(a) == MeaningOf(b)
  {
    CanonIsMeaning(a, b);
    if CanonicalText(a) == CanonicalText(b) {
      CanonIsPrintable(a);
      CanonIsPrintable(b);
      Readable(Canon(a), Canon(b), "\n", "\n");
    }
  }

  /** No canonical text begins another, so texts written one after the other stay apart. */
  lemma TextIsPrefixFree(a: Value, b: Value, x: string, y: string)
    requires WellFormed(a) && WellFormed(b) && Finite(a) && Finite(b)
    requires CanonicalText(a) + x == CanonicalText(b) + y
    ensures MeaningOf(a) == MeaningOf(b) && x == y
  {
    hide Canon, MeaningOf, Print, WellFormed, Finite, Printable;
    CanonIsPrintable(a);
    CanonIsPrintable(b);
    CanonIsMeaning(a, b);
    NewlineEnds(a, x);
    NewlineEnds(b, y);
    Readable(Canon(a), Canon(b), "\n" + x, "\n" + y);
    SameEnd("\n", x, y);
  }

  lemma NewlineEnds(v: Value, x: string)
    requires WellFormed(v) && Finite(v)
    ensures CanonicalText(v) + x == Print(Canon(v)) + ("\n" + x) && Stops("\n" + x)
  {
    hide Canon, Print, WellFormed, Finite;
    assert (Print(Canon(v)) + "\n") + x == Print(Canon(v)) + ("\n" + x);
  }

  // ---------------------------------------------------------------- appending

  lemma {:induction false} AppendItem(items: seq<Tree>, last: Tree)
    ensures PrintItems(items + [last]) == if items == [] then Print(last) else PrintItems(items) + "," + Print(last)
    ensures PrintMoreItems(items + [last]) == PrintMoreItems(items) + "," + Print(last)
  {
    hide Print;
    if items != [] {
      assert (items + [last])[1..] == items[1..] + [last];
      AppendItem(items[1..], last);
    } else {
      assert [last][1..] == [] && [] + [last] == [last];
      assert PrintMoreItems([]) == "";
    }
  }

  lemma {:induction false} AppendMember(members: seq<Member>, last: Member)
    ensures PrintMembers(members + [last]) == if members == [] then PrintMember(last) else PrintMembers(members) + "," + PrintMember(last)
    ensures PrintMoreMembers(members + [last]) == PrintMoreMembers(members) + "," + PrintMember(last)
  {
    hide PrintMember;
    if members != [] {
      assert (members + [last])[1..] == members[1..] + [last];
      AppendMember(members[1..], last);
    } else {
      assert [last][1..] == [] && [] + [last] == [last];
      assert PrintMoreMembers([]) == "";
    }
  }

  ghost function CanonEntry(e: Entry): Member
    requires WellFormed(e.value) && Finite(e.value)
  {
    Member(e.key, Canon(e.value))
  }

  lemma CanonOfSlice(entries: seq<Entry>, i: nat, j: nat)
    requires FineEntries(entries) && i <= j <= |entries|
    ensures FineEntries(entries[i..j]) && CanonEntries(entries[i..j]) == CanonEntries(entries)[i..j]
  {
    hide Canon, CanonEntries, WellFormed, Finite;
    assert FineEntries(entries[i..j]);
    assert CanonEntries(entries[i..j]) == CanonEntries(entries)[i..j];
  }

  lemma CanonOfSum(a: seq<Entry>, b: seq<Entry>)
    requires FineEntries(a) && FineEntries(b)
    ensures FineEntries(a + b) && CanonEntries(a + b) == CanonEntries(a) + CanonEntries(b)
  {
    hide Canon, WellFormed, Finite;
  }

  lemma CanonOfOne(e: Entry)
    requires WellFormed(e.value) && Finite(e.value)
    ensures FineEntries([e]) && CanonEntries([e]) == [CanonEntry(e)]
  {
    hide Canon, WellFormed, Finite;
  }

  /** Sorting the entries first gives the sorted members. */
  lemma {:induction false} SortThenCanon(entries: seq<Entry>)
    requires FineEntries(entries)
    ensures FineEntries(Sort(EntryLess, entries))
    ensures CanonEntries(Sort(EntryLess, entries)) == Sort(MemberLess, CanonEntries(entries))
  {
    if entries != [] {
      var n := |entries| - 1;
      var front, last := entries[..n], entries[n];
      FrontAndLast(entries);
      hide CanonEntries, FineEntries, Insert, EntryLess, MemberLess, CanonEntry, WellFormed, Finite;
      SortThenCanon(front);
      InsertThenCanon(last, Sort(EntryLess, front));
    } else {
      assert CanonEntries(entries) == [];
    }
  }

  lemma FrontAndLast(entries: seq<Entry>)
    requires FineEntries(entries) && entries != []
    ensures var n := |entries| - 1;
            && WellFormed(entries[n].value) && Finite(entries[n].value) && FineEntries(entries[..n])
            && CanonEntries(entries)[..n] == CanonEntries(entries[..n]) && CanonEntries(entries)[n] == CanonEntry(entries[n])
  {
    var n := |entries| - 1;
    assert entries[..n] == entries[0..n];
    CanonOfSlice(entries, 0, n);
    assert CanonEntries(entries)[..n] == CanonEntries(entries)[0..n];
    hide Canon, WellFormed, Finite;
  }

  lemma {:induction false} InsertThenCanon(e: Entry, entries: seq<Entry>)
    requires WellFormed(e.value) && Finite(e.value) && FineEntries(entries)
    ensures FineEntries(Insert(EntryLess, e, entries))
    ensures CanonEntries(Insert(EntryLess, e, entries)) == Insert(MemberLess, CanonEntry(e), CanonEntries(entries))
  {
    CanonOfOne(e);
    if entries == [] {
      assert CanonEntries(entries) == [];
    } else {
      var c := CanonEntries(entries);
      CanonOfSum([e], entries);
      CanonOfSlice(entries, 0, 1);
      CanonOfSlice(entries, 1, |entries|);
      assert entries[0..1] == [entries[0]] && entries[1..|entries|] == entries[1..] && c[1..|c|] == c[1..];
      hide CanonEntries, FineEntries, WellFormed, Finite, CanonEntry;
      if !EntryLess(e, entries[0]) {
        InsertThenCanon(e, entries[1..]);
        CanonOfSum([entries[0]], Insert(EntryLess, e, entries[1..]));
        assert c[0..1] == [c[0]];
      }
    }
  }

  // ---------------------------------------------------------------- the printer

  class Output {
    var bytes: string

    constructor ()
      ensures bytes == ""
    {
      bytes := "";
    }

    method Push(text: string)
      modifies this
      ensures bytes == old(bytes) + text
    {
      bytes := bytes + text;
    }
  }

  /** The output after the first `k` items of an array. */
  ghost predicate WrittenItems(start: string, items: seq<Value>, k: int, bytes: string) {
    && 0 <= k <= |items| && FineItems(items[..k])
    && bytes == start + "[" + PrintItems(CanonItems(items[..k]))
  }

  ghost predicate WrittenMembers(start: string, entries: seq<Entry>, k: int, bytes: string) {
    && 0 <= k <= |entries| && FineEntries(entries[..k])
    && bytes == start + "{" + PrintMembers(CanonEntries(entries[..k]))
  }

  lemma OneItemMore(start: string, items: seq<Value>, k: nat, bytes: string)
    requires k < |items| && WrittenItems(start, items, k, bytes) && WellFormed(items[k]) && Finite(items[k])
    ensures WrittenItems(start, items, k + 1, (if k > 0 then bytes + "," else bytes) + Print(Canon(items[k])))
  {
    hide CanonItems, Canon, WellFormed, Finite, FineItems, Print, PrintItems;
    AppendItem(CanonItems(items[..k]), Canon(items[k]));
    assert items[..k + 1] == items[..k] + [items[k]];
    OneItemLonger(items[..k], items[k]);
    assert k == 0 <==> items[..k] == [];
    NoItems();
  }

  lemma NoItems()
    ensures PrintItems([]) == "" && PrintMembers([]) == ""
  {
  }

  lemma OneItemLonger(items: seq<Value>, last: Value)
    requires FineItems(items) && WellFormed(last) && Finite(last)
    ensures FineItems(items + [last]) && CanonItems(items + [last]) == CanonItems(items) + [Canon(last)]
    ensures CanonItems(items) == [] <==> items == []
  {
    hide Canon, WellFormed, Finite;
  }

  lemma OneMemberMore(start: string, entries: seq<Entry>, k: nat, bytes: string)
    requires k < |entries| && WrittenMembers(start, entries, k, bytes) && WellFormed(entries[k].value) && Finite(entries[k].value)
    ensures WrittenMembers(start, entries, k + 1,
                           (if k > 0 then bytes + "," else bytes) + Quoted(entries[k].key) + ":" + Print(Canon(entries[k].value)))
  {
    hide CanonEntries, Canon, WellFormed, Finite, FineEntries, Print, PrintMembers, Quoted;
    var m := CanonEntry(entries[k]);
    AppendMember(CanonEntries(entries[..k]), m);
    assert entries[..k + 1] == entries[..k] + [entries[k]];
    CanonOfOne(entries[k]);
    CanonOfSum(entries[..k], [entries[k]]);
    assert k == 0 <==> entries[..k] == [];
    NoItems();
    assert PrintMember(m) == Quoted(m.key) + ":" + Print(m.tree);
  }

  lemma AllItems(start: string, items: seq<Value>, bytes: string)
    requires WellFormed(Array(items)) && WrittenItems(start, items, |items|, bytes)
    ensures Finite(Array(items)) && bytes + "]" == start + Print(Canon(Array(items)))
  {
    assert items[..|items|] == items;
  }

  lemma AllMembers(start: string, entries: seq<Entry>, bytes: string)
    requires WellFormed(Object(entries)) && WrittenMembers(start, Sort(EntryLess, entries), |entries|, bytes)
    ensures Finite(Object(entries)) && bytes + "}" == start + Print(Canon(Object(entries)))
  {
    hide Canon, WellFormed, Finite, CanonEntries, FineEntries, PrintMembers, Print, Sort;
    var sorted := Sort(EntryLess, entries);
    assert sorted[..|sorted|] == sorted;
    SortedIsFine(entries);
    SortThenCanon(entries);
    CanonOfObject(entries);
    hide *;
  }

  lemma CanonOfObject(entries: seq<Entry>)
    requires WellFormed(Object(entries)) && Finite(Object(entries))
    ensures FineEntries(entries) && Canon(Object(entries)) == TObject(Sort(MemberLess, CanonEntries(entries)))
    ensures Print(Canon(Object(entries))) == "{" + PrintMembers(Sort(MemberLess, CanonEntries(entries))) + "}"
  {
    hide Sort, CanonEntries, PrintMembers, PrintItems;
    PrintOfObject(Sort(MemberLess, CanonEntries(entries)));
  }

  lemma PrintOfObject(members: seq<Member>)
    ensures Print(TObject(members)) == "{" + PrintMembers(members) + "}"
  {
    hide PrintMembers;
  }

  lemma SortedIsFine(entries: seq<Entry>)
    requires WellFormed(Object(entries)) && FineEntries(Sort(EntryLess, entries))
    ensures Finite(Object(entries)) && FineEntries(entries)
  {
    var sorted := Sort(EntryLess, entries);
    SortMembers(EntryLess, entries);
    forall i | 0 <= i < |entries|
      ensures Finite(entries[i].value)
    {
      assert entries[i] in sorted;
      var j :| 0 <= j < |sorted| && sorted[j] == entries[i];
    }
  }

  /** What a value without parts is printed as. */
  lemma Leaf(v: Value)
    requires WellFormed(v)
    ensures v.Null? ==> Print(Canon(v)) == "null"
    ensures v.Bool? ==> Print(Canon(v)) == if v.flag then "true" else "false"
    ensures v.String? ==> Print(Canon(v)) == Quoted(v.text)
    ensures v.Number? ==> (Finite(v) <==> !(IsFloat(v.source) && v.rounded.None?)) && NumberFine(v.source, v.rounded)
    ensures v.Number? && Finite(v) ==> Print(Canon(v)) == PythonNumber(v.source, v.rounded)
  {
  }

  /** `write_canonical_value`: succeeds exactly on finite values, and then appends the canonical text. */
  method WriteCanonicalValue(value: Value, output: Output) returns (ok: bool)
    requires WellFormed(value)
    modifies output
    ensures ok <==> Finite(value)
    ensures ok ==> output.bytes == old(output.bytes) + Print(Canon(value))
    decreases value, 1
  {
    hide Canon, Print, PythonNumber, Quoted, NumberFine;
    Leaf(value);
    match value
    case Null => output.Push("null"); ok := true;
    case Bool(flag) => output.Push(if flag then "true" else "false"); ok := true;
    case Number(source, rounded) =>
      if IsFloat(source) && rounded.None? { return false; }
      output.Push(PythonNumber(source, rounded));
      ok := true;
    case String(text) => output.Push(Quoted(text)); ok := true;
    case Array(items) => ok := WriteItems(items, output);
    case Object(entries) => ok := WriteMembers(entries, output);
  }

  method WriteItems(items: seq<Value>, output: Output) returns (ok: bool)
    requires WellFormed(Array(items))
    modifies output
    ensures ok <==> Finite(Array(items))
    ensures ok ==> output.bytes == old(output.bytes) + Print(Canon(Array(items)))
    decreases Array(items), 0
  {
    ghost var start := output.bytes;
    output.Push("[");
    for k := 0 to |items|
      invariant WrittenItems(start, items, k, output.bytes)
    {
      ghost var bytes := output.bytes;
      if k > 0 { output.Push(","); }
      ok := WriteCanonicalValue(items[k], output);
      if !ok { return false; }
      OneItemMore(start, items, k, bytes);
    }
    AllItems(start, items, output.bytes);
    output.Push("]");
    ok := true;
  }

  method WriteMembers(entries: seq<Entry>, output: Output) returns (ok: bool)
    requires WellFormed(Object(entries))
    modifies output
    ensures ok <==> Finite(Object(entries))
    ensures ok ==> output.bytes == old(output.bytes) + Print(Canon(Object(entries)))
    decreases Object(entries), 0
  {
    ghost var start := output.bytes;
    output.Push("{");
    var sorted := Sort(EntryLess, entries);
    SortMembers(EntryLess, entries);
    for k := 0 to |sorted|
      invariant WrittenMembers(start, sorted, k, output.bytes)
    {
      var entry := sorted[k];
      EntryIsSmaller(entries, sorted, k);
      ghost var bytes := output.bytes;
      if k > 0 { output.Push(","); }
      output.Push(Quoted(entry.key));
      output.Push(":");
      ok := WriteCanonicalValue(entry.value, output);
      if !ok { return false; }
      OneMemberMore(start, sorted, k, bytes);
    }
    AllMembers(start, entries, output.bytes);
    output.Push("}");
    ok := true;
  }

  lemma EntryIsSmaller(entries: seq<Entry>, sorted: seq<Entry>, k: nat)
    requires WellFormed(Object(entries)) && k < |sorted| && sorted[k] in entries
    ensures sorted[k].value < Object(entries) && WellFormed(sorted[k].value)
    ensures Finite(Object(entries)) ==> Finite(sorted[k].value)
  {
    var j :| 0 <= j < |entries| && entries[j] == sorted[k];
  }
}
