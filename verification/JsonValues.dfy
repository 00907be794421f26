/** JSON values, their canonical form and meaning, and the printer that writes one. */
module JsonValues {
  import opened Wrappers
  import opened Order
  import opened Digits
  import opened Integers
  import opened Floats
  import opened FloatLayout
  import opened JsonText

  /** A number keeps its source text; `rounded` is what the shortest float formatter makes of it, if it is finite. */
  datatype Value =
    | Null
    | Bool(flag: bool)
    | Number(source: string, rounded: Option<string>)
    | String(text: string)
    | Array(items: seq<Value>)
    | Object(entries: seq<Entry>)

  datatype Entry = Entry(key: string, value: Value)

  predicate IsFloat(source: string) { HasPointOrExponent(source) }

  /** The number texts JSON allows: integers have no leading zero. */
  predicate NumberFine(source: string, rounded: Option<string>) {
    if IsFloat(source) then rounded.Some? ==> FloatText(rounded.value)
    else IntegerText(source) && (Unsigned(source)[0] == '0' ==> Unsigned(source) == "0")
  }

  ghost predicate WellFormed(v: Value) {
    match v
    case Number(source, rounded) => NumberFine(source, rounded)
    case Array(items) => forall i | 0 <= i < |items| :: WellFormed(items[i])
    case Object(entries) =>
      && (forall i | 0 <= i < |entries| :: WellFormed(entries[i].value))
      && KeysDiffer(entries)
    case _ => true
  }

  ghost predicate KeysDiffer(entries: seq<Entry>) {
    forall i, j | 0 <= i < j < |entries| :: entries[i].key != entries[j].key
  }

  /** No number lies outside the range of floats. */
  ghost predicate Finite(v: Value) {
    match v
    case Number(source, rounded) => IsFloat(source) ==> rounded.Some?
    case Array(items) => forall i | 0 <= i < |items| :: Finite(items[i])
    case Object(entries) => forall i | 0 <= i < |entries| :: Finite(entries[i].value)
    case _ => true
  }

  // ---------------------------------------------------------------- canonical form

  predicate OnlyZeros(source: string) { forall i | 0 <= i < |source| :: source[i] == '-' || source[i] == '0' }

  /** `python_number`. */
  function PythonNumber(source: string, rounded: Option<string>): string
    requires NumberFine(source, rounded) && (IsFloat(source) ==> rounded.Some?)
  {
    if !IsFloat(source) then (if OnlyZeros(source) then "0" else source)
    else PythonFloat(rounded.value)
  }

  predicate MemberLess(a: Member, b: Member) { StringLess(a.key, b.key) }
  predicate EntryLess(a: Entry, b: Entry) { StringLess(a.key, b.key) }

  ghost function Canon(v: Value): Tree
    requires WellFormed(v) && Finite(v)
    decreases v
  {
    match v
    case Null => TNull
    case Bool(flag) => TBool(flag)
    case Number(source, rounded) => TNumber(PythonNumber(source, rounded))
    case String(text) => TString(text)
    case Array(items) => TArray(CanonItems(items))
    case Object(entries) => TObject(Sort(MemberLess, CanonEntries(entries)))
  }

  ghost predicate FineItems(items: seq<Value>) {
    forall i | 0 <= i < |items| :: WellFormed(items[i]) && Finite(items[i])
  }

  ghost predicate FineEntries(entries: seq<Entry>) {
    forall i | 0 <= i < |entries| :: WellFormed(entries[i].value) && Finite(entries[i].value)
  }

  ghost function CanonItems(items: seq<Value>): (r: seq<Tree>)
    requires FineItems(items)
    ensures |r| == |items|
    ensures forall i | 0 <= i < |r| :: r[i] == Canon(items[i])
    decreases items
  {
    seq(|items|, i requires 0 <= i < |items| => Canon(items[i]))
  }

  ghost function CanonEntries(entries: seq<Entry>): (r: seq<Member>)
    requires FineEntries(entries)
    ensures |r| == |entries|
    ensures forall i | 0 <= i < |r| :: r[i] == Member(entries[i].key, Canon(entries[i].value))
    decreases entries
  {
    seq(|entries|, i requires 0 <= i < |entries| => Member(entries[i].key, Canon(entries[i].value)))
  }

  // ---------------------------------------------------------------- meaning

  /** What a value says: integers and floats are kept apart, objects are unordered. */
  datatype Meaning =
    | MNull
    | MBool(flag: bool)
    | MInteger(integer: int)
    | MFloat(negative: bool, number: real)
    | MString(text: string)
    | MArray(items: seq<Meaning>)
    | MObject(members: map<string, Meaning>)

  ghost function MeaningOf(v: Value): Meaning
    requires WellFormed(v) && Finite(v)
    decreases v
  {
    match v
    case Null => MNull
    case Bool(flag) => MBool(flag)
    case Number(source, rounded) =>
      if IsFloat(source) then MFloat(Negative(rounded.value), ExactValue(rounded.value)) else MInteger(IntegerValue(source))
    case String(text) => MString(text)
    case Array(items) => MArray(MeaningOfItems(items))
    case Object(entries) => MObject(MeaningOfEntries(entries))
  }

  ghost function MeaningOfItems(items: seq<Value>): (m: seq<Meaning>)
    requires FineItems(items)
    ensures |m| == |items| && forall i | 0 <= i < |m| :: m[i] == MeaningOf(items[i])
    decreases items
  {
    seq(|items|, i requires 0 <= i < |items| => MeaningOf(items[i]))
  }

  ghost function MeaningOfEntries(entries: seq<Entry>): (m: map<string, Meaning>)
    requires FineEntries(entries) && KeysDiffer(entries)
    ensures forall i | 0 <= i < |entries| :: entries[i].key in m && m[entries[i].key] == MeaningOf(entries[i].value)
    ensures forall k | k in m :: exists i :: 0 <= i < |entries| && entries[i].key == k
    decreases entries
  {
    map i | 0 <= i < |entries| :: entries[i].key := MeaningOf(entries[i].value)
  }

  // ---------------------------------------------------------------- numbers

  function Show(n: JsonInteger): string { Sign(n.negative) + n.digits }

  /** An integer is printed in its normal form. */
  lemma IntegerIsShown(source: string)
    requires NumberFine(source, None) && !IsFloat(source)
    ensures ReadInteger(source).Some? && Normal(ReadInteger(source).value)
    ensures PythonNumber(source, None) == Show(ReadInteger(source).value)
  {
    ReadIntegerMeans(source);
    if Unsigned(source)[0] == '0' { ZeroIsShown(source); } else { NonZeroIsShown(source); }
  }

  lemma ZeroIsShown(source: string)
    requires NumberFine(source, None) && !IsFloat(source) && Unsigned(source)[0] == '0'
    ensures PythonNumber(source, None) == "0" && ReadInteger(source).Some? && Show(ReadInteger(source).value) == "0"
  {
    TrimZero();
    hide TrimStart, LeadingZeroCount, HasPointOrExponent;
    assert source == "0" || source == "-" + "0";
    assert OnlyZeros(source);
    assert "" + "0" == "0";
  }

  lemma NonZeroIsShown(source: string)
    requires NumberFine(source, None) && !IsFloat(source) && Unsigned(source)[0] != '0'
    ensures PythonNumber(source, None) == source && ReadInteger(source).Some? && Show(ReadInteger(source).value) == source
  {
    var unsigned := Unsigned(source);
    assert LeadingZeroCount(unsigned) == 0;
    assert TrimStart(unsigned) == unsigned;
    hide TrimStart, LeadingZeroCount, HasPointOrExponent;
    assert unsigned[0] == source[0] || unsigned[0] == source[1];
    assert IsDigit(unsigned[0]);
    assert !OnlyZeros(source);
    assert Sign(ReadInteger(source).value.negative) + unsigned == source;
  }

  lemma TrimZero()
    ensures TrimStart("0") == ""
  {
  }

  lemma ShowIsInjective(a: JsonInteger, b: JsonInteger)
    requires Normal(a) && Normal(b) && Show(a) == Show(b)
    ensures a == b
  {
    assert Show(a)[0] == '-' <==> a.negative;
    assert Show(b)[0] == '-' <==> b.negative;
    if a.negative {
      assert Show(a)[1..] == a.digits && Show(b)[1..] == b.digits;
    } else {
      assert Show(a) == a.digits && Show(b) == b.digits;
    }
  }

  lemma IntegersPrintExactly(a: string, b: string)
    requires NumberFine(a, None) && NumberFine(b, None) && !IsFloat(a) && !IsFloat(b)
    ensures PythonNumber(a, None) == PythonNumber(b, None) <==> IntegerValue(a) == IntegerValue(b)
  {
    hide PythonNumber, ReadInteger, IntegerValue, Show, Normal, IntegerText, OnlyZeros, NumberFine, IsFloat;
    IntegerTexts(a);
    IntegerTexts(b);
    IntegerIsShown(a);
    IntegerIsShown(b);
    ReadIntegerIsExact(a, b);
    if PythonNumber(a, None) == PythonNumber(b, None) {
      ShowIsInjective(ReadInteger(a).value, ReadInteger(b).value);
    }
  }

  lemma IntegerTexts(source: string)
    requires NumberFine(source, None) && !IsFloat(source)
    ensures IntegerText(source)
  {
  }

  lemma IntegerHasNoMark(source: string)
    requires NumberFine(source, None) && !IsFloat(source)
    ensures '.' !in PythonNumber(source, None) && 'e' !in PythonNumber(source, None)
  {
  }

  /** Two numbers are printed alike exactly when they mean the same. */
  lemma NumbersPrintExactly(a: Value, b: Value)
    requires a.Number? && b.Number? && WellFormed(a) && WellFormed(b) && Finite(a) && Finite(b)
    ensures PythonNumber(a.source, a.rounded) == PythonNumber(b.source, b.rounded) <==> MeaningOf(a) == MeaningOf(b)
  {
    hide PythonFloat, FloatText, ExactValue, IntegerValue, IntegerText, OnlyZeros;
    if IsFloat(a.source) && IsFloat(b.source) {
      PythonFloatIsExact(a.rounded.value, b.rounded.value);
    } else if IsFloat(a.source) {
      ExponentFormIsForExtremes(a.rounded.value);
      IntegerHasNoMark(b.source);
    } else if IsFloat(b.source) {
      ExponentFormIsForExtremes(b.rounded.value);
      IntegerHasNoMark(a.source);
    } else {
      IntegersPrintExactly(a.source, b.source);
    }
  }

  // ---------------------------------------------------------------- canonical form and meaning

  lemma MembersAreOrdered()
    ensures Consistent(MemberLess)
  {
    StringsAreOrdered();
    TotalIsConsistent(StringLess);
    hide StringLess, StrictTotal;
    forall a, b | MemberLess(a, b)
      ensures !MemberLess(b, a)
    {
      assert StringLess(a.key, b.key);
    }
    forall a, b, c | !MemberLess(b, a) && !MemberLess(c, b)
      ensures !MemberLess(c, a)
    {
      assert !StringLess(b.key, a.key) && !StringLess(c.key, b.key);
    }
  }

  /** Members with different keys are separated, so an object has one sorted listing. */
  lemma OneListing(a: seq<Member>, b: seq<Member>)
    requires (forall i, j | 0 <= i < j < |a| :: a[i].key != a[j].key) && (forall i, j | 0 <= i < j < |b| :: b[i].key != b[j].key)
    ensures Sort(MemberLess, a) == Sort(MemberLess, b) <==> forall m :: m in a <==> m in b
  {
    MembersAreOrdered();
    SortMembers(MemberLess, a);
    SortMembers(MemberLess, b);
    if forall m :: m in a <==> m in b {
      SortSorted(MemberLess, a);
      SortSorted(MemberLess, b);
      UniqueByMultiset(a, Sort(MemberLess, a));
      UniqueByMultiset(b, Sort(MemberLess, b));
      StringsAreOrdered();
      assert Separates(MemberLess, Sort(MemberLess, a)) by {
        forall x, y | x in Sort(MemberLess, a) && y in Sort(MemberLess, a) && x != y
          ensures MemberLess(x, y) || MemberLess(y, x)
        {
          var i :| 0 <= i < |a| && a[i] == x;
          var j :| 0 <= j < |a| && a[j] == y;
          assert x.key != y.key;
          assert StringLess(x.key, y.key) || StringLess(y.key, x.key);
        }
      }
      SortedSame(MemberLess, Sort(MemberLess, a), Sort(MemberLess, b));
    } else {
      var m :| (m in a) != (m in b);
      assert (m in Sort(MemberLess, a)) != (m in Sort(MemberLess, b));
    }
  }

  /** Canonical forms are equal exactly when the meanings are. */
  lemma {:induction false} CanonIsMeaning(a: Value, b: Value)
    requires WellFormed(a) && WellFormed(b) && Finite(a) && Finite(b)
    ensures Canon(a) == Canon(b) <==> MeaningOf(a) == MeaningOf(b)
    decreases a
  {
    match (a, b)
    case (Number(_, _), Number(_, _)) => NumbersPrintExactly(a, b);
    case (Array(items), Array(others)) =>
      if |items| == |others| {
        forall i | 0 <= i < |items| { CanonIsMeaning(items[i], others[i]); }
        ItemsMean(items, others);
      }
    case (Object(entries), Object(others)) =>
      forall i, j | 0 <= i < |entries| && 0 <= j < |others| { CanonIsMeaning(entries[i].value, others[j].value); }
      EntriesMean(entries, others);
    case _ =>
  }

  lemma ItemsMean(items: seq<Value>, others: seq<Value>)
    requires WellFormed(Array(items)) && WellFormed(Array(others)) && Finite(Array(items)) && Finite(Array(others))
    requires |items| == |others|
    requires forall i | 0 <= i < |items| :: Canon(items[i]) == Canon(others[i]) <==> MeaningOf(items[i]) == MeaningOf(others[i])
    ensures Canon(Array(items)) == Canon(Array(others)) <==> MeaningOf(Array(items)) == MeaningOf(Array(others))
  {
    PartsOfArray(items);
    PartsOfArray(others);
    hide Canon, MeaningOf, WellFormed, Finite, CanonItems, MeaningOfItems;
    SameParts(CanonItems(items), CanonItems(others), MeaningOfItems(items), MeaningOfItems(others));
  }

  lemma PartsOfArray(items: seq<Value>)
    requires WellFormed(Array(items)) && Finite(Array(items))
    ensures FineItems(items) && Canon(Array(items)) == TArray(CanonItems(items)) && MeaningOf(Array(items)) == MArray(MeaningOfItems(items))
  {
  }

  lemma SameParts(c: seq<Tree>, d: seq<Tree>, m: seq<Meaning>, n: seq<Meaning>)
    requires |c| == |d| == |m| == |n| && forall i | 0 <= i < |c| :: c[i] == d[i] <==> m[i] == n[i]
    ensures c == d <==> m == n
  {
    assert c == d <==> forall i | 0 <= i < |c| :: c[i] == d[i];
    assert m == n <==> forall i | 0 <= i < |m| :: m[i] == n[i];
  }

  /** The values of two objects have equal canonical forms exactly where they have equal meanings. */
  ghost predicate Agree(entries: seq<Entry>, others: seq<Entry>) {
    && WellFormed(Object(entries)) && WellFormed(Object(others)) && Finite(Object(entries)) && Finite(Object(others))
    && (forall i, j | 0 <= i < |entries| && 0 <= j < |others| :: AgreeAt(entries[i].value, others[j].value))
  }

  ghost predicate AgreeAt(a: Value, b: Value)
    requires WellFormed(a) && WellFormed(b) && Finite(a) && Finite(b)
  {
    Canon(a) == Canon(b) <==> MeaningOf(a) == MeaningOf(b)
  }

  lemma EntriesMean(entries: seq<Entry>, others: seq<Entry>)
    requires Agree(entries, others)
    ensures Canon(Object(entries)) == Canon(Object(others)) <==> MeaningOf(Object(entries)) == MeaningOf(Object(others))
  {
    var c, d := CanonEntries(entries), CanonEntries(others);
    var m, n := MeaningOf(Object(entries)).members, MeaningOf(Object(others)).members;
    ListsEntries(entries);
    ListsEntries(others);
    hide Lists, Agree, CanonEntries;
    SameMembersSameMap(entries, others, c, d, m, n);
    OneListing(c, d);
  }

  ghost predicate Lists(entries: seq<Entry>, c: seq<Member>, m: map<string, Meaning>)
    requires WellFormed(Object(entries)) && Finite(Object(entries))
  {
    && |c| == |entries| && (forall i | 0 <= i < |entries| :: c[i] == Member(entries[i].key, Canon(entries[i].value)))
    && (forall i | 0 <= i < |entries| :: entries[i].key in m && m[entries[i].key] == MeaningOf(entries[i].value))
    && (forall k | k in m :: exists i :: 0 <= i < |entries| && entries[i].key == k)
  }

  lemma ListsEntries(entries: seq<Entry>)
    requires WellFormed(Object(entries)) && Finite(Object(entries))
    ensures Canon(Object(entries)) == TObject(Sort(MemberLess, CanonEntries(entries)))
    ensures Lists(entries, CanonEntries(entries), MeaningOf(Object(entries)).members)
    ensures MeaningOf(Object(entries)) == MObject(MeaningOf(Object(entries)).members)
    ensures var c := CanonEntries(entries); forall i, j | 0 <= i < j < |c| :: c[i].key != c[j].key
  {
    var c := CanonEntries(entries);
    assert forall i | 0 <= i < |c| :: c[i].key == entries[i].key;
    assert MeaningOf(Object(entries)).members == MeaningOfEntries(entries);
  }

  lemma AgreesBack(entries: seq<Entry>, others: seq<Entry>)
    requires Agree(entries, others)
    ensures Agree(others, entries)
  {
    forall i, j | 0 <= i < |others| && 0 <= j < |entries| ensures AgreeAt(others[i].value, entries[j].value) {
      assert AgreeAt(entries[j].value, others[i].value);
    }
  }

  lemma SameMembersSameMap(entries: seq<Entry>, others: seq<Entry>, c: seq<Member>, d: seq<Member>,
                           m: map<string, Meaning>, n: map<string, Meaning>)
    requires Agree(entries, others)
    requires Lists(entries, c, m) && Lists(others, d, n)
    ensures (forall x :: x in c <==> x in d) <==> m == n
  {
    AgreesBack(entries, others);
    hide Agree, Lists;
    if forall x :: x in c <==> x in d {
      forall k | k in m ensures k in n && m[k] == n[k] { KeyFollows(entries, others, c, d, m, n, k); }
      forall k | k in n ensures k in m { KeyFollows(others, entries, d, c, n, m, k); }
      assert m == n;
    }
    if m == n {
      forall x | x in c ensures x in d { MemberFollows(entries, others, c, d, m, n, x); }
      forall x | x in d ensures x in c { MemberFollows(others, entries, d, c, n, m, x); }
    }
  }

  lemma FineObjects(entries: seq<Entry>, others: seq<Entry>)
    requires Agree(entries, others)
    ensures FineEntries(entries) && FineEntries(others)
  {
  }

  lemma KeyFollows(entries: seq<Entry>, others: seq<Entry>, c: seq<Member>, d: seq<Member>, m: map<string, Meaning>, n: map<string, Meaning>, k: string)
    requires Agree(entries, others)
    requires Lists(entries, c, m) && Lists(others, d, n) && (forall x :: x in c ==> x in d) && k in m
    ensures k in n && m[k] == n[k]
  {
    hide Canon, MeaningOf;
    FineObjects(entries, others);
    hide WellFormed, Finite;
    var i :| 0 <= i < |entries| && entries[i].key == k;
    assert c[i] in c;
    var j :| 0 <= j < |d| && d[j] == c[i];
    assert AgreeAt(entries[i].value, others[j].value);
    assert others[j].key == k && n[others[j].key] == MeaningOf(others[j].value) && m[entries[i].key] == MeaningOf(entries[i].value);
  }

  lemma MemberFollows(entries: seq<Entry>, others: seq<Entry>, c: seq<Member>, d: seq<Member>, m: map<string, Meaning>, n: map<string, Meaning>, x: Member)
    requires Agree(entries, others)
    requires Lists(entries, c, m) && Lists(others, d, n) && m == n && x in c
    ensures x in d
  {
    hide Canon, MeaningOf;
    FineObjects(entries, others);
    hide WellFormed, Finite;
    var i :| 0 <= i < |c| && c[i] == x;
    assert entries[i].key in n;
    var j :| 0 <= j < |others| && others[j].key == entries[i].key;
    assert AgreeAt(entries[i].value, others[j].value);
    assert n[others[j].key] == MeaningOf(others[j].value) && m[entries[i].key] == MeaningOf(entries[i].value);
    assert d[j] == x;
  }
}
