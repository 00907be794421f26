/** The two limit checks, one on values and one on bytes, and why they agree. */
module JsonLimits {
  import opened Wrappers
  import opened Order
  import opened Digits
  import opened Integers
  import opened Floats
  import opened FloatLayout
  import opened JsonText
  import opened JsonValues
  import opened JsonPrinter
  import JsonReader

  const MAX_CANONICAL_INTEGER_DIGITS: nat := 4300
  const MAX_CANONICAL_JSON_DEPTH: nat := 512

  datatype LimitError = NestingTooDeep(depth: nat) | IntegerTooLong(digits: nat)

  function DigitCount(s: string): nat {
    if s == [] then 0 else (if IsDigit(s[0]) then 1 else 0) + DigitCount(s[1..])
  }

  function NumberError(text: string): Option<LimitError> {
    if HasPointOrExponent(text) || DigitCount(text) <= MAX_CANONICAL_INTEGER_DIGITS then None
    else Some(IntegerTooLong(DigitCount(text)))
  }

  /** The positions of the digits in a text. */
  ghost function DigitPositions(s: string): set<nat> { set i: nat | i < |s| && '0' <= s[i] <= '9' }

  /** What is counted are the digits, wherever they stand. */
  lemma {:induction false} DigitsAreCounted(s: string)
    ensures DigitCount(s) == |DigitPositions(s)|
  {
    if s != [] {
      DigitsAreCounted(s[1..]);
      var here := if IsDigit(s[0]) then {0 as nat} else {};
      var later := set i: nat | i in DigitPositions(s[1..]) :: i + 1;
      ShiftedSet(DigitPositions(s[1..]));
      assert DigitPositions(s) == here + later by {
        forall i: nat
          ensures i in DigitPositions(s) <==> i in here + later
        {
          if i > 0 && i < |s| { assert s[i] == s[1..][i - 1] && (i in later <==> i - 1 in DigitPositions(s[1..])); }
        }
      }
      assert here !! later;
    }
  }

  lemma {:induction false} ShiftedSet(a: set<nat>)
    ensures |set i: nat | i in a :: i + 1| == |a|
    decreases |a|
  {
    var b := set i: nat | i in a :: i + 1;
    if a != {} {
      var x :| x in a;
      ShiftedSet(a - {x});
      var rest := set i: nat | i in a - {x} :: i + 1;
      assert b == rest + {x + 1} by {
        forall j: nat
          ensures j in b <==> j in rest + {x + 1}
        {
          if j > 0 { assert (j in b <==> j - 1 in a) && (j in rest <==> j - 1 in a - {x}); }
        }
      }
      assert x + 1 !in rest;
    }
  }

  lemma {:induction false} AllDigitsCount(s: string)
    requires AllDigits(s)
    ensures DigitCount(s) == |s|
  {
    if s != [] { AllDigitsCount(s[1..]); }
  }

  /** The text of an integer, without superfluous zeros, is too long exactly when the integer is too large. */
  lemma IntegersAreBounded(source: string, limit: nat)
    requires IntegerText(source) && (Unsigned(source)[0] == '0' ==> Unsigned(source) == "0")
    requires limit == 4300
    ensures NumberError(source).None? <==> -(Power(limit) as int) < IntegerValue(source) < Power(limit)
    ensures NumberError(source).Some? ==> NumberError(source).value == IntegerTooLong(|Unsigned(source)|)
  {
    hide NatOf, Power, HasPointOrExponent, IntegerValue, DigitCount, Unsigned, IntegerText;
    NoPoint(source);
    SignIsNoDigit(source);
    IntegerBelow(source, limit);
  }

  lemma SignIsNoDigit(source: string)
    requires IntegerText(source)
    ensures DigitCount(source) == |Unsigned(source)|
  {
    AllDigitsCount(Unsigned(source));
  }

  lemma IntegerBelow(source: string, limit: nat)
    requires IntegerText(source) && (Unsigned(source)[0] == '0' ==> Unsigned(source) == "0")
    requires limit > 0
    ensures |Unsigned(source)| <= limit <==> -(Power(limit) as int) < IntegerValue(source) < Power(limit)
  {
    hide NatOf, Power;
    var digits := Unsigned(source);
    NatBelow(digits);
    if |digits| <= limit {
      PowerGrows(|digits|, limit);
    } else {
      NatAbove(digits);
      PowerGrows(limit, |digits| - 1);
    }
  }

  // ---------------------------------------------------------------- the check on values

  /** Containers nest to the limit at most, and no integer has too many digits. */
  ghost predicate WithinLimits(v: Value, depth: nat)
    decreases v
  {
    match v
    case Number(source, _) => NumberError(source).None?
    case Array(items) => depth < MAX_CANONICAL_JSON_DEPTH && forall i | 0 <= i < |items| :: WithinLimits(items[i], depth + 1)
    case Object(entries) => depth < MAX_CANONICAL_JSON_DEPTH && forall i | 0 <= i < |entries| :: WithinLimits(entries[i].value, depth + 1)
    case _ => true
  }

  /** At most `n` containers, one inside the other. */
  ghost predicate NestsAtMost(v: Value, n: nat)
    decreases v
  {
    match v
    case Array(items) => n > 0 && forall i | 0 <= i < |items| :: NestsAtMost(items[i], n - 1)
    case Object(entries) => n > 0 && forall i | 0 <= i < |entries| :: NestsAtMost(entries[i].value, n - 1)
    case _ => true
  }

  /** No integer has more digits than the limit. */
  ghost predicate IntegersFit(v: Value, digits: nat)
    decreases v
  {
    match v
    case Number(source, _) => IntegerText(source) ==> |Unsigned(source)| <= digits
    case Array(items) => forall i | 0 <= i < |items| :: IntegersFit(items[i], digits)
    case Object(entries) => forall i | 0 <= i < |entries| :: IntegersFit(entries[i].value, digits)
    case _ => true
  }

  /** Within the limits are the values that nest at most 512 deep and whose integers have at most 4300 digits. */
  lemma {:induction false} LimitsInWords(v: Value, depth: nat)
    requires WellFormed(v) && depth <= 512
    ensures WithinLimits(v, depth) <==> NestsAtMost(v, 512 - depth) && IntegersFit(v, 4300)
    decreases v
  {
    match v
    case Number(source, rounded) => NumberInWords(source, rounded);
    case Array(items) =>
      if depth < 512 { forall i | 0 <= i < |items| { LimitsInWords(items[i], depth + 1); } }
    case Object(entries) =>
      if depth < 512 { forall i | 0 <= i < |entries| { LimitsInWords(entries[i].value, depth + 1); } }
    case _ =>
  }

  lemma NumberInWords(source: string, rounded: Option<string>)
    requires NumberFine(source, rounded)
    ensures NumberError(source).None? <==> (IntegerText(source) ==> |Unsigned(source)| <= 4300)
  {
    hide DigitCount, HasPointOrExponent, Unsigned;
    if IntegerText(source) {
      NoPoint(source);
      SignIsNoDigit(source);
    }
  }

  /** The error is one that some part of the value deserves. */
  ghost predicate Deserves(v: Value, depth: nat, error: LimitError)
    decreases v
  {
    match v
    case Number(source, _) => NumberError(source) == Some(error)
    case Array(items) =>
      if depth < MAX_CANONICAL_JSON_DEPTH then exists i :: 0 <= i < |items| && Deserves(items[i], depth + 1, error)
      else error == NestingTooDeep(depth + 1)
    case Object(entries) =>
      if depth < MAX_CANONICAL_JSON_DEPTH then exists i :: 0 <= i < |entries| && Deserves(entries[i].value, depth + 1, error)
      else error == NestingTooDeep(depth + 1)
    case _ => false
  }

  /** A value has an error exactly when it is not within the limits. */
  lemma {:induction false} ErrorsAreDeserved(v: Value, depth: nat)
    ensures !WithinLimits(v, depth) <==> exists error {:trigger Deserves(v, depth, error)} :: Deserves(v, depth, error)
    decreases v
  {
    match v
    case Number(source, _) =>
      if NumberError(source).Some? { assert Deserves(v, depth, NumberError(source).value); }
    case Array(items) =>
      if depth >= MAX_CANONICAL_JSON_DEPTH { assert Deserves(v, depth, NestingTooDeep(depth + 1)); }
      forall i | 0 <= i < |items| { ErrorsAreDeserved(items[i], depth + 1); }
      if depth < MAX_CANONICAL_JSON_DEPTH && !WithinLimits(v, depth) {
        var i :| 0 <= i < |items| && !WithinLimits(items[i], depth + 1);
        var error :| Deserves(items[i], depth + 1, error);
        assert Deserves(v, depth, error);
      }
    case Object(entries) =>
      if depth >= MAX_CANONICAL_JSON_DEPTH { assert Deserves(v, depth, NestingTooDeep(depth + 1)); }
      forall i | 0 <= i < |entries| { ErrorsAreDeserved(entries[i].value, depth + 1); }
      if depth < MAX_CANONICAL_JSON_DEPTH && !WithinLimits(v, depth) {
        var i :| 0 <= i < |entries| && !WithinLimits(entries[i].value, depth + 1);
        var error :| Deserves(entries[i].value, depth + 1, error);
        assert Deserves(v, depth, error);
      }
    case _ =>
  }

  datatype Frame = Frame(value: Value, depth: nat)

  ghost function Weight(v: Value): nat
    decreases v
  {
    match v
    case Array(items) => 1 + WeightOfItems(items)
    case Object(entries) => 1 + WeightOfEntries(entries)
    case _ => 1
  }

  ghost function WeightOfItems(items: seq<Value>): nat
    decreases items
  {
    if items == [] then 0 else Weight(items[0]) + WeightOfItems(items[1..])
  }

  ghost function WeightOfEntries(entries: seq<Entry>): nat
    decreases entries
  {
    if entries == [] then 0 else Weight(entries[0].value) + WeightOfEntries(entries[1..])
  }

  ghost function WeightOfStack(stack: seq<Frame>): nat {
    if stack == [] then 0 else Weight(stack[|stack| - 1].value) + WeightOfStack(stack[..|stack| - 1])
  }

  function ItemFrames(items: seq<Value>, depth: nat): seq<Frame> {
    seq(|items|, i requires 0 <= i < |items| => Frame(items[i], depth))
  }

  function EntryFrames(entries: seq<Entry>, depth: nat): seq<Frame> {
    seq(|entries|, i requires 0 <= i < |entries| => Frame(entries[i].value, depth))
  }

  lemma {:induction false} ExtendByItems(stack: seq<Frame>, items: seq<Value>, depth: nat)
    ensures WeightOfStack(stack + ItemFrames(items, depth)) == WeightOfStack(stack) + WeightOfItems(items)
    decreases |items|
  {
    if items == [] {
      assert stack + ItemFrames(items, depth) == stack;
    } else {
      var first := Frame(items[0], depth);
      assert ItemFrames(items, depth) == [first] + ItemFrames(items[1..], depth);
      assert stack + ItemFrames(items, depth) == (stack + [first]) + ItemFrames(items[1..], depth);
      ExtendByItems(stack + [first], items[1..], depth);
      assert (stack + [first])[..|stack|] == stack;
    }
  }

  lemma {:induction false} ExtendByEntries(stack: seq<Frame>, entries: seq<Entry>, depth: nat)
    ensures WeightOfStack(stack + EntryFrames(entries, depth)) == WeightOfStack(stack) + WeightOfEntries(entries)
    decreases |entries|
  {
    if entries == [] {
      assert stack + EntryFrames(entries, depth) == stack;
    } else {
      var first := Frame(entries[0].value, depth);
      assert EntryFrames(entries, depth) == [first] + EntryFrames(entries[1..], depth);
      assert stack + EntryFrames(entries, depth) == (stack + [first]) + EntryFrames(entries[1..], depth);
      ExtendByEntries(stack + [first], entries[1..], depth);
      assert (stack + [first])[..|stack|] == stack;
    }
  }

  /** What is still on the stack decides, and what it can report the value deserves. */
  ghost predicate Awaits(value: Value, stack: seq<Frame>) {
    && (WithinLimits(value, 0) <==> forall k | 0 <= k < |stack| :: WithinLimits(stack[k].value, stack[k].depth))
    && (forall k, error | 0 <= k < |stack| && Deserves(stack[k].value, stack[k].depth, error) :: Deserves(value, 0, error))
  }

  lemma AwaitItems(value: Value, rest: seq<Frame>, top: Frame)
    requires Awaits(value, rest + [top]) && top.value.Array? && top.depth < MAX_CANONICAL_JSON_DEPTH
    ensures Awaits(value, rest + ItemFrames(top.value.items, top.depth + 1))
  {
    var before, items := rest + [top], top.value.items;
    var after := rest + ItemFrames(items, top.depth + 1);
    assert before[|rest|] == top;
    assert forall k | 0 <= k < |rest| :: before[k] == rest[k] && after[k] == rest[k];
    assert forall i | 0 <= i < |items| :: after[|rest| + i] == Frame(items[i], top.depth + 1);
    if forall k | 0 <= k < |after| :: WithinLimits(after[k].value, after[k].depth) {
      forall i | 0 <= i < |items| ensures WithinLimits(items[i], top.depth + 1) { assert after[|rest| + i].value == items[i]; }
      assert WithinLimits(top.value, top.depth);
    }
  }

  lemma AwaitEntries(value: Value, rest: seq<Frame>, top: Frame)
    requires Awaits(value, rest + [top]) && top.value.Object? && top.depth < MAX_CANONICAL_JSON_DEPTH
    ensures Awaits(value, rest + EntryFrames(top.value.entries, top.depth + 1))
  {
    var before, entries := rest + [top], top.value.entries;
    var after := rest + EntryFrames(entries, top.depth + 1);
    assert before[|rest|] == top;
    assert forall k | 0 <= k < |rest| :: before[k] == rest[k] && after[k] == rest[k];
    assert forall i | 0 <= i < |entries| :: after[|rest| + i] == Frame(entries[i].value, top.depth + 1);
    if forall k | 0 <= k < |after| :: WithinLimits(after[k].value, after[k].depth) {
      forall i | 0 <= i < |entries| ensures WithinLimits(entries[i].value, top.depth + 1) { assert after[|rest| + i].value == entries[i].value; }
      assert WithinLimits(top.value, top.depth);
    }
  }

  lemma AwaitLeaf(value: Value, rest: seq<Frame>, top: Frame)
    requires Awaits(value, rest + [top]) && WithinLimits(top.value, top.depth)
    ensures Awaits(value, rest)
  {
    var before := rest + [top];
    assert before[|rest|] == top && forall k | 0 <= k < |rest| :: before[k] == rest[k];
  }

  lemma AwaitError(value: Value, stack: seq<Frame>, error: LimitError)
    requires Awaits(value, stack) && stack != [] && Deserves(stack[|stack| - 1].value, stack[|stack| - 1].depth, error)
    ensures Deserves(value, 0, error) && !WithinLimits(value, 0)
  {
    ErrorsAreDeserved(value, 0);
    hide Deserves, WithinLimits;
    var k := |stack| - 1;
    assert Deserves(stack[k].value, stack[k].depth, error);
    assert Deserves(value, 0, error);
  }

  lemma AwaitNothing(value: Value)
    ensures Awaits(value, [Frame(value, 0)])
    ensures Awaits(value, []) ==> WithinLimits(value, 0)
  {
    var stack := [Frame(value, 0)];
    assert stack[0] == Frame(value, 0);
    assert forall k | 0 <= k < |stack| :: stack[k] == Frame(value, 0);
  }

  /** `validate_value_limits`: the explicit stack. */
  method ValidateValueLimits(value: Value) returns (error: Option<LimitError>)
    ensures error.None? <==> WithinLimits(value, 0)
    ensures error.Some? ==> Deserves(value, 0, error.value)
  {
    hide Awaits, WithinLimits, Deserves, NumberError;
    var stack := [Frame(value, 0)];
    AwaitNothing(value);
    while stack != []
      invariant Awaits(value, stack)
      decreases WeightOfStack(stack)
    {
      var top, rest := stack[|stack| - 1], stack[..|stack| - 1];
      assert stack == rest + [top];
      TopOfStack(top);
      match top.value
      case Array(items) =>
        var depth := top.depth + 1;
        if depth > MAX_CANONICAL_JSON_DEPTH {
          AwaitError(value, stack, NestingTooDeep(depth));
          return Some(NestingTooDeep(depth));
        }
        AwaitItems(value, rest, top);
        ExtendByItems(rest, items, depth);
        stack := rest + ItemFrames(items, depth);
      case Object(entries) =>
        var depth := top.depth + 1;
        if depth > MAX_CANONICAL_JSON_DEPTH {
          AwaitError(value, stack, NestingTooDeep(depth));
          return Some(NestingTooDeep(depth));
        }
        AwaitEntries(value, rest, top);
        ExtendByEntries(rest, entries, depth);
        stack := rest + EntryFrames(entries, depth);
      case Number(source, _) =>
        error := NumberError(source);
        if error.Some? {
          AwaitError(value, stack, error.value);
          return;
        }
        AwaitLeaf(value, rest, top);
        stack := rest;
      case _ =>
        AwaitLeaf(value, rest, top);
        stack := rest;
    }
    error := None;
  }

  lemma TopOfStack(top: Frame)
    ensures !top.value.Array? && !top.value.Object? && !top.value.Number? ==> WithinLimits(top.value, top.depth)
    ensures top.value.Number? && NumberError(top.value.source).None? ==> WithinLimits(top.value, top.depth)
    ensures top.value.Number? && NumberError(top.value.source).Some? ==>
              Deserves(top.value, top.depth, NumberError(top.value.source).value)
    ensures (top.value.Array? || top.value.Object?) && top.depth >= MAX_CANONICAL_JSON_DEPTH ==>
              Deserves(top.value, top.depth, NestingTooDeep(top.depth + 1))
  {
  }

  // ---------------------------------------------------------------- the check on bytes

  predicate EndsToken(c: char) { c in " \t\r\n,]}" }

  /** How many characters from the front belong to the token that starts there. */
  function TokenLength(text: string): (n: nat)
    requires text != []
    ensures 1 <= n <= |text| && (forall i | 1 <= i < n :: !EndsToken(text[i])) && (n < |text| ==> EndsToken(text[n]))
  {
    if |text| == 1 || EndsToken(text[1]) then 1 else 1 + TokenLength(text[1..])
  }

  /** The scan of the rest of the text, from a depth and a position inside or outside a string. */
  function Scan(text: string, depth: nat, inString: bool, escaped: bool): Option<LimitError>
    decreases |text|
  {
    if text == [] then None
    else if inString then
      if escaped then Scan(text[1..], depth, true, false)
      else if text[0] == '\\' then Scan(text[1..], depth, true, true)
      else if text[0] == '"' then Scan(text[1..], depth, false, false)
      else Scan(text[1..], depth, true, false)
    else if text[0] == '"' then Scan(text[1..], depth, true, escaped)
    else if text[0] == '{' || text[0] == '[' then
      if depth + 1 > MAX_CANONICAL_JSON_DEPTH then Some(NestingTooDeep(depth + 1)) else Scan(text[1..], depth + 1, false, escaped)
    else if text[0] == '}' || text[0] == ']' then Scan(text[1..], if depth == 0 then 0 else depth - 1, false, escaped)
    else if text[0] == '-' || IsDigit(text[0]) then
      var n := TokenLength(text);
      var error := NumberError(text[..n]);
      if error.Some? then error else Scan(text[n..], depth, false, escaped)
    else Scan(text[1..], depth, false, escaped)
  }

  lemma OneCharacter(bytes: string, index: nat)
    requires index < |bytes|
    ensures bytes[index..] != [] && bytes[index..][0] == bytes[index] && bytes[index..][1..] == bytes[index + 1..]
  {
  }

  /** The inner loop over a number token. */
  method EndOfToken(bytes: string, start: nat) returns (index: nat)
    requires start < |bytes|
    ensures index == start + TokenLength(bytes[start..])
  {
    index := start + 1;
    while index < |bytes| && !EndsToken(bytes[index])
      invariant start < index <= |bytes|
      invariant forall i | start < i < index :: !EndsToken(bytes[i])
    {
      index := index + 1;
    }
    var n := TokenLength(bytes[start..]);
    assert forall i | 0 <= i < |bytes| - start :: bytes[start..][i] == bytes[start + i];
    assert n >= index - start by {
      assert n < |bytes[start..]| ==> EndsToken(bytes[start + n]);
    }
    assert n <= index - start by {
      assert index < |bytes| ==> EndsToken(bytes[start..][index - start]);
    }
  }

  /** `validate_lexical_limits`. */
  method ValidateLexicalLimits(bytes: string) returns (error: Option<LimitError>)
    ensures error == Scan(bytes, 0, false, false)
  {
    var depth: nat := 0;
    var index, inString, escaped := 0, false, false;
    assert bytes[0..] == bytes;
    while index < |bytes|
      invariant 0 <= index <= |bytes|
      invariant Scan(bytes, 0, false, false) == Scan(bytes[index..], depth, inString, escaped)
    {
      OneCharacter(bytes, index);
      var byte := bytes[index];
      if inString {
        if escaped {
          escaped := false;
        } else if byte == '\\' {
          escaped := true;
        } else if byte == '"' {
          inString := false;
        }
        index := index + 1;
        continue;
      }
      if byte == '"' {
        inString := true;
      } else if byte == '{' || byte == '[' {
        depth := depth + 1;
        if depth > MAX_CANONICAL_JSON_DEPTH { return Some(NestingTooDeep(depth)); }
      } else if byte == '}' || byte == ']' {
        depth := if depth == 0 then 0 else depth - 1;
      } else if byte == '-' || IsDigit(byte) {
        var start := index;
        index := EndOfToken(bytes, start);
        ghost var n := TokenLength(bytes[start..]);
        assert bytes[start..][..n] == bytes[start..index] && bytes[start..][n..] == bytes[index..];
        error := NumberError(bytes[start..index]);
        if error.Some? { return; }
        continue;
      }
      index := index + 1;
    }
    error := None;
  }

  // ---------------------------------------------------------------- scanning printed values

  /** The first error of a canonical value, in the order it is printed. */
  ghost function FirstError(t: Tree, depth: nat): Option<LimitError>
    decreases t
  {
    match t
    case TNumber(digits) => NumberError(digits)
    case TArray(items) => if depth < MAX_CANONICAL_JSON_DEPTH then FirstOfItems(items, depth + 1) else Some(NestingTooDeep(depth + 1))
    case TObject(members) => if depth < MAX_CANONICAL_JSON_DEPTH then FirstOfMembers(members, depth + 1) else Some(NestingTooDeep(depth + 1))
    case _ => None
  }

  ghost function FirstOfItems(items: seq<Tree>, depth: nat): Option<LimitError>
    decreases items
  {
    if items == [] then None
    else
      var error := FirstError(items[0], depth);
      if error.Some? then error else FirstOfItems(items[1..], depth)
  }

  ghost function FirstOfMembers(members: seq<Member>, depth: nat): Option<LimitError>
    decreases members
  {
    if members == [] then None
    else
      var error := FirstError(members[0].tree, depth);
      if error.Some? then error else FirstOfMembers(members[1..], depth)
  }

  /** The error, or else what the rest brings. */
  function Or(error: Option<LimitError>, rest: Option<LimitError>): Option<LimitError> {
    if error.Some? then error else rest
  }

  lemma Skip(c: char, rest: string, depth: nat)
    requires c != '"' && c != '{' && c != '[' && c != '}' && c != ']' && c != '-' && !IsDigit(c)
    ensures Scan([c] + rest, depth, false, false) == Scan(rest, depth, false, false)
  {
    assert ([c] + rest)[1..] == rest;
  }

  /** An escaped character leaves the scanner inside the string. */
  lemma ScanEscape(c: char, rest: string, depth: nat)
    ensures Scan(EscapeChar(c) + rest, depth, true, false) == Scan(rest, depth, true, false)
  {
    var s := EscapeChar(c);
    if |s| == 1 {
      StayInside(c, rest, depth);
    } else {
      var tail := s[2..] + rest;
      assert s + rest == ['\\', s[1]] + tail;
      Backslash(s[1], tail, depth);
      if |s| == 6 {
        assert tail == ['0'] + (['0'] + ([s[4]] + ([s[5]] + rest)));
        StayInside('0', ['0'] + ([s[4]] + ([s[5]] + rest)), depth);
        StayInside('0', [s[4]] + ([s[5]] + rest), depth);
        StayInside(s[4], [s[5]] + rest, depth);
        StayInside(s[5], rest, depth);
      } else {
        assert tail == rest;
      }
    }
  }

  lemma StayInside(c: char, rest: string, depth: nat)
    requires c != '"' && c != '\\'
    ensures Scan([c] + rest, depth, true, false) == Scan(rest, depth, true, false)
  {
    assert ([c] + rest)[1..] == rest;
  }

  lemma Backslash(c: char, rest: string, depth: nat)
    ensures Scan(['\\', c] + rest, depth, true, false) == Scan(rest, depth, true, false)
  {
    var all := ['\\', c] + rest;
    assert all[1..] == [c] + rest && ([c] + rest)[1..] == rest;
  }

  lemma {:induction false} ScanEscaped(text: string, rest: string, depth: nat)
    ensures Scan(Escaped(text) + ['"'] + rest, depth, true, false) == Scan(rest, depth, false, false)
  {
    if text == [] {
      EscapedNothing(rest);
      assert (['"'] + rest)[1..] == rest;
    } else {
      EscapedSplits(text, rest);
      ScanEscape(text[0], Escaped(text[1..]) + ['"'] + rest, depth);
      ScanEscaped(text[1..], rest, depth);
    }
  }

  /** The contents of a string never disturb the scan. */
  lemma ScanQuoted(text: string, rest: string, depth: nat)
    ensures Scan(Quoted(text) + rest, depth, false, false) == Scan(rest, depth, false, false)
  {
    ScanEscaped(text, rest, depth);
    assert Quoted(text) + rest == ['"'] + (Escaped(text) + ['"'] + rest);
    assert (['"'] + (Escaped(text) + ['"'] + rest))[1..] == Escaped(text) + ['"'] + rest;
  }

  /** A number is one token, and counted whole. */
  lemma ScanNumber(digits: string, rest: string, depth: nat)
    requires NumberText(digits) && Stops(rest)
    ensures Scan(digits + rest, depth, false, false) == Or(NumberError(digits), Scan(rest, depth, false, false))
  {
    var all := digits + rest;
    var n := TokenLength(all);
    assert forall i | 0 <= i < |digits| :: all[i] == digits[i] && NumberChar(digits[i]) && !EndsToken(digits[i]);
    assert rest != [] ==> all[|digits|] == rest[0] && EndsToken(rest[0]);
    assert n == |digits|;
    assert all[..n] == digits && all[n..] == rest;
  }

  /** White space between tokens is passed over, and like a comma or a closing bracket it ends a number. */
  lemma ScanSpace(digits: string, c: char, rest: string, depth: nat)
    requires NumberText(digits) && c in {' ', '\t', '\r', '\n', ',', ']', '}'}
    ensures Scan(digits + ([c] + rest), depth, false, false) == Or(NumberError(digits), Scan([c] + rest, depth, false, false))
    ensures c in {' ', '\t', '\r', '\n', ','} ==> Scan([c] + rest, depth, false, false) == Scan(rest, depth, false, false)
  {
    var next := [c] + rest;
    assert next[0] == c && next[1..] == rest && EndsToken(c);
    hide Scan, NumberError, TokenLength;
    TokenOfNumber(digits, next);
    ScanToken(digits, next, depth);
    SpacePassed(c, rest, depth);
  }

  lemma TokenOfNumber(digits: string, next: string)
    requires NumberText(digits) && next != [] && EndsToken(next[0])
    ensures TokenLength(digits + next) == |digits|
  {
    hide TokenLength;
    var all := digits + next;
    assert forall i | 0 <= i < |digits| :: all[i] == digits[i] && NumberChar(digits[i]) && !EndsToken(digits[i]);
    assert all[|digits|] == next[0];
  }

  lemma ScanToken(digits: string, next: string, depth: nat)
    requires NumberText(digits) && TokenLength(digits + next) == |digits|
    ensures Scan(digits + next, depth, false, false) == Or(NumberError(digits), Scan(next, depth, false, false))
  {
    hide TokenLength, NumberError;
    var all := digits + next;
    assert all[0] == digits[0] && all[..|digits|] == digits && all[|digits|..] == next;
  }

  lemma SpacePassed(c: char, rest: string, depth: nat)
    ensures c in {' ', '\t', '\r', '\n', ','} ==> Scan([c] + rest, depth, false, false) == Scan(rest, depth, false, false)
  {
    hide TokenLength, NumberError;
    assert ([c] + rest)[0] == c && ([c] + rest)[1..] == rest;
  }

  lemma ScanWord(word: string, rest: string, depth: nat)
    requires word == "null" || word == "true" || word == "false"
    ensures Scan(word + rest, depth, false, false) == Scan(rest, depth, false, false)
    decreases 0
  {
    SkipLetters(word, rest, depth);
  }

  lemma {:induction false} SkipLetters(word: string, rest: string, depth: nat)
    requires forall i | 0 <= i < |word| :: 'a' <= word[i] <= 'z'
    ensures Scan(word + rest, depth, false, false) == Scan(rest, depth, false, false)
  {
    if word == [] {
      assert word + rest == rest;
    } else {
      assert word + rest == [word[0]] + (word[1..] + rest);
      Skip(word[0], word[1..] + rest, depth);
      SkipLetters(word[1..], rest, depth);
    }
  }

  lemma ScanOpen(open: char, rest: string, depth: nat)
    requires open == '[' || open == '{'
    ensures Scan([open] + rest, depth, false, false) ==
            if depth < MAX_CANONICAL_JSON_DEPTH then Scan(rest, depth + 1, false, false) else Some(NestingTooDeep(depth + 1))
  {
    assert ([open] + rest)[1..] == rest;
  }

  lemma ScanClose(close: char, rest: string, depth: nat)
    requires close == ']' || close == '}'
    ensures Scan([close] + rest, depth + 1, false, false) == Scan(rest, depth, false, false)
  {
    assert ([close] + rest)[1..] == rest;
  }

  /** Scanning a printed value finds its first error, or passes over it and is back at the same depth. */
  lemma {:induction false} ScanTree(t: Tree, rest: string, depth: nat)
    requires Printable(t) && Stops(rest)
    ensures Scan(Print(t) + rest, depth, false, false) == Or(FirstError(t, depth), Scan(rest, depth, false, false))
    decreases t
  {
    hide Scan, NumberError, EndsToken;
    match t
    case TNull => ScanWord("null", rest, depth);
    case TBool(flag) => ScanWord(if flag then "true" else "false", rest, depth);
    case TNumber(digits) => ScanNumber(digits, rest, depth);
    case TString(text) => ScanQuoted(text, rest, depth);
    case TArray(items) =>
      OpenItems(items, rest);
      ScanOpen('[', PrintItems(items) + "]" + rest, depth);
      ScanItems(items, rest, depth);
    case TObject(members) =>
      OpenMembers(members, rest);
      ScanOpen('{', PrintMembers(members) + "}" + rest, depth);
      ScanMembers(members, rest, depth);
  }

  lemma OpenItems(items: seq<Tree>, rest: string)
    ensures Print(TArray(items)) + rest == ['['] + (PrintItems(items) + "]" + rest)
  {
    hide PrintItems;
  }

  lemma OpenMembers(members: seq<Member>, rest: string)
    ensures Print(TObject(members)) + rest == ['{'] + (PrintMembers(members) + "}" + rest)
  {
    hide PrintMembers;
  }

  lemma {:induction false} ScanItems(items: seq<Tree>, rest: string, depth: nat)
    requires forall i | 0 <= i < |items| :: Printable(items[i])
    ensures Scan(PrintItems(items) + "]" + rest, depth + 1, false, false) == Or(FirstOfItems(items, depth + 1), Scan(rest, depth, false, false))
    decreases items, 1
  {
    hide Scan, Print, PrintMoreItems, FirstError, Printable;
    if items == [] {
      assert PrintItems(items) + "]" + rest == [']'] + rest;
      ScanClose(']', rest, depth);
    } else {
      ItemsSplit(items, rest);
      MoreItemsStop(items[1..], rest);
      ScanTree(items[0], PrintMoreItems(items[1..]) + "]" + rest, depth + 1);
      ScanMoreItems(items[1..], rest, depth);
    }
  }

  lemma {:induction false} ScanMoreItems(items: seq<Tree>, rest: string, depth: nat)
    requires forall i | 0 <= i < |items| :: Printable(items[i])
    ensures Scan(PrintMoreItems(items) + "]" + rest, depth + 1, false, false) == Or(FirstOfItems(items, depth + 1), Scan(rest, depth, false, false))
    decreases items, 0
  {
    hide Scan, Print, FirstError, Printable;
    if items == [] {
      assert PrintMoreItems(items) + "]" + rest == [']'] + rest;
      ScanClose(']', rest, depth);
    } else {
      ItemsSplit(items, rest);
      hide PrintMoreItems;
      Skip(',', Print(items[0]) + (PrintMoreItems(items[1..]) + "]" + rest), depth + 1);
      MoreItemsStop(items[1..], rest);
      ScanTree(items[0], PrintMoreItems(items[1..]) + "]" + rest, depth + 1);
      ScanMoreItems(items[1..], rest, depth);
    }
  }

  lemma {:induction false} ScanMember(m: Member, rest: string, depth: nat)
    requires Printable(m.tree) && Stops(rest)
    ensures Scan(PrintMember(m) + rest, depth, false, false) == Or(FirstError(m.tree, depth), Scan(rest, depth, false, false))
    decreases m
  {
    hide Scan, Print, Quoted, FirstError, Printable, Stops;
    MemberSplits(m, rest);
    ScanQuoted(m.key, ":" + (Print(m.tree) + rest), depth);
    Skip(':', Print(m.tree) + rest, depth);
    ScanTree(m.tree, rest, depth);
  }

  lemma {:induction false} ScanMembers(members: seq<Member>, rest: string, depth: nat)
    requires forall i | 0 <= i < |members| :: Printable(members[i].tree)
    ensures Scan(PrintMembers(members) + "}" + rest, depth + 1, false, false) == Or(FirstOfMembers(members, depth + 1), Scan(rest, depth, false, false))
    decreases members, 1
  {
    hide Scan, PrintMember, PrintMoreMembers, FirstError, Printable;
    if members == [] {
      assert PrintMembers(members) + "}" + rest == ['}'] + rest;
      ScanClose('}', rest, depth);
    } else {
      MembersSplit(members, rest);
      MoreMembersStop(members[1..], rest);
      ScanMember(members[0], PrintMoreMembers(members[1..]) + "}" + rest, depth + 1);
      ScanMoreMembers(members[1..], rest, depth);
    }
  }

  lemma {:induction false} ScanMoreMembers(members: seq<Member>, rest: string, depth: nat)
    requires forall i | 0 <= i < |members| :: Printable(members[i].tree)
    ensures Scan(PrintMoreMembers(members) + "}" + rest, depth + 1, false, false) == Or(FirstOfMembers(members, depth + 1), Scan(rest, depth, false, false))
    decreases members, 0
  {
    hide Scan, PrintMember, FirstError, Printable;
    if members == [] {
      assert PrintMoreMembers(members) + "}" + rest == ['}'] + rest;
      ScanClose('}', rest, depth);
    } else {
      MembersSplit(members, rest);
      hide PrintMoreMembers;
      Skip(',', PrintMember(members[0]) + (PrintMoreMembers(members[1..]) + "}" + rest), depth + 1);
      MoreMembersStop(members[1..], rest);
      ScanMember(members[0], PrintMoreMembers(members[1..]) + "}" + rest, depth + 1);
      ScanMoreMembers(members[1..], rest, depth);
    }
  }

  // ---------------------------------------------------------------- the two checks agree

  lemma {:induction false} ItemsWithout(items: seq<Tree>, depth: nat)
    ensures FirstOfItems(items, depth).None? <==> forall i | 0 <= i < |items| :: FirstError(items[i], depth).None?
    decreases |items|
  {
    hide FirstError;
    if items != [] {
      ItemsWithout(items[1..], depth);
      assert forall i | 1 <= i < |items| :: items[i] == items[1..][i - 1];
    }
  }

  lemma {:induction false} MembersWithout(members: seq<Member>, depth: nat)
    ensures FirstOfMembers(members, depth).None? <==> forall m | m in members :: FirstError(m.tree, depth).None?
    decreases |members|
  {
    hide FirstError;
    if members != [] {
      MembersWithout(members[1..], depth);
      assert members == [members[0]] + members[1..];
    }
  }

  lemma ZerosAreFew(source: string)
    requires NumberFine(source, None) && !IsFloat(source) && OnlyZeros(source)
    ensures NumberError(source).None? && NumberError("0").None?
  {
    var unsigned := Unsigned(source);
    assert unsigned[0] == source[0] || unsigned[0] == source[1];
    assert unsigned[0] == '0';
    assert source == "0" || source == "-" + unsigned;
    assert DigitCount("0") == 1;
    assert "-0"[1..] == "0" && DigitCount("-0") == 1;
  }

  /** Source and canonical text of a number are judged alike. */
  lemma NumbersJudgedAlike(source: string, rounded: Option<string>)
    requires NumberFine(source, rounded) && (IsFloat(source) ==> rounded.Some?)
    ensures NumberError(PythonNumber(source, rounded)) == NumberError(source)
  {
    if IsFloat(source) {
      hide PythonFloat, ExactValue, DigitCount;
      ExponentFormIsForExtremes(rounded.value);
    } else if OnlyZeros(source) {
      hide DigitCount;
      ZerosAreFew(source);
    }
  }

  lemma {:induction false} LimitsAgree(v: Value, depth: nat)
    requires WellFormed(v) && Finite(v)
    ensures FirstError(Canon(v), depth).None? <==> WithinLimits(v, depth)
    decreases v
  {
    match v
    case Number(source, rounded) =>
      hide NumberError, PythonNumber;
      NumbersJudgedAlike(source, rounded);
    case Array(items) =>
      hide Canon, WithinLimits, FirstError;
      FineParts(v);
      hide WellFormed, Finite;
      forall i | 0 <= i < |items| { LimitsAgree(items[i], depth + 1); }
      ArrayAgrees(items, depth);
    case Object(entries) =>
      hide Canon, WithinLimits, FirstError;
      FineParts(v);
      hide WellFormed, Finite;
      forall i | 0 <= i < |entries| { LimitsAgree(entries[i].value, depth + 1); }
      ObjectAgrees(entries, depth);
    case _ =>
  }

  lemma FineParts(v: Value)
    requires WellFormed(v) && Finite(v)
    ensures v.Array? ==> FineItems(v.items)
    ensures v.Object? ==> FineEntries(v.entries)
  {
  }

  lemma ArrayAgrees(items: seq<Value>, depth: nat)
    requires WellFormed(Array(items)) && Finite(Array(items))
    requires forall i | 0 <= i < |items| :: FirstError(Canon(items[i]), depth + 1).None? <==> WithinLimits(items[i], depth + 1)
    ensures FirstError(Canon(Array(items)), depth).None? <==> WithinLimits(Array(items), depth)
  {
    ItemsAgree(items, depth + 1);
    assert Canon(Array(items)) == TArray(CanonItems(items));
    hide Canon, CanonItems, FirstOfItems;
  }

  lemma ObjectAgrees(entries: seq<Entry>, depth: nat)
    requires WellFormed(Object(entries)) && Finite(Object(entries))
    requires forall i | 0 <= i < |entries| :: FirstError(Canon(entries[i].value), depth + 1).None? <==> WithinLimits(entries[i].value, depth + 1)
    ensures FirstError(Canon(Object(entries)), depth).None? <==> WithinLimits(Object(entries), depth)
  {
    EntriesAgree(entries, depth + 1);
    CanonOfObject(entries);
    hide Canon, CanonEntries, FirstOfMembers;
  }

  lemma ItemsAgree(items: seq<Value>, depth: nat)
    requires FineItems(items)
    requires forall i | 0 <= i < |items| :: FirstError(Canon(items[i]), depth).None? <==> WithinLimits(items[i], depth)
    ensures FirstOfItems(CanonItems(items), depth).None? <==> forall i | 0 <= i < |items| :: WithinLimits(items[i], depth)
  {
    hide FirstError, Canon, WithinLimits, WellFormed, Finite, CanonItems;
    ItemsWithout(CanonItems(items), depth);
    assert forall i | 0 <= i < |items| :: CanonItems(items)[i] == Canon(items[i]);
  }

  lemma EntriesAgree(entries: seq<Entry>, depth: nat)
    requires FineEntries(entries)
    requires forall i | 0 <= i < |entries| :: FirstError(Canon(entries[i].value), depth).None? <==> WithinLimits(entries[i].value, depth)
    ensures FirstOfMembers(Sort(MemberLess, CanonEntries(entries)), depth).None? <==>
            forall i | 0 <= i < |entries| :: WithinLimits(entries[i].value, depth)
  {
    hide FirstError, Canon, WithinLimits, WellFormed, Finite, CanonEntries, FirstOfMembers, Sort, MemberLess;
    var c := CanonEntries(entries);
    MembersWithout(Sort(MemberLess, c), depth);
    SortMembers(MemberLess, c);
    MembersInAnyOrder(c, Sort(MemberLess, c), depth);
    assert forall i | 0 <= i < |entries| :: c[i].tree == Canon(entries[i].value);
  }

  lemma MembersInAnyOrder(c: seq<Member>, members: seq<Member>, depth: nat)
    requires forall m :: m in members <==> m in c
    ensures (forall m | m in members :: FirstError(m.tree, depth).None?) <==> forall i | 0 <= i < |c| :: FirstError(c[i].tree, depth).None?
  {
    hide FirstError;
    assert forall i | 0 <= i < |c| :: c[i] in members;
    if forall i | 0 <= i < |c| :: FirstError(c[i].tree, depth).None? {
      forall m | m in members
        ensures FirstError(m.tree, depth).None?
      {
        var i :| 0 <= i < |c| && c[i] == m;
      }
    }
  }

  /** The scanner's verdict on the canonical text is the verdict on the value. */
  lemma ScannerAgrees(v: Value)
    requires WellFormed(v) && Finite(v)
    ensures Scan(CanonicalText(v), 0, false, false).None? <==> WithinLimits(v, 0)
  {
    hide Canon, Print, FirstError, WithinLimits, Printable, WellFormed, Finite, Scan;
    CanonIsPrintable(v);
    LimitsAgree(v, 0);
    NewlineIsFree();
    ScanTree(Canon(v), "\n", 0);
  }

  lemma NewlineIsFree()
    ensures Stops("\n") && Scan("\n", 0, false, false).None?
  {
    assert "\n"[1..] == "";
  }

  // ---------------------------------------------------------------- encoding

  datatype Encoded = Encoded(bytes: string) | BeyondLimits(error: LimitError) | NotFinite

  /** `canonical_json`: what it returns is the canonical text, a reader of JSON makes the value's meaning of it, and
      the byte check lets it pass. */
  method CanonicalJson(value: Value) returns (encoded: Encoded)
    requires WellFormed(value)
    ensures encoded.Encoded? <==> WithinLimits(value, 0) && Finite(value)
    ensures encoded.Encoded? ==> encoded.bytes == CanonicalText(value) && Scan(encoded.bytes, 0, false, false).None?
    ensures encoded.Encoded? ==> JsonReader.ReadValue(encoded.bytes) == Some((MeaningOf(value), "\n"))
    ensures encoded.BeyondLimits? <==> !WithinLimits(value, 0)
    ensures encoded.BeyondLimits? ==> Deserves(value, 0, encoded.error)
  {
    hide WithinLimits, Deserves, Scan, Canon, Print;
    var error := ValidateValueLimits(value);
    if error.Some? { return BeyondLimits(error.value); }
    var output := new Output();
    var ok := WriteCanonicalValue(value, output);
    if !ok { return NotFinite; }
    output.Push("\n");
    ScannerAgrees(value);
    ReadsBack(value);
    encoded := Encoded(output.bytes);
  }

  lemma ReadsBack(value: Value)
    requires WellFormed(value) && Finite(value)
    ensures JsonReader.ReadValue(CanonicalText(value)) == Some((MeaningOf(value), "\n"))
  {
    hide *;
    JsonReader.CanonicalTextReadsBack(value, "");
    assert CanonicalText(value) + "" == CanonicalText(value) && "\n" + "" == "\n";
  }
}
