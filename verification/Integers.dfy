/** Arbitrary-precision JSON integers: normalisation, equality and ordering. */
module Integers {
  import opened Wrappers
  import opened Order
  import opened Digits

  datatype Ordering = Less | Equal | Greater
  datatype JsonInteger = JsonInteger(digits: string, negative: bool)

  /** No leading zeros, and zero is never negative. */
  predicate Normal(n: JsonInteger) {
    && AllDigits(n.digits) && n.digits != []
    && (n.digits[0] == '0' ==> n.digits == "0" && !n.negative)
  }

  function Signed(negative: bool, magnitude: int): int { if negative then -magnitude else magnitude }

  /** The integer that digits and sign denote. */
  function ValueOf(n: JsonInteger): int
    requires AllDigits(n.digits)
  {
    Signed(n.negative, NatOf(n.digits))
  }

  function CompareLengths(a: nat, b: nat): Ordering {
    if a < b then Less else if a == b then Equal else Greater
  }

  function CompareText(a: string, b: string): Ordering {
    if StringLess(a, b) then Less else if a == b then Equal else Greater
  }

  function Then(first: Ordering, second: Ordering): Ordering {
    if first == Equal then second else first
  }

  /** Sign first, then length, then digits. */
  function Compare(a: JsonInteger, b: JsonInteger): Ordering {
    match (a.negative, b.negative)
    case (true, false) => Less
    case (false, true) => Greater
    case (false, false) => Then(CompareLengths(|a.digits|, |b.digits|), CompareText(a.digits, b.digits))
    case (true, true) => Then(CompareLengths(|b.digits|, |a.digits|), CompareText(b.digits, a.digits))
  }

  lemma MagnitudesCompare(a: string, b: string)
    requires AllDigits(a) && AllDigits(b) && a != [] && b != []
    requires (a[0] == '0' ==> a == "0") && (b[0] == '0' ==> b == "0")
    ensures Then(CompareLengths(|a|, |b|), CompareText(a, b)) ==
            if NatOf(a) < NatOf(b) then Less else if NatOf(a) == NatOf(b) then Equal else Greater
  {
    if |a| < |b| {
      LongerIsLarger(a, b);
    } else if |b| < |a| {
      LongerIsLarger(b, a);
    } else {
      OrderByDigits(a, b);
      OrderByDigits(b, a);
      StringLessConnected(a, b);
      if NatOf(a) == NatOf(b) { NatInjective(a, b); }
      StringLessIrreflexive(a);
    }
  }

  /** The comparison is the order of the integers. */
  lemma CompareIsIntegerOrder(a: JsonInteger, b: JsonInteger)
    requires Normal(a) && Normal(b)
    ensures Compare(a, b) == Less <==> ValueOf(a) < ValueOf(b)
    ensures Compare(a, b) == Equal <==> ValueOf(a) == ValueOf(b)
    ensures Compare(a, b) == Greater <==> ValueOf(a) > ValueOf(b)
    ensures Compare(a, b) == Equal <==> a == b
  {
    MagnitudesCompare(a.digits, b.digits);
    MagnitudesCompare(b.digits, a.digits);
    PositiveUnlessZero(a);
    PositiveUnlessZero(b);
    if a.negative == b.negative && NatOf(a.digits) == NatOf(b.digits) {
      assert |a.digits| == |b.digits| && a.digits == b.digits;
    }
  }

  lemma PositiveUnlessZero(n: JsonInteger)
    requires Normal(n)
    ensures n.negative ==> NatOf(n.digits) > 0
  {
    if n.digits[0] != '0' { NatAbove(n.digits); }
  }

  /** So it is a total order: connected, antisymmetric and transitive. */
  lemma CompareIsTotalOrder(a: JsonInteger, b: JsonInteger, c: JsonInteger)
    requires Normal(a) && Normal(b) && Normal(c)
    ensures Compare(a, a) == Equal
    ensures Compare(a, b) == Less <==> Compare(b, a) == Greater
    ensures Compare(a, b) != Greater && Compare(b, a) != Greater ==> a == b
    ensures Compare(a, b) != Greater && Compare(b, c) != Greater ==> Compare(a, c) != Greater
  {
    CompareIsIntegerOrder(a, a);
    CompareIsIntegerOrder(a, b);
    CompareIsIntegerOrder(b, a);
    CompareIsIntegerOrder(b, c);
    CompareIsIntegerOrder(a, c);
  }

  // ---------------------------------------------------------------- reading a number's text

  predicate HasPointOrExponent(source: string) { '.' in source || 'e' in source || 'E' in source }

  function Unsigned(source: string): string {
    if source != [] && source[0] == '-' then source[1..] else source
  }

  /** An optional minus sign and at least one digit. */
  predicate IntegerText(source: string) {
    Unsigned(source) != [] && AllDigits(Unsigned(source))
  }

  function IntegerValue(source: string): int
    requires IntegerText(source)
  {
    if source[0] == '-' then Signed(true, NatOf(source[1..])) else Signed(false, NatOf(source))
  }

  /** `json_integer` on the text of a number. */
  function ReadInteger(source: string): Option<JsonInteger> {
    if HasPointOrExponent(source) then None
    else
      var negative := source != [] && source[0] == '-';
      var unsigned := Unsigned(source);
      if unsigned == [] || !AllDigits(unsigned) then None
      else
        var digits := TrimStart(unsigned);
        if digits == [] then Some(JsonInteger("0", false)) else Some(JsonInteger(digits, negative))
  }

  /** Exactly the integer texts are read, to the integer they denote, in the one normal form. */
  lemma ReadIntegerMeans(source: string)
    ensures ReadInteger(source).Some? <==> IntegerText(source)
    ensures IntegerText(source) ==> Normal(ReadInteger(source).value) && ValueOf(ReadInteger(source).value) == IntegerValue(source)
  {
    if IntegerText(source) {
      NoPoint(source);
      TrimmedDigits(Unsigned(source));
      hide HasPointOrExponent, TrimStart, NatOf;
      NatOfZero();
    }
  }

  lemma NatOfZero()
    ensures NatOf("0") == 0
  {
  }

  lemma NoPoint(source: string)
    requires IntegerText(source)
    ensures !HasPointOrExponent(source)
  {
    var unsigned := Unsigned(source);
    forall i | 0 <= i < |source|
      ensures source[i] != '.' && source[i] != 'e' && source[i] != 'E'
    {
      if source[0] == '-' && i > 0 { assert source[i] == unsigned[i - 1]; }
    }
  }

  lemma TrimmedDigits(s: string)
    requires AllDigits(s)
    ensures AllDigits(TrimStart(s)) && NatOf(TrimStart(s)) == NatOf(s)
    ensures TrimStart(s) == [] ==> NatOf(s) == 0
  {
    var r := TrimStart(s);
    var n := |s| - |r|;
    assert r == s[n..];
    LeadingZeros(n, r);
  }

  /** Two integer texts read alike exactly when they denote the same integer. */
  lemma ReadIntegerIsExact(a: string, b: string)
    requires IntegerText(a) && IntegerText(b)
    ensures ReadInteger(a) == ReadInteger(b) <==> IntegerValue(a) == IntegerValue(b)
  {
    hide *;
    ReadIntegerMeans(a);
    ReadIntegerMeans(b);
    CompareIsIntegerOrder(ReadInteger(a).value, ReadInteger(b).value);
  }

  lemma MinusZeroIsZero()
    ensures IntegerText("-0") && IntegerText("0") && ReadInteger("-0") == ReadInteger("0")
  {
    assert "-0"[1..] == "0";
    ReadIntegerIsExact("-0", "0");
  }
}
