/** Python's layout of floats, from the shortest digits that identify them. */
module Floats {
  import opened Order
  import opened Digits

  // ---------------------------------------------------------------- powers of ten

  function PowerOfTen(n: int): (p: real)
    ensures p > 0.0
  {
    if n >= 0 then Power(n) as real else 1.0 / (Power(-n) as real)
  }

  lemma NextPower(n: int)
    ensures PowerOfTen(n + 1) == 10.0 * PowerOfTen(n)
  {
    if n < 0 {
      var p := Power(-n - 1) as real;
      assert Power(-n) == 10 * Power(-n - 1);
      assert PowerOfTen(n) == 1.0 / (10.0 * p);
      assert 10.0 * (1.0 / (10.0 * p)) == 1.0 / p;
    }
  }

  lemma {:induction false} PowersAdd(a: int, b: int)
    ensures PowerOfTen(a + b) == PowerOfTen(a) * PowerOfTen(b)
    decreases if b < 0 then -b else b
  {
    hide *;
    if b == 0 {
      AddNothing(a);
    } else if b > 0 {
      PowersAdd(a, b - 1);
      AddStep(a, b - 1, a + b - 1, a + b, b);
    } else {
      PowersAdd(a, b + 1);
      AddStep(a, b, a + b, a + b + 1, b + 1);
    }
  }

  lemma AddNothing(a: int)
    ensures PowerOfTen(a + 0) == PowerOfTen(a) * PowerOfTen(0)
  {
    assert PowerOfTen(0) == 1.0;
  }

  lemma AddStep(a: int, b: int, sum: int, sum': int, b': int)
    requires b' == b + 1 && sum' == sum + 1
    ensures PowerOfTen(sum) == PowerOfTen(a) * PowerOfTen(b) <==> PowerOfTen(sum') == PowerOfTen(a) * PowerOfTen(b')
  {
    NextPower(sum);
    NextPower(b);
    hide *;
    TenTimes(PowerOfTen(a), PowerOfTen(b), PowerOfTen(sum));
  }

  lemma TenTimes(x: real, y: real, z: real)
    ensures z == x * y <==> 10.0 * z == x * (10.0 * y)
  {
    assert x * (10.0 * y) == 10.0 * (x * y);
  }

  lemma {:induction false} PowersGrow(a: int, b: int)
    requires a < b
    ensures PowerOfTen(a) < PowerOfTen(b)
    decreases b - a
  {
    NextPower(b - 1);
    if a < b - 1 { PowersGrow(a, b - 1); }
  }

  lemma PowersOrder(a: int, b: int)
    ensures a < b <==> PowerOfTen(a) < PowerOfTen(b)
  {
    if a < b { PowersGrow(a, b); }
    if b < a { PowersGrow(b, a); }
  }

  /** `n` with its decimal point moved. */
  function Scaled(n: nat, e: int): real { n as real * PowerOfTen(e) }

  lemma ScaledShift(n: nat, t: nat, e: int)
    ensures Scaled(n * Power(t), e) == Scaled(n, t + e)
  {
    PowersAdd(t, e);
    NaturalPower(t);
    hide PowerOfTen, Power;
    CastProduct(n, Power(t));
    Associate(n as real, PowerOfTen(t), PowerOfTen(e));
  }

  lemma ScaledPower(t: nat, e: int)
    ensures Scaled(Power(t), e) == PowerOfTen(t + e)
  {
    PowersAdd(t, e);
    NaturalPower(t);
    hide PowerOfTen, Power;
  }

  lemma ScaledOrder(n: nat, m: nat, e: int)
    ensures Scaled(n, e) < Scaled(m, e) <==> n < m
    ensures Scaled(n, e) == Scaled(m, e) <==> n == m
  {
    hide PowerOfTen;
    KeepOrder(n as real, m as real, PowerOfTen(e));
  }

  lemma KeepOrder(x: real, y: real, p: real)
    requires p > 0.0
    ensures x < y <==> x * p < y * p
    ensures x == y <==> x * p == y * p
  {
    if x < y { assert (y - x) * p > 0.0; }
    if y < x { assert (x - y) * p > 0.0; }
  }

  lemma NaturalPower(t: nat)
    ensures PowerOfTen(t) == Power(t) as real
  {
  }

  lemma CastProduct(n: nat, m: nat)
    ensures (n * m) as real == n as real * (m as real)
  {
  }

  lemma Associate(x: real, p: real, q: real)
    ensures (x * p) * q == x * (p * q)
  {
  }

  // ---------------------------------------------------------------- the parts of a float's text

  /** The first position of one of the marks, or the length when there is none. */
  function FirstMark(s: string, marks: string): (i: nat)
    ensures i <= |s| && (forall j | 0 <= j < i :: s[j] !in marks) && (i < |s| ==> s[i] in marks)
  {
    if s == [] || s[0] in marks then 0 else 1 + FirstMark(s[1..], marks)
  }

  lemma {:induction false} FirstMarkIs(s: string, marks: string, i: nat)
    requires i <= |s| && (forall j | 0 <= j < i :: s[j] !in marks) && (i < |s| ==> s[i] in marks)
    ensures FirstMark(s, marks) == i
  {
    if i > 0 {
      assert s[0] !in marks;
      FirstMarkIs(s[1..], marks, i - 1);
    }
  }

  predicate ExponentText(s: string) {
    var digits := if s != [] && (s[0] == '+' || s[0] == '-') then s[1..] else s;
    digits != [] && AllDigits(digits)
  }

  function Negate(negative: bool, n: int): int { if negative then -n else n }

  function ExponentValue(s: string): int
    requires ExponentText(s)
  {
    if s[0] == '+' then NatOf(s[1..]) else if s[0] == '-' then Negate(true, NatOf(s[1..])) else NatOf(s)
  }

  datatype Parts = Parts(integer: string, fraction: string, exponent: int)

  function Mantissa(unsigned: string): string { unsigned[..FirstMark(unsigned, "eE")] }

  /** Text of the shape digits, point, digits, exponent; the last two may be missing. */
  predicate Numeric(unsigned: string) {
    var at := FirstMark(unsigned, "eE");
    var mantissa := Mantissa(unsigned);
    var point := FirstMark(mantissa, ".");
    && (at < |unsigned| ==> ExponentText(unsigned[at + 1..]))
    && AllDigits(mantissa[..point]) && (point < |mantissa| ==> AllDigits(mantissa[point + 1..]))
  }

  function SplitParts(unsigned: string): (parts: Parts)
    requires Numeric(unsigned)
    ensures AllDigits(parts.integer) && AllDigits(parts.fraction)
  {
    var at := FirstMark(unsigned, "eE");
    var mantissa := Mantissa(unsigned);
    var point := FirstMark(mantissa, ".");
    Parts(mantissa[..point],
          if point < |mantissa| then mantissa[point + 1..] else "",
          if at < |unsigned| then ExponentValue(unsigned[at + 1..]) else 0)
  }

  function Negative(text: string): bool { text != [] && text[0] == '-' }
  function WithoutSign(text: string): string { if Negative(text) then text[1..] else text }

  /** The exact number that the text denotes, read digit by digit. */
  function ExactValue(text: string): real
    requires Numeric(WithoutSign(text))
  {
    var parts := SplitParts(WithoutSign(text));
    var digits := parts.integer + parts.fraction;
    var magnitude := Scaled(NatOf(digits), parts.exponent - |parts.fraction|);
    if Negative(text) then -magnitude else magnitude
  }

  // ---------------------------------------------------------------- normal form

  datatype Decimal = Zero(negative: bool) | Decimal(negative: bool, significant: string, scientific: int)

  /** Neither end of the significant digits is a zero. */
  predicate NormalDecimal(d: Decimal) {
    d.Decimal? ==> d.significant != [] && AllDigits(d.significant) && d.significant[0] != '0' && d.significant[|d.significant| - 1] != '0'
  }

  function DecimalValue(d: Decimal): real
    requires NormalDecimal(d)
  {
    match d
    case Zero(_) => 0.0
    case Decimal(negative, significant, scientific) =>
      var magnitude := Magnitude(significant, scientific);
      if negative then -magnitude else magnitude
  }

  function Magnitude(significant: string, scientific: int): real
    requires AllDigits(significant)
  {
    Scaled(NatOf(significant), scientific - (|significant| - 1))
  }

  predicate FitsI32(n: int) { -0x8000_0000 <= n < 0x8000_0000 }

  function Combined(parts: Parts): string { parts.integer + parts.fraction }
  function Significant(digits: string): string { TrimEnd(TrimStart(digits)) }
  function ScientificExponent(parts: Parts): int {
    parts.exponent + |parts.integer| - LeadingZeroCount(Combined(parts)) - 1
  }

  predicate IsZeroText(unsigned: string) { unsigned == "0.0" || unsigned == "0" }

  /** No step of the exponent's computation leaves 32 bits. */
  predicate ExponentFits(parts: Parts) {
    && FitsI32(parts.exponent) && FitsI32(|parts.integer|) && FitsI32(LeadingZeroCount(Combined(parts)))
    && FitsI32(parts.exponent + |parts.integer|)
    && FitsI32(ScientificExponent(parts) + 1) && FitsI32(ScientificExponent(parts))
  }

  /** What the shortest formatter hands over: zero in one of two spellings, or a number with a non-zero digit. */
  predicate FloatText(text: string) {
    var unsigned := WithoutSign(text);
    && Numeric(unsigned)
    && (IsZeroText(unsigned) || Significant(Combined(SplitParts(unsigned))) != [])
    && ExponentFits(SplitParts(unsigned))
  }

  /** Sign, significant digits and scientific exponent, as the function computes them. */
  function Decompose(text: string): Decimal
    requires Numeric(WithoutSign(text))
  {
    var unsigned := WithoutSign(text);
    if IsZeroText(unsigned) then Zero(Negative(text))
    else
      var parts := SplitParts(unsigned);
      Decimal(Negative(text), Significant(Combined(parts)), ScientificExponent(parts))
  }

  lemma SignificantDigits(digits: string)
    requires AllDigits(digits)
    ensures var s := Significant(digits);
            && AllDigits(s) && |s| + LeadingZeroCount(digits) <= |digits|
            && NatOf(digits) == NatOf(s) * Power(|digits| - LeadingZeroCount(digits) - |s|)
            && (s != [] ==> s[0] != '0' && s[|s| - 1] != '0')
  {
    var rest := TrimStart(digits);
    var s := TrimEnd(rest);
    var n := LeadingZeroCount(digits);
    hide LeadingZeroCount, TrimEnd, NatOf, Zeros;
    TrimmedAt(digits);
    assert AllDigits(rest);
    LeadingZeros(n, rest);
    assert s == rest[..|s|];
    assert AllDigits(s);
    TrailingZeros(s, |rest| - |s|);
    SignificantHead(rest);
  }

  lemma TrimmedAt(digits: string)
    ensures var n := LeadingZeroCount(digits);
            TrimStart(digits) == digits[n..] && digits == Zeros(n) + TrimStart(digits)
  {
    var n := LeadingZeroCount(digits);
    assert digits == digits[..n] + digits[n..];
  }

  lemma SignificantHead(rest: string)
    requires rest != [] ==> rest[0] != '0'
    ensures TrimEnd(rest) != [] ==> TrimEnd(rest)[0] != '0'
  {
    var s := TrimEnd(rest);
    assert rest == s + Zeros(|rest| - |s|);
    assert s == rest[..|s|];
  }

  /** The normal form has the exact value of the text. */
  lemma DecomposeKeepsValue(text: string)
    requires FloatText(text)
    ensures NormalDecimal(Decompose(text)) && DecimalValue(Decompose(text)) == ExactValue(text)
    ensures Decompose(text).negative == Negative(text)
  {
    hide Significant, LeadingZeroCount, NatOf, PowerOfTen, SplitParts, Numeric, FirstMark, ExponentFits;
    var unsigned := WithoutSign(text);
    var parts := SplitParts(unsigned);
    if IsZeroText(unsigned) {
      ZeroText(unsigned);
    } else {
      PartsKeepValue(parts);
    }
  }

  lemma PartsKeepValue(parts: Parts)
    requires AllDigits(parts.integer) && AllDigits(parts.fraction) && Significant(Combined(parts)) != []
    ensures var s := Significant(Combined(parts));
            && AllDigits(s) && s[0] != '0' && s[|s| - 1] != '0'
            && Scaled(NatOf(Combined(parts)), parts.exponent - |parts.fraction|) == Magnitude(s, ScientificExponent(parts))
  {
    hide Significant, LeadingZeroCount, NatOf, Scaled;
    var digits := Combined(parts);
    SignificantDigits(digits);
    var s := Significant(digits);
    var t := |digits| - LeadingZeroCount(digits) - |s|;
    ScaledShift(NatOf(s), t, parts.exponent - |parts.fraction|);
    assert ScientificExponent(parts) - (|s| - 1) == t + (parts.exponent - |parts.fraction|);
  }

  lemma ZeroText(unsigned: string)
    requires IsZeroText(unsigned) && Numeric(unsigned)
    ensures var digits := Combined(SplitParts(unsigned)); digits == Zeros(|digits|) && NatOf(digits) == 0
  {
    if unsigned == "0" { ZeroAlone(); } else { ZeroWithPoint(); }
  }

  lemma ZeroAlone()
    requires Numeric("0")
    ensures var digits := Combined(SplitParts("0")); digits == Zeros(|digits|) && NatOf(digits) == 0
  {
    FirstMarkIs("0", "eE", 1);
    FirstMarkIs("0", ".", 1);
    assert "0"[..1] == "0" && "0" + "" == "0";
    assert NatOf("0") == 0;
  }

  lemma ZeroWithPoint()
    requires Numeric("0.0")
    ensures var digits := Combined(SplitParts("0.0")); digits == Zeros(|digits|) && NatOf(digits) == 0
  {
    FirstMarkIs("0.0", "eE", 3);
    FirstMarkIs("0.0", ".", 1);
    hide NatOf;
    assert "0.0"[..3] == "0.0" && "0.0"[..1] == "0" && "0.0"[2..] == "0";
    assert "0" + "0" == Zeros(2);
    ZerosAreNothing(2);
  }

  // ---------------------------------------------------------------- one number, one normal form

  /** The leading digit decides the power of ten. */
  lemma MagnitudeBounds(significant: string, scientific: int)
    requires AllDigits(significant) && significant != [] && significant[0] != '0'
    ensures PowerOfTen(scientific) <= Magnitude(significant, scientific) < PowerOfTen(scientific + 1)
  {
    var n := |significant| - 1;
    NatAbove(significant);
    NatBelow(significant);
    hide PowerOfTen, Scaled, NatOf;
    ScaledPower(n, scientific - n);
    ScaledPower(n + 1, scientific - n);
    ScaledOrder(NatOf(significant), Power(n), scientific - n);
    ScaledOrder(NatOf(significant), Power(n + 1), scientific - n);
  }

  lemma SameMagnitude(s1: string, e1: int, s2: string, e2: int)
    requires NormalDecimal(Decimal(false, s1, e1)) && NormalDecimal(Decimal(false, s2, e2)) && |s1| <= |s2|
    requires Magnitude(s1, e1) == Magnitude(s2, e2)
    ensures s1 == s2 && e1 == e2
  {
    hide PowerOfTen, Scaled, NatOf, Zeros;
    SameExponent(s1, e1, s2, e2);
    var t, e := |s2| - |s1|, e1 - (|s2| - 1);
    ScaledShift(NatOf(s1), t, e);
    ScaledOrder(NatOf(s1) * Power(t), NatOf(s2), e);
    TrailingZeros(s1, t);
    LastOfPadded(s1, t);
    NatInjective(s1 + Zeros(t), s2);
  }

  lemma LastOfPadded(s: string, t: nat)
    ensures t > 0 ==> (s + Zeros(t))[|s| + t - 1] == '0'
  {
  }

  lemma SameExponent(s1: string, e1: int, s2: string, e2: int)
    requires NormalDecimal(Decimal(false, s1, e1)) && NormalDecimal(Decimal(false, s2, e2))
    requires Magnitude(s1, e1) == Magnitude(s2, e2)
    ensures e1 == e2
  {
    hide PowerOfTen, Magnitude;
    MagnitudeBounds(s1, e1);
    MagnitudeBounds(s2, e2);
    PowersOrder(e1, e2 + 1);
    PowersOrder(e2, e1 + 1);
  }

  /** Normal forms with the same sign and the same value are the same. */
  lemma NormalFormIsUnique(a: Decimal, b: Decimal)
    requires NormalDecimal(a) && NormalDecimal(b) && a.negative == b.negative && DecimalValue(a) == DecimalValue(b)
    ensures a == b
  {
    hide Magnitude;
    if a.Decimal? { MagnitudeBounds(a.significant, a.scientific); }
    if b.Decimal? { MagnitudeBounds(b.significant, b.scientific); }
    if a.Decimal? && b.Decimal? {
      if |a.significant| <= |b.significant| {
        SameMagnitude(a.significant, a.scientific, b.significant, b.scientific);
      } else {
        SameMagnitude(b.significant, b.scientific, a.significant, a.scientific);
      }
    }
  }
}
