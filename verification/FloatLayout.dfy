/** How Python writes a float, and how that text reads back. */
module FloatLayout {
  import opened Order
  import opened Digits
  import opened Floats

  // ---------------------------------------------------------------- exponents

  function DecimalText(n: nat): (s: string)
    ensures s != [] && AllDigits(s) && NatOf(s) == n
  {
    var digit := [('0' as int + n % 10) as char];
    if n < 10 then
      assert NatOf(digit) == n;
      digit
    else
      var front := DecimalText(n / 10);
      assert (front + digit)[..|front + digit| - 1] == front;
      front + digit
  }

  /** At least two digits. */
  function TwoDigits(n: nat): (s: string)
    ensures s != [] && AllDigits(s) && NatOf(s) == n
  {
    var s := DecimalText(n);
    if |s| < 2 then
      assert Zeros(1) == "0";
      LeadingZeros(1, s);
      "0" + s
    else s
  }

  function ExponentSuffix(e: int): (s: string)
    ensures ExponentText(s) && ExponentValue(s) == e
  {
    var digits := TwoDigits(if e < 0 then -e else e);
    assert ("+" + digits)[1..] == digits && ("-" + digits)[1..] == digits;
    if e >= 0 then "+" + digits else "-" + digits
  }

  // ---------------------------------------------------------------- the layout

  function Sign(negative: bool): string { if negative then "-" else "" }

  predicate InExponentForm(d: Decimal) { d.Decimal? && !(-4 <= d.scientific < 16) }

  function WithExponent(significant: string, scientific: int): string
    requires significant != []
  {
    significant[..1] + (if |significant| > 1 then "." + significant[1..] else "") + "e" + ExponentSuffix(scientific)
  }

  /** Digits around a point, padded with zeros on the side that needs them. */
  function WithPoint(significant: string, scientific: int): string {
    var position := scientific + 1;
    if position <= 0 then "0" + "." + (Zeros(-position) + significant)
    else if position >= |significant| then (significant + Zeros(position - |significant|)) + "." + "0"
    else significant[..position] + "." + significant[position..]
  }

  function Layout(d: Decimal): string
    requires NormalDecimal(d)
  {
    match d
    case Zero(negative) => Sign(negative) + "0.0"
    case Decimal(negative, significant, scientific) =>
      Sign(negative) + if InExponentForm(d) then WithExponent(significant, scientific) else WithPoint(significant, scientific)
  }

  /** `python_float_from_shortest`. */
  function PythonFloat(shortest: string): string
    requires FloatText(shortest)
  {
    DecomposeKeepsValue(shortest);
    Layout(Decompose(shortest))
  }

  // ---------------------------------------------------------------- reading a layout

  lemma DigitsHaveNoMark(s: string, marks: string)
    requires AllDigits(s) && forall i | 0 <= i < |marks| :: !IsDigit(marks[i])
    ensures forall j | 0 <= j < |s| :: s[j] !in marks
  {
  }

  lemma PointParts(integer: string, fraction: string)
    requires AllDigits(integer) && AllDigits(fraction)
    ensures var u := integer + "." + fraction; Numeric(u) && SplitParts(u) == Parts(integer, fraction, 0)
  {
    var u := integer + "." + fraction;
    FirstMarkIs(u, "eE", |u|);
    FirstMarkIs(u, ".", |integer|);
    assert Mantissa(u) == u;
    assert u[..|integer|] == integer && u[|integer| + 1..] == fraction;
  }

  lemma ExponentParts(mantissa: string, suffix: string, integer: string, fraction: string)
    requires AllDigits(integer) && AllDigits(fraction) && ExponentText(suffix)
    requires mantissa == integer + "." + fraction || (mantissa == integer && fraction == "")
    ensures var u := mantissa + "e" + suffix; Numeric(u) && SplitParts(u) == Parts(integer, fraction, ExponentValue(suffix))
  {
    ExponentCut(mantissa, suffix, integer, fraction);
    MantissaParts(mantissa, integer, fraction);
    hide FirstMark, ExponentText, ExponentValue, AllDigits;
  }

  lemma ExponentCut(mantissa: string, suffix: string, integer: string, fraction: string)
    requires AllDigits(integer) && AllDigits(fraction)
    requires mantissa == integer + "." + fraction || mantissa == integer
    ensures var u := mantissa + "e" + suffix;
            FirstMark(u, "eE") == |mantissa| && Mantissa(u) == mantissa && u[|mantissa| + 1..] == suffix
  {
    var u := mantissa + "e" + suffix;
    FirstMarkIs(u, "eE", |mantissa|);
    hide FirstMark;
  }

  lemma MantissaParts(mantissa: string, integer: string, fraction: string)
    requires AllDigits(integer) && AllDigits(fraction)
    requires mantissa == integer + "." + fraction || (mantissa == integer && fraction == "")
    ensures FirstMark(mantissa, ".") == |integer| && mantissa[..|integer|] == integer
    ensures (if |integer| < |mantissa| then mantissa[|integer| + 1..] else "") == fraction
  {
    FirstMarkIs(mantissa, ".", |integer|);
    hide FirstMark;
  }

  lemma {:induction false} ZerosInFront(n: nat, s: string)
    requires s != [] && s[0] != '0'
    ensures LeadingZeroCount(Zeros(n) + s) == n && TrimStart(Zeros(n) + s) == s
  {
    var all := Zeros(n) + s;
    if n == 0 {
      assert all == s;
    } else {
      assert all[1..] == Zeros(n - 1) + s && all[0] == '0';
      ZerosInFront(n - 1, s);
    }
    assert all[n..] == s;
  }

  lemma {:induction false} ZerosBehind(s: string, n: nat)
    requires s != [] && s[|s| - 1] != '0'
    ensures TrimEnd(s + Zeros(n)) == s
  {
    if n == 0 {
      assert s + Zeros(0) == s;
    } else {
      var all := s + Zeros(n);
      assert all[..|all| - 1] == s + Zeros(n - 1) && all[|all| - 1] == '0';
      ZerosBehind(s, n - 1);
    }
  }

  /** Padding on either side changes neither the significant digits nor, given the point, the exponent. */
  lemma PaddedDigits(before: nat, significant: string, after: nat)
    requires significant != [] && AllDigits(significant) && significant[0] != '0' && significant[|significant| - 1] != '0'
    ensures var digits := Zeros(before) + significant + Zeros(after);
            AllDigits(digits) && LeadingZeroCount(digits) == before && Significant(digits) == significant
  {
    var digits := Zeros(before) + significant + Zeros(after);
    assert digits == Zeros(before) + (significant + Zeros(after));
    ZerosInFront(before, significant + Zeros(after));
    ZerosBehind(significant, after);
  }

  lemma ZeroTextIsInsignificant(unsigned: string)
    requires Numeric(unsigned) && Significant(Combined(SplitParts(unsigned))) != []
    ensures !IsZeroText(unsigned)
  {
    if IsZeroText(unsigned) {
      ZeroText(unsigned);
      ZerosSignifyNothing(|Combined(SplitParts(unsigned))|);
    }
  }

  lemma ZerosSignifyNothing(n: nat)
    ensures Significant(Zeros(n)) == ""
  {
    var rest := TrimStart(Zeros(n));
    assert Zeros(n) == Zeros(n - |rest|) + rest;
  }

  /** Digits and an exponent that fit the sign-less text of a number. */
  ghost predicate Shows(unsigned: string, significant: string, scientific: int) {
    && Numeric(unsigned) && unsigned != [] && unsigned[0] != '-'
    && Significant(Combined(SplitParts(unsigned))) == significant
    && ScientificExponent(SplitParts(unsigned)) == scientific
    && ExponentFits(SplitParts(unsigned))
  }

  lemma PointShows(significant: string, scientific: int)
    requires NormalDecimal(Decimal(false, significant, scientific)) && -4 <= scientific < 16
    ensures Shows(WithPoint(significant, scientific), significant, scientific)
  {
    var position := scientific + 1;
    if position <= 0 {
      SmallShows(significant, scientific);
    } else if position >= |significant| {
      WholeShows(significant, scientific);
    } else {
      BothShow(significant, scientific);
    }
  }

  lemma SmallShows(significant: string, scientific: int)
    requires NormalDecimal(Decimal(false, significant, scientific)) && -4 <= scientific < 0
    ensures Shows(WithPoint(significant, scientific), significant, scientific)
  {
    var position := scientific + 1;
    hide Significant, LeadingZeroCount, NatOf, SplitParts, Numeric;
    var fraction := Zeros(-position) + significant;
    PaddedDigits(1 - position, significant, 0);
    assert "0" + fraction == Zeros(1 - position) + significant + Zeros(0);
    PointParts("0", fraction);
  }

  lemma WholeShows(significant: string, scientific: int)
    requires NormalDecimal(Decimal(false, significant, scientific)) && 0 <= scientific < 16 && scientific + 1 >= |significant|
    ensures Shows(WithPoint(significant, scientific), significant, scientific)
  {
    hide Significant, LeadingZeroCount, NatOf, SplitParts, Numeric;
    var k := scientific + 1 - |significant|;
    PaddedDigits(0, significant, k + 1);
    assert (significant + Zeros(k)) + "0" == Zeros(0) + significant + Zeros(k + 1);
    PointParts(significant + Zeros(k), "0");
  }

  lemma BothShow(significant: string, scientific: int)
    requires NormalDecimal(Decimal(false, significant, scientific)) && 0 <= scientific && scientific + 1 < |significant| && scientific < 16
    ensures Shows(WithPoint(significant, scientific), significant, scientific)
  {
    var position := scientific + 1;
    hide Significant, LeadingZeroCount, NatOf, SplitParts, Numeric;
    PaddedDigits(0, significant, 0);
    assert significant[..position] + significant[position..] == Zeros(0) + significant + Zeros(0);
    PointParts(significant[..position], significant[position..]);
  }

  lemma ExponentShows(significant: string, scientific: int)
    requires NormalDecimal(Decimal(false, significant, scientific)) && FitsI32(scientific) && FitsI32(scientific + 1)
    ensures Shows(WithExponent(significant, scientific), significant, scientific)
  {
    hide Significant, LeadingZeroCount, NatOf, SplitParts, Numeric;
    var integer, fraction := significant[..1], significant[1..];
    var mantissa := integer + if |significant| > 1 then "." + fraction else "";
    PaddedDigits(0, significant, 0);
    assert integer + fraction == Zeros(0) + significant + Zeros(0);
    assert |significant| > 1 ==> mantissa == integer + "." + fraction;
    ExponentParts(mantissa, ExponentSuffix(scientific), integer, fraction);
  }

  lemma SignedShows(negative: bool, unsigned: string)
    requires unsigned != [] && unsigned[0] != '-'
    ensures Negative(Sign(negative) + unsigned) == negative && WithoutSign(Sign(negative) + unsigned) == unsigned
  {
    if negative {
      assert ("-" + unsigned)[1..] == unsigned;
    } else {
      assert "" + unsigned == unsigned;
    }
  }

  /** Reading a layout gives back what was laid out. */
  lemma LayoutReadsBack(d: Decimal)
    requires NormalDecimal(d) && (d.Decimal? ==> FitsI32(d.scientific) && FitsI32(d.scientific + 1))
    ensures FloatText(Layout(d)) && Decompose(Layout(d)) == d
  {
    match d
    case Zero(negative) =>
      SignedShows(negative, "0.0");
      ZeroReads();
    case Decimal(negative, significant, scientific) =>
      var u := if InExponentForm(d) then WithExponent(significant, scientific) else WithPoint(significant, scientific);
      hide WithPoint, WithExponent, Significant;
      if InExponentForm(d) { ExponentShows(significant, scientific); } else { PointShows(significant, scientific); }
      SignedShows(negative, u);
      ZeroTextIsInsignificant(u);
  }

  lemma ZeroReads()
    ensures Numeric("0.0") && SplitParts("0.0") == Parts("0", "0", 0) && ExponentFits(Parts("0", "0", 0))
  {
    assert "0.0" == "0" + "." + "0";
    PointParts("0", "0");
    assert Combined(Parts("0", "0", 0)) == "00";
    assert LeadingZeroCount("00") <= 2;
  }

  // ---------------------------------------------------------------- the promises

  lemma FitsAfterwards(shortest: string)
    requires FloatText(shortest)
    ensures NormalDecimal(Decompose(shortest))
    ensures Decompose(shortest).Decimal? ==> FitsI32(Decompose(shortest).scientific) && FitsI32(Decompose(shortest).scientific + 1)
  {
    DecomposeKeepsValue(shortest);
  }

  /** The exact value and the sign survive. */
  lemma PythonFloatKeepsValue(shortest: string)
    requires FloatText(shortest)
    ensures FloatText(PythonFloat(shortest))
    ensures ExactValue(PythonFloat(shortest)) == ExactValue(shortest)
    ensures Negative(PythonFloat(shortest)) == Negative(shortest)
  {
    hide ExponentFits, Significant, IsZeroText, SplitParts, Decompose, ExactValue, Layout, Numeric;
    FitsAfterwards(shortest);
    LayoutReadsBack(Decompose(shortest));
    DecomposeKeepsValue(shortest);
    DecomposeKeepsValue(PythonFloat(shortest));
  }

  /** Laying out a layout changes nothing. */
  lemma PythonFloatIsIdempotent(shortest: string)
    requires FloatText(shortest)
    ensures FloatText(PythonFloat(shortest)) && PythonFloat(PythonFloat(shortest)) == PythonFloat(shortest)
  {
    FitsAfterwards(shortest);
    LayoutReadsBack(Decompose(shortest));
  }

  /** Two floats are laid out alike exactly when sign and value agree. */
  lemma PythonFloatIsExact(a: string, b: string)
    requires FloatText(a) && FloatText(b)
    ensures PythonFloat(a) == PythonFloat(b) <==> Negative(a) == Negative(b) && ExactValue(a) == ExactValue(b)
  {
    hide ExponentFits, Significant, IsZeroText, SplitParts, Decompose, ExactValue, Layout, Numeric;
    PythonFloatKeepsValue(a);
    PythonFloatKeepsValue(b);
    DecomposeKeepsValue(a);
    DecomposeKeepsValue(b);
    if Negative(a) == Negative(b) && ExactValue(a) == ExactValue(b) {
      NormalFormIsUnique(Decompose(a), Decompose(b));
    }
  }

  function Absolute(x: real): real { if x < 0.0 then -x else x }

  /** Exponent form is used exactly outside the range from 10^-4 up to, not including, 10^16. */
  lemma ExponentFormIsForExtremes(shortest: string)
    requires FloatText(shortest)
    ensures InExponentForm(Decompose(shortest)) <==>
            ExactValue(shortest) != 0.0 && !(PowerOfTen(-4) <= Absolute(ExactValue(shortest)) < PowerOfTen(16))
    ensures 'e' in PythonFloat(shortest) <==> InExponentForm(Decompose(shortest))
    ensures '.' in PythonFloat(shortest) || 'e' in PythonFloat(shortest)
  {
    hide PowerOfTen, ExponentFits, IsZeroText, SplitParts, Numeric, ExactValue, Significant;
    var d := Decompose(shortest);
    DecomposeKeepsValue(shortest);
    LayoutMarks(d);
    match d
    case Zero(_) =>
    case Decimal(negative, significant, scientific) =>
      MagnitudeBounds(significant, scientific);
      hide Magnitude;
      PowersOrder(scientific, -4);
      PowersOrder(scientific, 16);
      PowersOrder(15, scientific);
      PowersOrder(-5, scientific);
      PowersOrder(scientific + 1, 16);
      PowersOrder(16, scientific + 1);
      PowersOrder(-4, scientific + 1);
      PowersOrder(scientific + 1, -4);
  }

  lemma LayoutMarks(d: Decimal)
    requires NormalDecimal(d)
    ensures 'e' in Layout(d) <==> InExponentForm(d)
    ensures '.' in Layout(d) || 'e' in Layout(d)
  {
    match d
    case Zero(negative) =>
      assert (Sign(negative) + "0.0")[|Sign(negative)| + 1] == '.';
    case Decimal(negative, significant, scientific) =>
      if InExponentForm(d) {
        ExponentMark(significant, scientific);
      } else {
        PointMark(significant, scientific);
      }
  }

  lemma ExponentMark(significant: string, scientific: int)
    requires significant != []
    ensures 'e' in WithExponent(significant, scientific)
  {
  }

  lemma PointMark(significant: string, scientific: int)
    requires AllDigits(significant)
    ensures 'e' !in WithPoint(significant, scientific) && '.' in WithPoint(significant, scientific)
  {
    var position := scientific + 1;
    var integer, fraction :=
      if position <= 0 then "0" else if position >= |significant| then significant + Zeros(position - |significant|) else significant[..position],
      if position <= 0 then Zeros(-position) + significant else if position >= |significant| then "0" else significant[position..];
    assert WithPoint(significant, scientific) == integer + "." + fraction;
    assert (integer + "." + fraction)[|integer|] == '.';
    assert AllDigits(integer) && AllDigits(fraction);
    hide WithPoint, Zeros;
    DigitsHaveNoMark(integer, "e");
    DigitsHaveNoMark(fraction, "e");
    forall j | 0 <= j < |integer + "." + fraction|
      ensures (integer + "." + fraction)[j] != 'e'
    {
      if j < |integer| {
        assert integer[j] !in "e";
        assert "e"[0] == 'e';
      }
      if j > |integer| {
        assert fraction[j - |integer| - 1] !in "e";
        assert "e"[0] == 'e';
      }
    }
  }
}
