/** A reader of JSON text, after the grammar of RFC 8259 and apart from the printer.

    Characters are bytes of UTF-8, and there is no white space between tokens.  It is what gives the canonical
    text its meaning: whatever the printer writes is read back here. */
module JsonReader {
  import opened Wrappers
  import opened Order
  import opened Digits
  import opened Integers
  import opened Floats
  import opened FloatLayout
  import opened JsonText
  import opened JsonValues
  import opened JsonPrinter

  // ---------------------------------------------------------------- strings, section 7

  function HexValue(c: char): Option<nat> {
    if '0' <= c <= '9' then Some(c as int - '0' as int)
    else if 'a' <= c <= 'f' then Some(c as int - 'a' as int + 10)
    else if 'A' <= c <= 'F' then Some(c as int - 'A' as int + 10)
    else None
  }

  function Byte(n: nat): char
    requires n < 256
  {
    n as char
  }

  /** The UTF-8 form of a code point. */
  function Utf8(code: nat): string
    requires code < 0x11_0000
  {
    if code < 0x80 then [Byte(code)]
    else if code < 0x800 then [Byte(0xC0 + code / 0x40), Byte(0x80 + code % 0x40)]
    else if code < 0x1_0000 then [Byte(0xE0 + code / 0x1000), Byte(0x80 + code / 0x40 % 0x40), Byte(0x80 + code % 0x40)]
    else [Byte(0xF0 + code / 0x4_0000), Byte(0x80 + code / 0x1000 % 0x40), Byte(0x80 + code / 0x40 % 0x40), Byte(0x80 + code % 0x40)]
  }

  /** Four hexadecimal digits. */
  function ReadHex(s: string): (n: Option<nat>)
    ensures n.Some? ==> |s| >= 4 && n.value < 0x1_0000
  {
    if |s| < 4 then None
    else match (HexValue(s[0]), HexValue(s[1]), HexValue(s[2]), HexValue(s[3]))
      case (Some(a), Some(b), Some(c), Some(d)) =>
        assert a < 16 && b < 16 && c < 16 && d < 16;
        Some(((a * 16 + b) * 16 + c) * 16 + d)
      case _ => None
  }

  /** What follows `\u`: a code point, or two halves of one. */
  function ReadUnicode(s: string): (r: Option<(string, string)>)
    ensures r.Some? ==> |r.value.1| < |s|
  {
    match ReadHex(s)
    case None => None
    case Some(high) =>
      if 0xDC00 <= high < 0xE000 then None
      else if !(0xD800 <= high < 0xDC00) then Some((Utf8(high), s[4..]))
      else if !("\\u" <= s[4..]) then None
      else match ReadHex(s[6..])
        case None => None
        case Some(low) =>
          if !(0xDC00 <= low < 0xE000) then None
          else Some((Utf8(0x1_0000 + (high - 0xD800) * 0x400 + (low - 0xDC00)), s[10..]))
  }

  /** What follows a backslash. */
  function ReadEscape(s: string): (r: Option<(string, string)>)
    ensures r.Some? ==> |r.value.1| < |s|
  {
    if s == [] then None
    else match s[0]
      case '"' => Some(("\"", s[1..]))
      case '\\' => Some(("\\", s[1..]))
      case '/' => Some(("/", s[1..]))
      case 'b' => Some(([Byte(0x08)], s[1..]))
      case 'f' => Some(([Byte(0x0C)], s[1..]))
      case 'n' => Some(([Byte(0x0A)], s[1..]))
      case 'r' => Some(([Byte(0x0D)], s[1..]))
      case 't' => Some(([Byte(0x09)], s[1..]))
      case 'u' => ReadUnicode(s[1..])
      case _ => None
  }

  /** Text up to the closing quotation mark. */
  function ReadText(s: string): (r: Option<(string, string)>)
    ensures r.Some? ==> |r.value.1| < |s|
  {
    if s == [] || s[0] < ' ' then None
    else if s[0] == '"' then Some(("", s[1..]))
    else
      var first := if s[0] == '\\' then ReadEscape(s[1..]) else Some(([s[0]], s[1..]));
      if first.None? then None
      else match ReadText(first.value.1)
        case None => None
        case Some(more) => Some((first.value.0 + more.0, more.1))
  }

  lemma EscapeReads(c: char, rest: string)
    ensures var s := EscapeChar(c) + rest;
            && s[0] != '"' && s[0] >= ' '
            && if s[0] == '\\' then ReadEscape(s[1..]) == Some(([c], rest)) else s == [c] + rest
  {
    var e, s := EscapeChar(c), EscapeChar(c) + rest;
    assert |s| == |e| + |rest| && s[|e|..] == rest && forall i | 0 <= i < |e| :: s[i] == e[i];
    if |e| == 2 {
      assert s[1..][1..] == rest && s[1..][0] == e[1];
    }
    if |e| == 6 {
      var t := s[1..];
      assert t == s[1..] && t[0] == 'u';
      var h := t[1..];
      assert h[0] == '0' && h[1] == '0' && h[2] == HexDigit(c as int / 16) && h[3] == HexDigit(c as int % 16);
      assert h[4..] == rest;
      HexReads(c as int / 16);
      HexReads(c as int % 16);
      assert ReadHex(h) == Some(c as int);
      assert Utf8(c as int) == [c];
    }
  }

  lemma HexReads(n: nat)
    requires n < 16
    ensures HexValue(HexDigit(n)) == Some(n)
  {
  }

  /** Every text, escaped, is read back: each character from its own escape. */
  lemma {:induction false} TextReadsBack(text: string, rest: string)
    ensures ReadText(Escaped(text) + ['"'] + rest) == Some((text, rest))
  {
    hide EscapeChar, ReadEscape;
    var s := Escaped(text) + ['"'] + rest;
    if text == [] {
      EscapedNothing(rest);
      assert s == ['"'] + rest && s[1..] == rest;
    } else {
      var more := Escaped(text[1..]) + ['"'] + rest;
      EscapedSplits(text, rest);
      EscapeReads(text[0], more);
      TextReadsBack(text[1..], rest);
      assert s == EscapeChar(text[0]) + more;
      assert [text[0]] + text[1..] == text;
      if s[0] != '\\' { assert s[1..] == more; }
    }
  }

  /** No character is escaped that need not be, and none at greater length than it must be. */
  lemma EscapesAreShortest(c: char)
    ensures EscapeChar(c) == [c] <==> c >= ' ' && c != '"' && c != '\\'
    ensures |EscapeChar(c)| == 2 <==> c == '"' || c == '\\' || c as int in {0x08, 0x09, 0x0A, 0x0C, 0x0D}
    ensures |EscapeChar(c)| > 2 ==> |EscapeChar(c)| == 6 && forall i | 0 <= i < 6 :: !('A' <= EscapeChar(c)[i] <= 'F')
  {
  }

  // ---------------------------------------------------------------- numbers, section 6

  /** How many digits a text begins with. */
  function DigitRun(s: string): (n: nat)
    ensures n <= |s| && AllDigits(s[..n]) && (n < |s| ==> !IsDigit(s[n]))
  {
    if s == [] || !IsDigit(s[0]) then 0
    else
      var n := 1 + DigitRun(s[1..]);
      assert s[..n] == [s[0]] + s[1..][..n - 1];
      n
  }

  function ReadExponent(s: string): Option<int> {
    var digits := if s != [] && (s[0] == '+' || s[0] == '-') then s[1..] else s;
    if digits == [] || !AllDigits(digits) then None
    else Some(if s[0] == '-' then -(NatOf(digits) as int) else NatOf(digits))
  }

  /** The number with these digits before and behind the point. */
  function Amount(negative: bool, integer: string, fraction: string, exponent: int): real
    requires AllDigits(integer) && AllDigits(fraction)
  {
    var magnitude := NatOf(integer + fraction) as real * PowerOfTen(exponent - |fraction|);
    if negative then -magnitude else magnitude
  }

  /** A number: an integer when there is neither point nor exponent. */
  function ReadNumber(s: string): Option<Meaning> {
    if s != [] && s[0] == '-' then ReadMagnitude(true, s[1..]) else ReadMagnitude(false, s)
  }

  /** No integer part begins with a superfluous zero, and a point has digits on both sides. */
  function ReadMagnitude(negative: bool, u: string): Option<Meaning> {
    var i := DigitRun(u);
    if i == 0 || (i > 1 && u[0] == '0') then None
    else if i == |u| then Some(MInteger(Signed(negative, NatOf(u))))
    else if u[i] != '.' then ReadScale(negative, u[..i], "", u[i..])
    else
      var more := u[i + 1..];
      var n := DigitRun(more);
      if n == 0 then None
      else if n == |more| then Some(MFloat(negative, Amount(negative, u[..i], more, 0)))
      else ReadScale(negative, u[..i], more[..n], more[n..])
  }

  function ReadScale(negative: bool, integer: string, fraction: string, s: string): Option<Meaning>
    requires AllDigits(integer) && AllDigits(fraction) && s != []
  {
    if s[0] != 'e' && s[0] != 'E' then None
    else match ReadExponent(s[1..])
      case None => None
      case Some(e) => Some(MFloat(negative, Amount(negative, integer, fraction, e)))
  }

  lemma {:induction false} DigitRunIs(digits: string, rest: string)
    requires AllDigits(digits) && (rest != [] ==> !IsDigit(rest[0]))
    ensures DigitRun(digits + rest) == |digits|
  {
    if digits == [] {
      assert digits + rest == rest;
    } else {
      assert (digits + rest)[1..] == digits[1..] + rest;
      DigitRunIs(digits[1..], rest);
    }
  }

  /** An integer part: digits without a superfluous zero. */
  ghost predicate WholePart(s: string) { s != [] && AllDigits(s) && (s[0] == '0' ==> s == "0") }

  lemma SignReads(negative: bool, u: string)
    requires u != [] && u[0] != '-'
    ensures ReadNumber(Sign(negative) + u) == ReadMagnitude(negative, u)
  {
    hide ReadMagnitude;
    assert "" + u == u && ("-" + u)[1..] == u;
  }

  lemma DigitsRead(negative: bool, digits: string)
    requires WholePart(digits)
    ensures ReadNumber(Sign(negative) + digits) == Some(MInteger(Signed(negative, NatOf(digits))))
  {
    hide NatOf, ReadNumber;
    SignReads(negative, digits);
    DigitRunIs(digits, "");
    assert digits + "" == digits;
  }

  lemma IntegerReads(source: string)
    requires NumberFine(source, None) && !IsFloat(source)
    ensures ReadNumber(PythonNumber(source, None)) == Some(MInteger(IntegerValue(source)))
  {
    hide PythonNumber, IsFloat, NatOf, ReadNumber, ReadInteger, IntegerValue, IntegerText, NumberFine, OnlyZeros;
    IntegerTexts(source);
    IntegerIsShown(source);
    ReadIntegerMeans(source);
    DigitsRead(ReadInteger(source).value.negative, ReadInteger(source).value.digits);
  }

  lemma PointReads(negative: bool, integer: string, fraction: string)
    requires WholePart(integer) && fraction != [] && AllDigits(fraction)
    ensures ReadNumber(Sign(negative) + (integer + "." + fraction)) ==
            Some(MFloat(negative, Amount(negative, integer, fraction, 0)))
  {
    hide NatOf, PowerOfTen, Amount, ReadNumber;
    var u := integer + "." + fraction;
    SignReads(negative, u);
    assert u == integer + ("." + fraction);
    DigitRunIs(integer, "." + fraction);
    assert u[|integer|] == '.' && u[|integer| + 1..] == fraction && u[..|integer|] == integer;
    assert fraction + "" == fraction;
    DigitRunIs(fraction, "");
  }

  lemma ScaleReads(negative: bool, integer: string, fraction: string, suffix: string)
    requires AllDigits(integer) && AllDigits(fraction) && ExponentText(suffix)
    ensures ReadScale(negative, integer, fraction, "e" + suffix) ==
            Some(MFloat(negative, Amount(negative, integer, fraction, ExponentValue(suffix))))
  {
    hide NatOf, Amount;
    assert ("e" + suffix)[1..] == suffix;
  }

  lemma ExponentReads(negative: bool, integer: string, fraction: string, suffix: string)
    requires WholePart(integer) && AllDigits(fraction) && ExponentText(suffix)
    ensures ReadNumber(Sign(negative) + (integer + (if fraction == "" then "" else "." + fraction) + "e" + suffix)) ==
            Some(MFloat(negative, Amount(negative, integer, fraction, ExponentValue(suffix))))
  {
    hide NatOf, PowerOfTen, Amount, ReadNumber, ReadScale, ExponentText, ExponentValue;
    var tail := "e" + suffix;
    var u := integer + (if fraction == "" then "" else "." + fraction) + "e" + suffix;
    SignReads(negative, u);
    ScaleReads(negative, integer, fraction, suffix);
    hide ReadMagnitude;
    if fraction == "" {
      assert u == integer + tail;
      PlainScale(negative, integer, tail);
    } else {
      assert u == integer + ("." + (fraction + tail));
      PointScale(negative, integer, fraction, tail);
    }
  }

  lemma PlainScale(negative: bool, integer: string, tail: string)
    requires WholePart(integer) && tail != [] && tail[0] == 'e'
    ensures ReadMagnitude(negative, integer + tail) == ReadScale(negative, integer, "", tail)
  {
    hide NatOf, Amount, ReadScale, DigitRun;
    var u := integer + tail;
    DigitRunIs(integer, tail);
    assert u[..|integer|] == integer && u[|integer|..] == tail;
  }

  lemma PointScale(negative: bool, integer: string, fraction: string, tail: string)
    requires WholePart(integer) && fraction != [] && AllDigits(fraction) && tail != [] && tail[0] == 'e'
    ensures ReadMagnitude(negative, integer + ("." + (fraction + tail))) == ReadScale(negative, integer, fraction, tail)
  {
    hide NatOf, Amount, ReadScale, DigitRun;
    var more := fraction + tail;
    var u := integer + ("." + more);
    DigitRunIs(integer, "." + more);
    assert u[|integer|] == '.' && u[|integer| + 1..] == more && u[..|integer|] == integer;
    DigitRunIs(fraction, tail);
    assert more[..|fraction|] == fraction && more[|fraction|..] == tail;
  }

  // ---------------------------------------------------------------- the layout of floats

  /** Digits around a point, with no zero that could be left out. */
  ghost predicate PointForm(text: string, negative: bool, integer: string, fraction: string) {
    && text == Sign(negative) + (integer + "." + fraction)
    && WholePart(integer) && fraction != [] && AllDigits(fraction)
    && (fraction[|fraction| - 1] == '0' ==> fraction == "0")
  }

  /** One digit, further ones behind a point, and a signed exponent of at least two digits. */
  ghost predicate ExponentForm(text: string, negative: bool, integer: string, fraction: string, suffix: string) {
    && text == Sign(negative) + (integer + (if fraction == "" then "" else "." + fraction) + "e" + suffix)
    && |integer| == 1 && AllDigits(integer) && integer[0] != '0'
    && AllDigits(fraction) && (fraction != [] ==> fraction[|fraction| - 1] != '0')
    && |suffix| >= 3 && (suffix[0] == '+' || suffix[0] == '-') && AllDigits(suffix[1..])
    && (|suffix| > 3 ==> suffix[1] != '0')
  }

  /** How a float is written: in one form or the other, whichever its size calls for. */
  ghost predicate LaidOut(text: string, negative: bool, exponential: bool) {
    if exponential then exists integer, fraction, suffix :: ExponentForm(text, negative, integer, fraction, suffix)
    else exists integer, fraction :: PointForm(text, negative, integer, fraction)
  }

  lemma {:induction false} NoLeadingZero(n: nat)
    ensures DecimalText(n)[0] == '0' <==> n == 0
    ensures n == 0 ==> |DecimalText(n)| == 1
  {
    if n >= 10 { NoLeadingZero(n / 10); }
  }

  lemma SuffixForm(e: int)
    ensures var suffix := ExponentSuffix(e);
            |suffix| >= 3 && (suffix[0] == '+' || suffix[0] == '-') && AllDigits(suffix[1..]) &&
            (|suffix| > 3 ==> suffix[1] != '0')
  {
    var digits := TwoDigits(if e < 0 then -e else e);
    NoLeadingZero(if e < 0 then -e else e);
    hide NatOf, DecimalText;
    assert ExponentSuffix(e)[1..] == digits;
  }

  lemma ExponentLaysOut(negative: bool, significant: string, scientific: int)
    requires NormalDecimal(Decimal(negative, significant, scientific))
    ensures var u := WithExponent(significant, scientific);
            LaidOut(Sign(negative) + u, negative, true) && Numeric(WithoutSign(Sign(negative) + u)) &&
            ReadNumber(Sign(negative) + u) == Some(MFloat(negative, ExactValue(Sign(negative) + u)))
  {
    var integer, fraction := significant[..1], significant[1..];
    assert |integer| == 1 && AllDigits(integer) && integer[0] != '0' && AllDigits(fraction);
    assert fraction != [] ==> fraction[|fraction| - 1] == significant[|significant| - 1];
    hide *;
    SuffixForm(scientific);
    var u, suffix := WithExponent(significant, scientific), ExponentSuffix(scientific);
    ExponentShape(significant, scientific);
    ExponentIsFormed(negative, u, integer, fraction, suffix);
    ExponentIsRead(negative, u, integer, fraction, suffix);
  }

  lemma ExponentIsFormed(negative: bool, u: string, integer: string, fraction: string, suffix: string)
    requires u == integer + (if fraction == "" then "" else "." + fraction) + "e" + suffix
    requires |integer| == 1 && AllDigits(integer) && integer[0] != '0'
    requires AllDigits(fraction) && (fraction != [] ==> fraction[|fraction| - 1] != '0')
    requires |suffix| >= 3 && (suffix[0] == '+' || suffix[0] == '-') && AllDigits(suffix[1..])
    requires |suffix| > 3 ==> suffix[1] != '0'
    ensures ExponentForm(Sign(negative) + u, negative, integer, fraction, suffix)
  {
    hide AllDigits, Sign;
  }

  lemma ExponentShape(significant: string, scientific: int)
    requires significant != []
    ensures var fraction := significant[1..];
            WithExponent(significant, scientific) ==
            significant[..1] + (if fraction == "" then "" else "." + fraction) + "e" + ExponentSuffix(scientific)
  {
    hide ExponentSuffix;
  }

  lemma ExponentIsRead(negative: bool, u: string, integer: string, fraction: string, suffix: string)
    requires u == integer + (if fraction == "" then "" else "." + fraction) + "e" + suffix
    requires ExponentForm(Sign(negative) + u, negative, integer, fraction, suffix) && ExponentText(suffix)
    ensures LaidOut(Sign(negative) + u, negative, true) && Numeric(WithoutSign(Sign(negative) + u))
    ensures ReadNumber(Sign(negative) + u) == Some(MFloat(negative, ExactValue(Sign(negative) + u)))
  {
    assert ExponentForm(Sign(negative) + u, negative, integer, fraction, suffix);
    hide NatOf, Numeric, SplitParts, ReadNumber, ExponentText, ExponentValue, ExactValue, Amount, WithoutSign, PowerOfTen;
    ExponentReads(negative, integer, fraction, suffix);
    ExponentAmount(negative, u, integer, fraction, suffix);
  }

  lemma ExponentAmount(negative: bool, u: string, integer: string, fraction: string, suffix: string)
    requires WholePart(integer) && AllDigits(fraction) && ExponentText(suffix)
    requires u == integer + (if fraction == "" then "" else "." + fraction) + "e" + suffix
    ensures Numeric(WithoutSign(Sign(negative) + u))
    ensures ExactValue(Sign(negative) + u) == Amount(negative, integer, fraction, ExponentValue(suffix))
  {
    var mantissa := integer + (if fraction == "" then "" else "." + fraction);
    assert u == mantissa + "e" + suffix && integer <= u;
    hide NatOf, Numeric, SplitParts, ExponentText, ExponentValue, PowerOfTen, Amount, ExactValue, Sign, WithoutSign, WholePart;
    ExponentParts(mantissa, suffix, integer, fraction);
    SignedAmount(negative, u, integer, fraction, ExponentValue(suffix));
  }

  lemma SignedAmount(negative: bool, u: string, integer: string, fraction: string, exponent: int)
    requires WholePart(integer) && AllDigits(fraction) && integer <= u
    requires Numeric(u) && SplitParts(u) == Parts(integer, fraction, exponent)
    ensures Numeric(WithoutSign(Sign(negative) + u))
    ensures ExactValue(Sign(negative) + u) == Amount(negative, integer, fraction, exponent)
  {
    StartsWithDigit(u, integer);
    hide *;
    SignedShows(negative, u);
    AmountIsScaled(negative, integer, fraction, exponent);
    ExactFromParts(Sign(negative) + u, integer, fraction, exponent);
  }

  lemma ExactFromParts(text: string, integer: string, fraction: string, exponent: int)
    requires Numeric(WithoutSign(text)) && SplitParts(WithoutSign(text)) == Parts(integer, fraction, exponent)
    requires AllDigits(integer) && AllDigits(fraction)
    ensures ExactValue(text) == if Negative(text) then -Scaled(NatOf(integer + fraction), exponent - |fraction|)
                                else Scaled(NatOf(integer + fraction), exponent - |fraction|)
  {
    hide NatOf, Scaled, Numeric, SplitParts, WithoutSign, Negative;
  }

  lemma AmountIsScaled(negative: bool, integer: string, fraction: string, exponent: int)
    requires AllDigits(integer) && AllDigits(fraction)
    ensures Amount(negative, integer, fraction, exponent) ==
            if negative then -Scaled(NatOf(integer + fraction), exponent - |fraction|)
            else Scaled(NatOf(integer + fraction), exponent - |fraction|)
  {
    hide NatOf, PowerOfTen;
  }

  lemma StartsWithDigit(u: string, integer: string)
    requires integer != [] && AllDigits(integer) && integer <= u
    ensures u != [] && u[0] != '-'
  {
    assert u[0] == integer[0];
  }

  lemma PointIsRead(negative: bool, u: string, integer: string, fraction: string)
    requires u == integer + "." + fraction && WholePart(integer) && fraction != [] && AllDigits(fraction)
    requires fraction[|fraction| - 1] == '0' ==> fraction == "0"
    ensures LaidOut(Sign(negative) + u, negative, false) && Numeric(WithoutSign(Sign(negative) + u))
    ensures ReadNumber(Sign(negative) + u) == Some(MFloat(negative, ExactValue(Sign(negative) + u)))
  {
    hide NatOf, Numeric, SplitParts, ReadNumber, ExponentForm, PowerOfTen, ExactValue, Amount, WithoutSign;
    PointReads(negative, integer, fraction);
    PointParts(integer, fraction);
    assert integer <= u;
    SignedAmount(negative, u, integer, fraction, 0);
    assert PointForm(Sign(negative) + u, negative, integer, fraction);
  }

  lemma PointLaysOut(negative: bool, significant: string, scientific: int)
    requires NormalDecimal(Decimal(negative, significant, scientific))
    ensures var u := WithPoint(significant, scientific);
            LaidOut(Sign(negative) + u, negative, false) && Numeric(WithoutSign(Sign(negative) + u)) &&
            ReadNumber(Sign(negative) + u) == Some(MFloat(negative, ExactValue(Sign(negative) + u)))
  {
    hide NatOf, Numeric, SplitParts, ReadNumber, ExactValue, LaidOut;
    var u, position := WithPoint(significant, scientific), scientific + 1;
    if position <= 0 {
      PointIsRead(negative, u, "0", Zeros(-position) + significant);
    } else if position >= |significant| {
      PointIsRead(negative, u, significant + Zeros(position - |significant|), "0");
    } else {
      PointIsRead(negative, u, significant[..position], significant[position..]);
    }
  }

  /** A float is written in exponent form exactly outside the range from 10^-4 up to, not including, 10^16; in either
      form no digit could be left out; and what is read back is its sign and its exact value. */
  lemma FloatReads(shortest: string)
    requires FloatText(shortest)
    ensures ReadNumber(PythonFloat(shortest)) == Some(MFloat(Negative(shortest), ExactValue(shortest)))
    ensures LaidOut(PythonFloat(shortest), Negative(shortest),
                    ExactValue(shortest) != 0.0 &&
                    !(PowerOfTen(-4) <= Absolute(ExactValue(shortest)) < PowerOfTen(16)))
  {
    hide ExponentFits, Significant, IsZeroText, SplitParts, Decompose, ExactValue, Numeric, PowerOfTen, ReadNumber, LaidOut,
         WithExponent, WithPoint, Absolute;
    var d := Decompose(shortest);
    DecomposeKeepsValue(shortest);
    PythonFloatKeepsValue(shortest);
    ExponentFormIsForExtremes(shortest);
    match d
    case Zero(negative) => PointIsRead(negative, "0.0", "0", "0");
    case Decimal(negative, significant, scientific) =>
      if InExponentForm(d) {
        ExponentLaysOut(negative, significant, scientific);
      } else {
        PointLaysOut(negative, significant, scientific);
      }
  }

  /** Every number is read back from what is printed of it. */
  lemma NumberReads(source: string, rounded: Option<string>)
    requires NumberFine(source, rounded) && (IsFloat(source) ==> rounded.Some?)
    ensures ReadNumber(PythonNumber(source, rounded)) ==
            Some(if IsFloat(source) then MFloat(Negative(rounded.value), ExactValue(rounded.value))
                 else MInteger(IntegerValue(source)))
  {
    hide ReadNumber, ExactValue, PythonFloat, FloatText, IntegerValue;
    if IsFloat(source) { FloatReads(rounded.value); } else { IntegerReads(source); }
  }

  // ---------------------------------------------------------------- values, sections 3 to 5

  /** How many characters of a number a text begins with. */
  function NumberRun(s: string): (n: nat)
    ensures n <= |s|
  {
    if s == [] || !(IsDigit(s[0]) || s[0] in "+-.eE") then 0 else 1 + NumberRun(s[1..])
  }

  /** One value, and what follows it.  Two members of an object never have the same name. */
  function ReadValue(s: string): (r: Option<(Meaning, string)>)
    ensures r.Some? ==> |r.value.1| < |s|
    decreases |s|, 1
  {
    if s == [] then None
    else if "null" <= s then Some((MNull, s[4..]))
    else if "true" <= s then Some((MBool(true), s[4..]))
    else if "false" <= s then Some((MBool(false), s[5..]))
    else if s[0] == '"' then
      match ReadText(s[1..])
      case None => None
      case Some(text) => Some((MString(text.0), text.1))
    else if "[]" <= s then Some((MArray([]), s[2..]))
    else if s[0] == '[' then
      match ReadItems(s[1..])
      case None => None
      case Some(items) => Some((MArray(items.0), items.1))
    else if "{}" <= s then Some((MObject(map[]), s[2..]))
    else if s[0] == '{' then
      match ReadMembers(s[1..])
      case None => None
      case Some(members) => Some((MObject(members.0), members.1))
    else
      var n := NumberRun(s);
      if n == 0 then None
      else match ReadNumber(s[..n])
        case None => None
        case Some(number) => Some((number, s[n..]))
  }

  /** Values separated by commas, up to the closing bracket. */
  function ReadItems(s: string): (r: Option<(seq<Meaning>, string)>)
    ensures r.Some? ==> |r.value.1| < |s|
    decreases |s|, 2
  {
    match ReadValue(s)
    case None => None
    case Some(item) =>
      if item.1 == [] then None
      else if item.1[0] == ']' then Some(([item.0], item.1[1..]))
      else if item.1[0] != ',' then None
      else match ReadItems(item.1[1..])
        case None => None
        case Some(more) => Some(([item.0] + more.0, more.1))
  }

  /** Names and values, up to the closing brace. */
  function ReadMembers(s: string): (r: Option<(map<string, Meaning>, string)>)
    ensures r.Some? ==> |r.value.1| < |s|
    decreases |s|, 2
  {
    match ReadMember(s)
    case None => None
    case Some((name, value, rest)) =>
      if rest == [] then None
      else if rest[0] == '}' then Some((map[name := value], rest[1..]))
      else if rest[0] != ',' then None
      else match ReadMembers(rest[1..])
        case None => None
        case Some(more) => if name in more.0 then None else Some((more.0[name := value], more.1))
  }

  function ReadMember(s: string): (r: Option<(string, Meaning, string)>)
    ensures r.Some? ==> |r.value.2| < |s|
    decreases |s|, 0
  {
    if s == [] || s[0] != '"' then None
    else match ReadText(s[1..])
      case None => None
      case Some(name) =>
        if name.1 == [] || name.1[0] != ':' then None
        else match ReadValue(name.1[1..])
          case None => None
          case Some(value) => Some((name.0, value.0, value.1))
  }

  // ---------------------------------------------------------------- what is printed is read

  /** The numbers of a canonical form are numbers, and no key occurs twice in an object. */
  ghost predicate Sound(t: Tree) {
    match t
    case TNumber(digits) => NumberText(digits) && ReadNumber(digits).Some?
    case TArray(items) => forall i | 0 <= i < |items| :: Sound(items[i])
    case TObject(members) =>
      && (forall i | 0 <= i < |members| :: Sound(members[i].tree))
      && (forall i, j | 0 <= i < j < |members| :: members[i].key != members[j].key)
    case _ => true
  }

  ghost function TreeMeaning(t: Tree): Meaning
    requires Sound(t)
    decreases t
  {
    match t
    case TNull => MNull
    case TBool(flag) => MBool(flag)
    case TNumber(digits) => ReadNumber(digits).value
    case TString(text) => MString(text)
    case TArray(items) => MArray(ItemMeanings(items))
    case TObject(members) => MObject(MemberMeanings(members))
  }

  ghost predicate SoundItems(items: seq<Tree>) { forall i | 0 <= i < |items| :: Sound(items[i]) }

  ghost predicate SoundMembers(members: seq<Member>) {
    && (forall i | 0 <= i < |members| :: Sound(members[i].tree))
    && (forall i, j | 0 <= i < j < |members| :: members[i].key != members[j].key)
  }

  ghost function ItemMeanings(items: seq<Tree>): seq<Meaning>
    requires SoundItems(items)
    decreases items
  {
    if items == [] then [] else [TreeMeaning(items[0])] + ItemMeanings(items[1..])
  }

  ghost function MemberMeanings(members: seq<Member>): (m: map<string, Meaning>)
    requires SoundMembers(members)
    ensures forall k :: k in m <==> exists i :: 0 <= i < |members| && members[i].key == k
    ensures forall i | 0 <= i < |members| :: m[members[i].key] == TreeMeaning(members[i].tree)
    decreases members
  {
    if members == [] then map[]
    else
      var more := MemberMeanings(members[1..]);
      assert forall i | 0 < i < |members| :: members[i] == members[1..][i - 1];
      more[members[0].key := TreeMeaning(members[0].tree)]
  }

  lemma {:induction false} NumberRunIs(s: string, rest: string)
    requires NumberChars(s) && Stops(rest)
    ensures NumberRun(s + rest) == |s|
  {
    if s == [] {
      assert s + rest == rest;
    } else {
      assert (s + rest)[1..] == s[1..] + rest;
      assert NumberChar(s[0]);
      NumberRunIs(s[1..], rest);
    }
  }

  lemma WordReads(t: Tree, rest: string)
    requires t.TNull? || t.TBool?
    ensures ReadValue(Print(t) + rest) == Some((TreeMeaning(t), rest))
  {
    var s := Print(t) + rest;
    assert s[..|Print(t)|] == Print(t) && s[|Print(t)|..] == rest;
    assert s[0] == Print(t)[0];
  }

  lemma QuotedReads(text: string, rest: string)
    ensures ReadValue(Quoted(text) + rest) == Some((MString(text), rest))
  {
    hide ReadText, Escaped;
    var s := Quoted(text) + rest;
    assert s[0] == '"' && s[1..] == Escaped(text) + ['"'] + rest;
    TextReadsBack(text, rest);
  }

  lemma DigitsReads(digits: string, rest: string)
    requires NumberText(digits) && ReadNumber(digits).Some? && Stops(rest)
    ensures ReadValue(digits + rest) == Some((ReadNumber(digits).value, rest))
  {
    hide ReadNumber;
    var s := digits + rest;
    assert s[0] == digits[0];
    NumberRunIs(digits, rest);
    hide NumberRun;
    assert s[..|digits|] == digits && s[|digits|..] == rest;
  }

  lemma ArrayReads(s: string, rest: string, items: seq<Meaning>)
    requires s != [] && s[0] != ']' && ReadItems(s) == Some((items, rest))
    ensures ReadValue("[" + s) == Some((MArray(items), rest))
  {
    hide ReadItems, ReadMembers, ReadText, ReadNumber, NumberRun;
    var v := "[" + s;
    assert v[0] == '[' && v[1] == s[0] && v[1..] == s;
  }

  lemma ObjectReads(s: string, rest: string, members: map<string, Meaning>)
    requires s != [] && s[0] != '}' && ReadMembers(s) == Some((members, rest))
    ensures ReadValue("{" + s) == Some((MObject(members), rest))
  {
    hide ReadItems, ReadMembers, ReadText, ReadNumber, NumberRun;
    var v := "{" + s;
    assert v[0] == '{' && v[1] == s[0] && v[1..] == s;
  }

  lemma EmptyReads(rest: string)
    ensures ReadValue("[]" + rest) == Some((MArray([]), rest)) && ReadValue("{}" + rest) == Some((MObject(map[]), rest))
  {
    var a, o := "[]" + rest, "{}" + rest;
    assert a[0] == '[' && a[..2] == "[]" && a[2..] == rest;
    assert o[0] == '{' && o[..2] == "{}" && o[2..] == rest;
  }

  lemma LeadOf(t: Tree)
    requires Sound(t)
    ensures Print(t) != [] && Print(t)[0] != ']' && Print(t)[0] != '}'
  {
  }

  /** What is printed of a canonical form is read back, whatever follows it. */
  lemma {:induction false} TreeReads(t: Tree, rest: string)
    requires Sound(t) && Stops(rest)
    ensures ReadValue(Print(t) + rest) == Some((TreeMeaning(t), rest))
    decreases t
  {
    match t
    case TNull => WordReads(t, rest);
    case TBool(flag) => WordReads(t, rest);
    case TNumber(digits) => DigitsReads(digits, rest);
    case TString(text) => QuotedReads(text, rest);
    case TArray(items) =>
      ArrayTreeReads(items, rest);
      PrintedContainers(items, []);
      hide *;
    case TObject(members) =>
      ObjectTreeReads(members, rest);
      PrintedContainers([], members);
      hide *;
  }

  lemma PrintedContainers(items: seq<Tree>, members: seq<Member>)
    requires SoundItems(items) && SoundMembers(members)
    ensures Print(TArray(items)) == "[" + PrintItems(items) + "]"
    ensures Print(TObject(members)) == "{" + PrintMembers(members) + "}"
    ensures Sound(TArray(items)) && TreeMeaning(TArray(items)) == MArray(ItemMeanings(items))
    ensures Sound(TObject(members)) && TreeMeaning(TObject(members)) == MObject(MemberMeanings(members))
  {
  }

  lemma {:induction false} ArrayTreeReads(items: seq<Tree>, rest: string)
    requires SoundItems(items)
    ensures ReadValue("[" + PrintItems(items) + "]" + rest) == Some((MArray(ItemMeanings(items)), rest))
    decreases items, 1
  {
    hide *;
    if items == [] {
      NothingPrinted();
      EmptyReads(rest);
    } else {
      ItemsRead(items, rest);
      ItemsBegin(items, rest);
      ArrayReads(PrintItems(items) + "]" + rest, rest, ItemMeanings(items));
      assert "[" + PrintItems(items) + "]" + rest == "[" + (PrintItems(items) + "]" + rest);
    }
  }

  lemma {:induction false} ObjectTreeReads(members: seq<Member>, rest: string)
    requires SoundMembers(members)
    ensures ReadValue("{" + PrintMembers(members) + "}" + rest) == Some((MObject(MemberMeanings(members)), rest))
    decreases members, 1
  {
    hide *;
    if members == [] {
      NothingPrinted();
      EmptyReads(rest);
    } else {
      MembersRead(members, rest);
      FirstMember(members, rest);
      ObjectReads(PrintMembers(members) + "}" + rest, rest, MemberMeanings(members));
      assert "{" + PrintMembers(members) + "}" + rest == "{" + (PrintMembers(members) + "}" + rest);
    }
  }

  lemma NothingPrinted()
    ensures "[" + PrintItems([]) + "]" == "[]" && "{" + PrintMembers([]) + "}" == "{}"
    ensures SoundItems([]) && ItemMeanings([]) == [] && SoundMembers([]) && MemberMeanings([]) == map[]
  {
  }

  lemma ItemsBegin(items: seq<Tree>, rest: string)
    requires items != [] && SoundItems(items)
    ensures var s := PrintItems(items) + "]" + rest; s != [] && s[0] != ']'
  {
    LeadOf(items[0]);
    ItemsSplit(items, rest);
    hide *;
    assert Print(items[0])[0] == (Print(items[0]) + (PrintMoreItems(items[1..]) + "]" + rest))[0];
  }

  lemma {:induction false} ItemsRead(items: seq<Tree>, rest: string)
    requires items != [] && SoundItems(items)
    ensures ReadItems(PrintItems(items) + "]" + rest) == Some((ItemMeanings(items), rest))
    decreases items, 0
  {
    var s, after := PrintItems(items) + "]" + rest, PrintMoreItems(items[1..]) + "]" + rest;
    RestOfItems(items);
    hide *;
    ItemsSplit(items, rest);
    MoreItemsStop(items[1..], rest);
    TreeReads(items[0], after);
    if items[1..] == [] {
      AfterLast(rest);
      ItemEnds(s, after, TreeMeaning(items[0]));
    } else {
      ItemsRead(items[1..], rest);
      MoreIsAfterComma(items[1..], rest);
      ItemContinues(s, after, TreeMeaning(items[0]), ItemMeanings(items[1..]), rest);
    }
  }

  lemma RestOfItems(items: seq<Tree>)
    requires items != [] && SoundItems(items)
    ensures Sound(items[0]) && SoundItems(items[1..])
    ensures ItemMeanings(items) == [TreeMeaning(items[0])] + ItemMeanings(items[1..])
    ensures items[1..] == [] ==> ItemMeanings(items) == [TreeMeaning(items[0])]
  {
    hide Sound, TreeMeaning;
  }

  lemma ItemEnds(s: string, after: string, item: Meaning)
    requires ReadValue(s) == Some((item, after)) && after != [] && after[0] == ']'
    ensures ReadItems(s) == Some(([item], after[1..]))
  {
    hide ReadValue;
  }

  lemma ItemContinues(s: string, after: string, item: Meaning, more: seq<Meaning>, rest: string)
    requires ReadValue(s) == Some((item, after)) && after != [] && after[0] == ','
    requires ReadItems(after[1..]) == Some((more, rest))
    ensures ReadItems(s) == Some(([item] + more, rest))
  {
    hide ReadValue;
  }

  lemma MoreIsAfterComma(items: seq<Tree>, rest: string)
    requires items != []
    ensures var after := PrintMoreItems(items) + "]" + rest;
            after != [] && after[0] == ',' && after[1..] == PrintItems(items) + "]" + rest
  {
    ItemsSplit(items, rest);
    hide *;
    var body := Print(items[0]) + (PrintMoreItems(items[1..]) + "]" + rest);
    assert ("," + body)[0] == ',' && ("," + body)[1..] == body;
  }

  lemma {:induction false} MembersRead(members: seq<Member>, rest: string)
    requires members != [] && SoundMembers(members)
    ensures ReadMembers(PrintMembers(members) + "}" + rest) == Some((MemberMeanings(members), rest))
    decreases members, 0
  {
    var s, after, m := PrintMembers(members) + "}" + rest, PrintMoreMembers(members[1..]) + "}" + rest, members[0];
    RestIsSound(members);
    hide *;
    MembersSplit(members, rest);
    MoreMembersStop(members[1..], rest);
    TreeReads(m.tree, after);
    MemberReads(m, after);
    if members[1..] == [] {
      AfterLast(rest);
      MemberMeaningsOfOne(members);
      MemberEnds(s, after, m.key, TreeMeaning(m.tree));
    } else {
      MembersRead(members[1..], rest);
      MoreIsAfterCommaToo(members[1..], rest);
      MemberMeaningsMore(members);
      MemberContinues(s, after, m.key, TreeMeaning(m.tree), MemberMeanings(members[1..]), rest);
    }
  }

  lemma AfterLast(rest: string)
    ensures PrintMoreMembers([]) + "}" + rest == "}" + rest && ("}" + rest)[0] == '}' && ("}" + rest)[1..] == rest
    ensures PrintMoreItems([]) + "]" + rest == "]" + rest && ("]" + rest)[0] == ']' && ("]" + rest)[1..] == rest
  {
    assert "" + "}" + rest == "}" + rest && "" + "]" + rest == "]" + rest;
  }

  lemma RestIsSound(members: seq<Member>)
    requires members != [] && SoundMembers(members)
    ensures Sound(members[0].tree) && SoundMembers(members[1..])
  {
    hide Sound;
  }

  lemma MemberMeaningsOfOne(members: seq<Member>)
    requires SoundMembers(members) && members != [] && members[1..] == []
    ensures MemberMeanings(members) == map[members[0].key := TreeMeaning(members[0].tree)]
  {
    hide Sound, TreeMeaning;
    assert MemberMeanings(members[1..]) == map[];
  }

  lemma MemberMeaningsMore(members: seq<Member>)
    requires SoundMembers(members) && members != [] && SoundMembers(members[1..])
    ensures MemberMeanings(members) == MemberMeanings(members[1..])[members[0].key := TreeMeaning(members[0].tree)]
    ensures members[0].key !in MemberMeanings(members[1..])
  {
    hide Sound, TreeMeaning;
    var more := members[1..];
    forall i | 0 <= i < |more|
      ensures more[i].key != members[0].key
    {
      assert more[i] == members[i + 1];
    }
  }

  lemma MemberReads(m: Member, after: string)
    requires Sound(m.tree) && ReadValue(Print(m.tree) + after) == Some((TreeMeaning(m.tree), after))
    ensures ReadMember(PrintMember(m) + after) == Some((m.key, TreeMeaning(m.tree), after))
  {
    var value := Print(m.tree) + after;
    MemberSplits(m, after);
    QuotedSplits(m.key, ":" + value);
    hide ReadValue, Print, PrintMember, Sound, TreeMeaning, Escaped, Quoted, ReadText;
    TextReadsBack(m.key, ":" + value);
    assert (":" + value)[1..] == value;
  }

  lemma QuotedSplits(key: string, rest: string)
    ensures var s := Quoted(key) + rest; s[0] == '"' && s[1..] == Escaped(key) + ['"'] + rest
  {
    hide Escaped;
  }

  lemma MemberEnds(s: string, after: string, key: string, value: Meaning)
    requires ReadMember(s) == Some((key, value, after)) && after != [] && after[0] == '}'
    ensures ReadMembers(s) == Some((map[key := value], after[1..]))
  {
    hide ReadMember;
  }

  lemma MemberContinues(s: string, after: string, key: string, value: Meaning, more: map<string, Meaning>, rest: string)
    requires ReadMember(s) == Some((key, value, after)) && after != [] && after[0] == ','
    requires ReadMembers(after[1..]) == Some((more, rest)) && key !in more
    ensures ReadMembers(s) == Some((more[key := value], rest))
  {
    hide ReadMember;
  }

  lemma MoreIsAfterCommaToo(members: seq<Member>, rest: string)
    requires members != []
    ensures var after := PrintMoreMembers(members) + "}" + rest;
            after != [] && after[0] == ',' && after[1..] == PrintMembers(members) + "}" + rest
  {
    MembersSplit(members, rest);
    hide *;
    var body := PrintMember(members[0]) + (PrintMoreMembers(members[1..]) + "}" + rest);
    assert ("," + body)[0] == ',' && ("," + body)[1..] == body;
  }

  // ---------------------------------------------------------------- canonical text

  /** In every object the keys stand in ascending order. */
  ghost predicate Ascending(t: Tree) {
    match t
    case TArray(items) => forall i | 0 <= i < |items| :: Ascending(items[i])
    case TObject(members) =>
      && (forall i | 0 <= i < |members| :: Ascending(members[i].tree))
      && (forall i, j | 0 <= i < j < |members| :: StringLess(members[i].key, members[j].key))
    case _ => true
  }

  lemma SortedMembers(c: seq<Member>)
    requires forall i, j | 0 <= i < j < |c| :: c[i].key != c[j].key
    ensures var s := Sort(MemberLess, c);
            && (forall m :: m in s <==> m in c)
            && (forall i, j | 0 <= i < j < |s| :: s[i].key != s[j].key && StringLess(s[i].key, s[j].key))
  {
    var s := Sort(MemberLess, c);
    MembersAreOrdered();
    SortMembers(MemberLess, c);
    SortSorted(MemberLess, c);
    UniqueByMultiset(c, s);
    StringsAreOrdered();
    hide Sort, StringLess;
    forall i, j | 0 <= i < j < |s|
      ensures s[i].key != s[j].key && StringLess(s[i].key, s[j].key)
    {
      assert s[i] in c && s[j] in c && s[i] != s[j];
      assert !MemberLess(s[j], s[i]);
    }
  }

  /** The canonical form of a value is sound, its keys ascend, and it means what the value means. */
  lemma {:induction false} CanonReads(v: Value)
    requires WellFormed(v) && Finite(v)
    ensures Sound(Canon(v)) && Ascending(Canon(v)) && TreeMeaning(Canon(v)) == MeaningOf(v)
    decreases v
  {
    hide ReadNumber, PythonNumber, IntegerValue, ExactValue, NumberText, NumberFine, Sort, StringLess;
    match v
    case Number(source, rounded) =>
      NumberReads(source, rounded);
      NumberIsNumberText(source, rounded);
    case Array(items) =>
      forall i | 0 <= i < |items| { CanonReads(items[i]); }
      ItemsMeanThat(CanonItems(items), MeaningOfItems(items));
    case Object(entries) =>
      forall i | 0 <= i < |entries| { CanonReads(entries[i].value); }
      ObjectMeans(entries);
    case _ =>
  }

  lemma {:induction false} ItemsMeanThat(items: seq<Tree>, meanings: seq<Meaning>)
    requires SoundItems(items) && |items| == |meanings|
    requires forall i | 0 <= i < |items| :: TreeMeaning(items[i]) == meanings[i]
    ensures ItemMeanings(items) == meanings
  {
    if items != [] { ItemsMeanThat(items[1..], meanings[1..]); }
  }

  /** The canonical form is sound, its keys ascend, and it means what the value means. */
  ghost predicate CanonMeans(v: Value) {
    && WellFormed(v) && Finite(v)
    && Sound(Canon(v)) && Ascending(Canon(v)) && TreeMeaning(Canon(v)) == MeaningOf(v)
  }

  lemma ObjectMeans(entries: seq<Entry>)
    requires WellFormed(Object(entries)) && Finite(Object(entries))
    requires forall i | 0 <= i < |entries| :: CanonMeans(entries[i].value)
    ensures var t := Canon(Object(entries)); Sound(t) && Ascending(t) && TreeMeaning(t) == MeaningOf(Object(entries))
  {
    var c := CanonEntries(entries);
    ListsEntries(entries);
    SortedMembers(c);
    var s := Sort(MemberLess, c);
    SortedParts(entries, c, s);
    hide *;
    SortedMeans(entries, c, s, MeaningOf(Object(entries)).members);
    SoundObject(s);
  }

  lemma SortedParts(entries: seq<Entry>, c: seq<Member>, s: seq<Member>)
    requires WellFormed(Object(entries)) && Finite(Object(entries)) && c == CanonEntries(entries)
    requires forall i | 0 <= i < |entries| :: CanonMeans(entries[i].value)
    requires forall m :: m in s <==> m in c
    requires forall i, j | 0 <= i < j < |s| :: s[i].key != s[j].key
    ensures SoundMembers(s) && forall i | 0 <= i < |s| :: Ascending(s[i].tree)
  {
    hide Canon, Sound, Ascending;
    forall i | 0 <= i < |s|
      ensures Sound(s[i].tree) && Ascending(s[i].tree)
    {
      var j := Listed(c, s, i);
    }
  }

  lemma SoundObject(s: seq<Member>)
    requires SoundMembers(s) && forall i | 0 <= i < |s| :: Ascending(s[i].tree)
    requires forall i, j | 0 <= i < j < |s| :: StringLess(s[i].key, s[j].key)
    ensures Sound(TObject(s)) && Ascending(TObject(s)) && TreeMeaning(TObject(s)) == MObject(MemberMeanings(s))
  {
    hide StringLess;
  }

  ghost function Listed(c: seq<Member>, s: seq<Member>, i: nat): (j: nat)
    requires i < |s| && forall m :: m in s <==> m in c
    ensures j < |c| && c[j] == s[i]
  {
    assert s[i] in c;
    var j: nat :| j < |c| && c[j] == s[i];
    j
  }

  lemma SortedMeans(entries: seq<Entry>, c: seq<Member>, s: seq<Member>, m: map<string, Meaning>)
    requires WellFormed(Object(entries)) && Finite(Object(entries)) && Lists(entries, c, m) && SoundMembers(s)
    requires forall x :: x in s <==> x in c
    requires forall i | 0 <= i < |entries| :: CanonMeans(entries[i].value)
    ensures MemberMeanings(s) == m
  {
    hide Canon, MeaningOf, TreeMeaning, MemberMeanings, Sound;
    forall i | 0 <= i < |s|
      ensures s[i].key in m && m[s[i].key] == TreeMeaning(s[i].tree)
    {
      var j := Listed(c, s, i);
    }
    forall k | k in m
      ensures k in MemberMeanings(s)
    {
      var j :| 0 <= j < |entries| && entries[j].key == k;
      assert c[j] in s;
      var i :| 0 <= i < |s| && s[i] == c[j];
    }
    forall k | k in MemberMeanings(s)
      ensures k in m && MemberMeanings(s)[k] == m[k]
    {
      var i :| 0 <= i < |s| && s[i].key == k;
    }
    assert MemberMeanings(s).Keys == m.Keys;
  }

  /** A reader of JSON reads the canonical text of a value back to what the value means, whatever follows. */
  lemma CanonicalTextReadsBack(v: Value, rest: string)
    requires WellFormed(v) && Finite(v)
    ensures ReadValue(CanonicalText(v) + rest) == Some((MeaningOf(v), "\n" + rest))
    ensures Ascending(Canon(v))
  {
    CanonReads(v);
    NewlineEnds(v, rest);
    hide *;
    TreeReads(Canon(v), "\n" + rest);
  }
}
