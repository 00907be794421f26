/** Decimal digit strings and the numbers they denote. */
module Digits {
  import opened Order

  predicate IsDigit(c: char) { '0' <= c <= '9' }

  predicate AllDigits(s: string) { forall i | 0 <= i < |s| :: IsDigit(s[i]) }

  function DigitOf(c: char): nat
    requires IsDigit(c)
  {
    c as int - '0' as int
  }

  function NatOf(s: string): nat
    requires AllDigits(s)
  {
    if s == [] then 0 else 10 * NatOf(s[..|s| - 1]) + DigitOf(s[|s| - 1])
  }

  function Power(n: nat): (p: nat)
    ensures p > 0
  {
    if n == 0 then 1 else 10 * Power(n - 1)
  }

  function Zeros(n: nat): (s: string)
    ensures |s| == n && forall i | 0 <= i < n :: s[i] == '0'
  {
    seq(n, i => '0')
  }

  lemma {:induction false} PowerGrows(a: nat, b: nat)
    requires a <= b
    ensures Power(a) <= Power(b)
  {
    if a < b { PowerGrows(a, b - 1); }
  }

  lemma {:induction false} NatConcat(a: string, b: string)
    requires AllDigits(a) && AllDigits(b)
    ensures AllDigits(a + b) && NatOf(a + b) == NatOf(a) * Power(|b|) + NatOf(b)
  {
    if b == [] {
      assert a + b == a;
    } else {
      var front := b[..|b| - 1];
      NatConcat(a, front);
      assert (a + b)[..|a + b| - 1] == a + front;
      assert NatOf(a + b) == 10 * NatOf(a + front) + DigitOf(b[|b| - 1]);
      hide NatOf;
      TenFold(NatOf(a), Power(|front|));
    }
  }

  lemma TenFold(n: nat, p: nat)
    ensures 10 * (n * p) == n * (10 * p)
  {
  }

  lemma {:induction false} NatBelow(s: string)
    requires AllDigits(s)
    ensures NatOf(s) < Power(|s|)
  {
    if s != [] { NatBelow(s[..|s| - 1]); }
  }

  lemma {:induction false} NatAbove(s: string)
    requires AllDigits(s) && s != [] && s[0] != '0'
    ensures Power(|s| - 1) <= NatOf(s)
  {
    if |s| > 1 { NatAbove(s[..|s| - 1]); }
  }

  lemma {:induction false} NatInjective(a: string, b: string)
    requires AllDigits(a) && AllDigits(b) && |a| == |b| && NatOf(a) == NatOf(b)
    ensures a == b
  {
    if a != [] {
      SameDigits(NatOf(a[..|a| - 1]), DigitOf(a[|a| - 1]), NatOf(b[..|b| - 1]), DigitOf(b[|b| - 1]));
      hide NatOf;
      NatInjective(a[..|a| - 1], b[..|b| - 1]);
      assert a == a[..|a| - 1] + [a[|a| - 1]] && b == b[..|b| - 1] + [b[|b| - 1]];
    }
  }

  lemma SameDigits(n: nat, d: nat, m: nat, e: nat)
    requires d < 10 && e < 10 && 10 * n + d == 10 * m + e
    ensures n == m && d == e
  {
  }

  lemma {:induction false} ZerosAreNothing(n: nat)
    ensures AllDigits(Zeros(n)) && NatOf(Zeros(n)) == 0
  {
    if n > 0 {
      ZerosAreNothing(n - 1);
      assert Zeros(n)[..n - 1] == Zeros(n - 1);
    }
  }

  lemma LeadingZeros(n: nat, s: string)
    requires AllDigits(s)
    ensures AllDigits(Zeros(n) + s) && NatOf(Zeros(n) + s) == NatOf(s)
  {
    ZerosAreNothing(n);
    NatConcat(Zeros(n), s);
  }

  lemma TrailingZeros(s: string, n: nat)
    requires AllDigits(s)
    ensures AllDigits(s + Zeros(n)) && NatOf(s + Zeros(n)) == NatOf(s) * Power(n)
  {
    ZerosAreNothing(n);
    NatConcat(s, Zeros(n));
  }

  /** Digit strings of one length are ordered as their numbers. */
  lemma {:induction false} OrderByDigits(a: string, b: string)
    requires AllDigits(a) && AllDigits(b) && |a| == |b|
    ensures StringLess(a, b) <==> NatOf(a) < NatOf(b)
  {
    if a != [] {
      var x, y := a[1..], b[1..];
      OrderByDigits(x, y);
      NatConcat([a[0]], x);
      NatConcat([b[0]], y);
      assert a == [a[0]] + x && b == [b[0]] + y;
      assert NatOf([a[0]]) == DigitOf(a[0]) && NatOf([b[0]]) == DigitOf(b[0]);
      NatBelow(x);
      NatBelow(y);
      FirstDigitDecides(DigitOf(a[0]), DigitOf(b[0]), NatOf(x), NatOf(y), Power(|x|));
    }
  }

  lemma FirstDigitDecides(d: nat, e: nat, x: nat, y: nat, p: nat)
    requires x < p && y < p
    ensures d < e ==> d * p + x < e * p + y
    ensures d > e ==> d * p + x > e * p + y
    ensures d == e ==> d * p == e * p
  {
    if d < e { assert (d + 1) * p <= e * p; }
    if d > e { assert (e + 1) * p <= d * p; }
  }

  /** Without leading zeros more digits mean a larger number. */
  lemma LongerIsLarger(a: string, b: string)
    requires AllDigits(a) && AllDigits(b) && |a| < |b| && b[0] != '0'
    ensures NatOf(a) < NatOf(b)
  {
    NatBelow(a);
    NatAbove(b);
    PowerGrows(|a|, |b| - 1);
  }

  /** How many leading characters are `0`. */
  function LeadingZeroCount(s: string): (n: nat)
    ensures n <= |s| && s[..n] == Zeros(n) && (n < |s| ==> s[n] != '0')
  {
    if s == [] || s[0] != '0' then 0
    else
      var n := 1 + LeadingZeroCount(s[1..]);
      assert s[..n] == [s[0]] + s[1..][..n - 1];
      n
  }

  function TrimStart(s: string): (r: string)
    ensures |r| <= |s| && s == Zeros(|s| - |r|) + r && (r != [] ==> r[0] != '0')
  {
    var n := LeadingZeroCount(s);
    assert s == s[..n] + s[n..];
    s[n..]
  }

  function TrimEnd(s: string): (r: string)
    ensures |r| <= |s| && s == r + Zeros(|s| - |r|) && (r != [] ==> r[|r| - 1] != '0')
  {
    if s == [] || s[|s| - 1] != '0' then
      assert s == s + Zeros(0);
      s
    else
      var front := s[..|s| - 1];
      var r := TrimEnd(front);
      assert s == front + ['0'];
      assert s == r + Zeros(|s| - |r|);
      r
  }
}
