/** Numeric built-ins of the dashboard's pipelines: Math.round to two decimals, sums,
    Math.min / Math.max of a list, and parseFloat. */
module Numeric {
  import opened Common

  // ---------------------------------------------------------------------------
  // Numbers

  /** Math.round(x * 100) / 100 on exact reals: Math.round rounds halves upward. */
  function Round2(x: real): real {
    (x * 100.0 + 0.5).Floor as real / 100.0
  }

  lemma Round2Monotone(x: real, y: real)
    requires x <= y
    ensures Round2(x) <= Round2(y)
  {
    assert (x * 100.0 + 0.5).Floor <= (y * 100.0 + 0.5).Floor;
  }

  /** The rounded value lies within half a hundredth of the value. */
  lemma Round2Close(x: real)
    ensures x - 0.005 < Round2(x) <= x + 0.005
  {
    var k := (x * 100.0 + 0.5).Floor;
    assert k as real <= x * 100.0 + 0.5 < k as real + 1.0;
  }

  /** A rounded value is a whole number of hundredths. */
  lemma Round2Hundredths(x: real)
    ensures Round2(x) * 100.0 == (Round2(x) * 100.0).Floor as real
  {
    var k := (x * 100.0 + 0.5).Floor;
    assert Round2(x) * 100.0 == k as real;
  }

  /** Rounding an already rounded value changes nothing. */
  lemma Round2Idempotent(x: real)
    ensures Round2(Round2(x)) == Round2(x)
  {
    var k := (x * 100.0 + 0.5).Floor;
    assert Round2(x) * 100.0 + 0.5 == k as real + 0.5;
    assert (k as real + 0.5).Floor == k;
  }

  function Sum(s: seq<real>): real {
    if s == [] then 0.0 else Sum(s[..|s| - 1]) + s[|s| - 1]
  }

  function Max(s: seq<real>): (m: real)
    requires s != []
    ensures m in s
    ensures forall k :: 0 <= k < |s| ==> s[k] <= m
  {
    if |s| == 1 then s[0]
    else
      var m := Max(s[1..]);
      if s[0] > m then s[0] else m
  }

  function Min(s: seq<real>): (m: real)
    requires s != []
    ensures m in s
    ensures forall k :: 0 <= k < |s| ==> m <= s[k]
  {
    if |s| == 1 then s[0]
    else
      var m := Min(s[1..]);
      if s[0] < m then s[0] else m
  }

  /** Math.min(...s) on a non-empty list of integers. */
  function IntMin(s: seq<int>): (m: int)
    requires s != []
    ensures m in s && forall k :: 0 <= k < |s| ==> m <= s[k]
  {
    if |s| == 1 then s[0]
    else
      var m := IntMin(s[1..]);
      if s[0] < m then s[0] else m
  }

  /** Math.max(...s) on a non-empty list of integers. */
  function IntMax(s: seq<int>): (m: int)
    requires s != []
    ensures m in s && forall k :: 0 <= k < |s| ==> s[k] <= m
  {
    if |s| == 1 then s[0]
    else
      var m := IntMax(s[1..]);
      if s[0] > m then s[0] else m
  }

  lemma {:induction false} IntMaxAppend(s: seq<int>, x: int)
    requires s != []
    ensures IntMax(s + [x]) == if x > IntMax(s) then x else IntMax(s)
  {
    if |s| > 1 {
      assert (s + [x])[1..] == s[1..] + [x];
      IntMaxAppend(s[1..], x);
    }
  }

  lemma {:induction false} MinAppend(s: seq<real>, x: real)
    requires s != []
    ensures Min(s + [x]) == if x < Min(s) then x else Min(s)
  {
    if |s| > 1 {
      assert (s + [x])[1..] == s[1..] + [x];
      MinAppend(s[1..], x);
    }
  }

  lemma {:induction false} MaxAppend(s: seq<real>, x: real)
    requires s != []
    ensures Max(s + [x]) == if x > Max(s) then x else Max(s)
  {
    if |s| > 1 {
      assert (s + [x])[1..] == s[1..] + [x];
      MaxAppend(s[1..], x);
    }
  }

  /** A sum of |s| values, each between lo and hi, lies between |s|*lo and |s|*hi. */
  lemma {:induction false} SumBounds(s: seq<real>, lo: real, hi: real)
    requires forall k :: 0 <= k < |s| ==> lo <= s[k] <= hi
    ensures |s| as real * lo <= Sum(s) <= |s| as real * hi
  {
    if s != [] {
      var n := |s| as real;
      SumBounds(s[..|s| - 1], lo, hi);
      assert n * lo == (n - 1.0) * lo + lo;
      assert n * hi == (n - 1.0) * hi + hi;
    }
  }

  lemma DivideAtLeast(lo: real, total: real, n: real)
    requires n > 0.0 && n * lo <= total
    ensures lo <= total / n
  {
    assert (total / n) * n == total;
  }

  lemma DivideAtMost(total: real, hi: real, n: real)
    requires n > 0.0 && total <= n * hi
    ensures total / n <= hi
  {
    assert (total / n) * n == total;
  }

  /** The mean of a non-empty sequence. */
  function Mean(s: seq<real>): real
    requires s != []
  {
    Sum(s) / (|s| as real)
  }

  lemma {:induction false} MeanAtLeastMin(s: seq<real>)
    requires s != []
    ensures Min(s) <= Mean(s)
  {
    SumBounds(s, Min(s), Max(s));
    DivideAtLeast(Min(s), Sum(s), |s| as real);
  }

  lemma {:induction false} MeanAtMostMax(s: seq<real>)
    requires s != []
    ensures Mean(s) <= Max(s)
  {
    SumBounds(s, Min(s), Max(s));
    DivideAtMost(Sum(s), Max(s), |s| as real);
  }

  /** The mean of a non-empty sequence lies between its minimum and its maximum. */
  lemma MeanBetweenMinAndMax(s: seq<real>)
    requires s != []
    ensures Min(s) <= Mean(s) <= Max(s)
  {
    MeanAtLeastMin(s);
    MeanAtMostMax(s);
  }

  // ---------------------------------------------------------------------------
  // parseFloat (without exponents and "Infinity"), used on comma-stripped budgets

  predicate IsDigit(c: char) { '0' <= c <= '9' }

  function DigitValue(c: char): nat
    requires IsDigit(c)
  {
    c as int - '0' as int
  }

  predicate AllDigits(s: string) {
    forall k :: 0 <= k < |s| ==> IsDigit(s[k])
  }

  /** The value of a string of decimal digits, most significant first. */
  function DigitsValue(d: string): nat
    requires AllDigits(d)
  {
    if d == [] then 0 else 10 * DigitsValue(d[..|d| - 1]) + DigitValue(d[|d| - 1])
  }

  /** The value of the digits after a decimal point. */
  function FractionValue(d: string): (v: real)
    requires AllDigits(d)
    ensures 0.0 <= v <= 1.0
  {
    if d == [] then 0.0 else (DigitValue(d[0]) as real + FractionValue(d[1..])) / 10.0
  }

  /** The length of the longest prefix of `s` made of digits. */
  function LeadingDigits(s: string): (n: nat)
    ensures n <= |s| && AllDigits(s[..n])
    ensures n == |s| || !IsDigit(s[n])
  {
    if s != [] && IsDigit(s[0]) then
      var n := 1 + LeadingDigits(s[1..]);
      assert forall k :: 1 <= k < n ==> s[..n][k] == s[1..][..n - 1][k - 1];
      n
    else 0
  }

  /** The number read from an unsigned decimal literal at the start of `u`, if any. */
  function ParseUnsigned(u: string): Option<real> {
    var n := LeadingDigits(u);
    var rest := u[n..];
    var hasPoint := rest != [] && rest[0] == '.';
    var m := if hasPoint then LeadingDigits(rest[1..]) else 0;
    if n == 0 && m == 0 then None
    else
      var frac := if hasPoint then rest[1..][..m] else "";
      Some(DigitsValue(u[..n]) as real + FractionValue(frac))
  }

  /** parseFloat: leading white space skipped, an optional sign, then the longest decimal
      literal; None stands for NaN. */
  function ParseFloat(s: string): (r: Option<real>)
  {
    var t := TrimStart(s);
    if t != [] && t[0] == '-' then
      match ParseUnsigned(t[1..])
      case Some(v) => Some(-v)
      case None => None
    else if t != [] && t[0] == '+' then ParseUnsigned(t[1..])
    else ParseUnsigned(t)
  }

  lemma ParseFloatEmpty()
    ensures ParseFloat("") == None
  {
  }

  lemma DigitNotWhiteSpace(c: char)
    requires IsDigit(c)
    ensures !IsWhiteSpace(c) && c != '-' && c != '+' && c != '.'
  {
  }

  lemma {:induction false} LeadingDigitsOfLiteral(d: string, rest: string)
    requires AllDigits(d)
    requires rest == [] || !IsDigit(rest[0])
    ensures LeadingDigits(d + rest) == |d|
  {
    if d == [] {
      assert d + rest == rest;
    } else {
      assert (d + rest)[1..] == d[1..] + rest;
      LeadingDigitsOfLiteral(d[1..], rest);
    }
  }

  lemma ParseUnsignedOfLiteral(d: string, rest: string)
    requires d != [] && AllDigits(d)
    requires rest == [] || (!IsDigit(rest[0]) && rest[0] != '.')
    ensures ParseUnsigned(d + rest) == Some(DigitsValue(d) as real)
  {
    var s := d + rest;
    LeadingDigitsOfLiteral(d, rest);
    assert s[..|d|] == d;
    assert s[|d|..] == rest;
  }

  /** Parsing stops at the first character that cannot continue the literal. */
  lemma ParseFloatStopsAtNonDigit(d: string, rest: string)
    requires d != [] && AllDigits(d)
    requires rest == [] || (!IsDigit(rest[0]) && rest[0] != '.')
    ensures ParseFloat(d + rest) == Some(DigitsValue(d) as real)
  {
    var s := d + rest;
    assert s[0] == d[0];
    DigitNotWhiteSpace(s[0]);
    assert TrimStart(s) == s;
    ParseUnsignedOfLiteral(d, rest);
  }

  /** A string of digits parses to its positional value. */
  lemma ParseFloatDigits(d: string)
    requires d != [] && AllDigits(d)
    ensures ParseFloat(d) == Some(DigitsValue(d) as real)
  {
    ParseFloatStopsAtNonDigit(d, "");
    assert d + "" == d;
  }

  predicate NotComma(c: char) { c != ',' }

  /** `String(x).replace(/,/g, '')`. */
  function StripCommas(s: string): (r: string)
    ensures ',' !in r && IsSubsequence(r, s)
    ensures forall c :: c != ',' ==> multiset(r)[c] == multiset(s)[c]
  {
    FilterMembers(s, NotComma);
    FilterCounts(s, NotComma);
    FilterSubsequence(s, NotComma);
    Filter(s, NotComma)
  }

}
