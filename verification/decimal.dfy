/** Decimal numerals: the `str(n)` / `int(s)` pair used to build cell
    addresses, a model of Python's `float()` on plain decimal text, and the
    thousands grouping with which a spreadsheet displays amounts. */
module Decimal {
  import opened Wrappers
  import Text

  predicate IsDigit(c: char) {
    '0' <= c <= '9'
  }

  predicate AllDigits(s: string) {
    forall k :: 0 <= k < |s| ==> IsDigit(s[k])
  }

  function DigitValue(c: char): (d: nat)
    requires IsDigit(c)
    ensures d < 10
  {
    c as int - '0' as int
  }

  function DigitChar(d: nat): (c: char)
    requires d < 10
    ensures IsDigit(c) && DigitValue(c) == d
  {
    ('0' as int + d) as char
  }

  /** The number a string of decimal digits denotes (`int(s)` on digits). */
  function DigitsValue(s: string): nat
    requires AllDigits(s)
  {
    if |s| == 0 then 0 else DigitsValue(s[..|s| - 1]) * 10 + DigitValue(s[|s| - 1])
  }

  /** Digits as `str(n)` prints them: at least one, and no leading zero
      unless the numeral is "0" itself. */
  predicate Canonical(s: string) {
    |s| >= 1 && AllDigits(s) && (s[0] == '0' ==> |s| == 1)
  }

  /** Python `str(n)` for a non-negative integer. */
  function NatToString(n: nat): (r: string)
    ensures Canonical(r)
    ensures DigitsValue(r) == n
  {
    if n < 10 then [DigitChar(n)]
    else
      var p := NatToString(n / 10);
      var r := p + [DigitChar(n % 10)];
      assert r[..|r| - 1] == p;
      r
  }

  /** A numeral whose first digit is not zero denotes a positive number. */
  lemma {:induction false} LeadingNonZeroPositive(s: string)
    requires |s| >= 1 && AllDigits(s) && s[0] != '0'
    ensures DigitsValue(s) > 0
    decreases |s|
  {
    if |s| > 1 {
      LeadingNonZeroPositive(s[..|s| - 1]);
    }
  }

  /** `str(int(s)) == s` for every canonical numeral. */
  lemma {:induction false} NatToStringOfCanonical(s: string)
    requires Canonical(s)
    ensures NatToString(DigitsValue(s)) == s
    decreases |s|
  {
    if |s| > 1 {
      var p := s[..|s| - 1];
      LeadingNonZeroPositive(p);
      NatToStringOfCanonical(p);
      var n := DigitsValue(s);
      assert n / 10 == DigitsValue(p) && n % 10 == DigitValue(s[|s| - 1]);
      assert s == p + [s[|s| - 1]];
    }
  }

  /** The value of the digits after a decimal point: `0.d1d2...`. */
  function FractionValue(frac: string): (r: real)
    requires AllDigits(frac)
    ensures 0.0 <= r <= 1.0
  {
    if |frac| == 0 then 0.0 else (DigitValue(frac[0]) as real + FractionValue(frac[1..])) / 10.0
  }

  /** The value of `whole.frac` read as an unsigned decimal. */
  function FixedValue(whole: string, frac: string): real
    requires AllDigits(whole) && AllDigits(frac)
  {
    DigitsValue(whole) as real + FractionValue(frac)
  }

  /** The value of an unsigned decimal: digits with at most one '.', and at
      least one digit on some side of it. */
  function ParseUnsigned(t: string): (r: Option<real>)
    ensures r.Some? ==> r.value >= 0.0
    ensures r.Some? ==> |t| > 0 && forall k :: 0 <= k < |t| ==> IsDigit(t[k]) || t[k] == '.'
  {
    match Text.IndexOf(t, ".")
    case None =>
      if |t| > 0 && AllDigits(t) then Some(DigitsValue(t) as real) else None
    case Some(i) =>
      var whole := t[..i];
      var frac := t[i + 1..];
      assert t == whole + "." + frac by { Text.CutAt(t, ".", i); }
      if AllDigits(whole) && AllDigits(frac) && |whole| + |frac| > 0
      then Some(FixedValue(whole, frac))
      else None
  }

  /** Python `float(s)` on plain decimal text: surrounding whitespace is
      ignored and one leading sign is allowed. */
  function ParseFloat(s: string): (r: Option<real>)
    ensures r.Some? ==> |Text.Strip(s)| > 0
    ensures r.Some? && Text.Strip(s)[0] == '-' ==> r.value <= 0.0
    ensures r.Some? && Text.Strip(s)[0] != '-' ==> r.value >= 0.0
  {
    var t := Text.Strip(s);
    if |t| > 0 && t[0] == '-' then
      match ParseUnsigned(t[1..])
      case Some(v) => Some(-v)
      case None => None
    else if |t| > 0 && t[0] == '+' then ParseUnsigned(t[1..])
    else ParseUnsigned(t)
  }

  /** Text whose first '.' sits between two runs of digits reads as their fixed-point value. */
  lemma ParseUnsignedAt(t: string, i: nat)
    requires Text.IndexOf(t, ".") == Some(i)
    requires AllDigits(t[..i]) && AllDigits(t[i + 1..]) && |t| > 1
    ensures ParseUnsigned(t) == Some(FixedValue(t[..i], t[i + 1..]))
  {
  }

  /** Text that starts with a digit once stripped carries no sign. */
  lemma ParseFloatUnsigned(s: string)
    requires |Text.Strip(s)| > 0 && IsDigit(Text.Strip(s)[0])
    ensures ParseFloat(s) == ParseUnsigned(Text.Strip(s))
  {
  }

  /** Reading back a fixed-point numeral `w.f` gives `w + f / 10^|f|`. */
  lemma ParseFixedPoint(whole: string, frac: string)
    requires |whole| > 0 && AllDigits(whole) && AllDigits(frac)
    ensures ParseUnsigned(whole + "." + frac) == Some(FixedValue(whole, frac))
  {
    var t := whole + "." + frac;
    Text.OccursAtChar(t, '.', |whole|);
    forall j: nat | j < |whole|
      ensures !Text.OccursAt(t, ".", j)
    {
      Text.OccursAtChar(t, '.', j);
      assert t[j] == whole[j];
    }
    Text.IndexOfIs(t, ".", |whole|);
    assert t[..|whole|] == whole && t[|whole| + 1..] == frac;
    ParseUnsignedAt(t, |whole|);
  }

  /** A numeral as a spreadsheet displays it: a ',' between every group of
      three digits, counting from the right. */
  function Group(d: string): (r: string)
    ensures forall x :: x in r ==> x in d || x == ','
    decreases |d|
  {
    if |d| <= 3 then d else Group(d[..|d| - 3]) + "," + d[|d| - 3..]
  }

  /** Dropping the separators from a grouped numeral restores it. */
  lemma {:induction false} UngroupGroup(d: string)
    requires ',' !in d
    ensures Text.Remove(Group(d), ',') == d
    decreases |d|
  {
    if |d| > 3 {
      var p := d[..|d| - 3];
      var q := d[|d| - 3..];
      assert d == p + q;
      assert ',' !in p && ',' !in q;
      UngroupGroup(p);
      Text.RemoveConcat(Group(p) + ",", q, ',');
      Text.RemoveConcat(Group(p), ",", ',');
      assert Text.Remove(",", ',') == "";
      assert Text.Remove(q, ',') == q;
    }
  }
}
