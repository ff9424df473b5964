/** Reading an amount out of a month sheet cell (finance_manager.py lines
    161-178): the displayed text is cut at the first occurrence of the
    configured currency suffix, its thousands separators are removed, and
    the rest is read as a number. */
module Currency {
  import opened Wrappers
  import Text
  import Decimal

  /** `text.split(suffix)[0].replace(',', '')`: the text before the first
      occurrence of `suffix` (all of it when there is none), without commas. */
  function CleanCurrency(text: string, suffix: string): (r: string)
    requires |suffix| > 0
    ensures ',' !in r
    ensures Text.Occurs(text, suffix) ==>
              r == Text.Remove(text[..Text.IndexOf(text, suffix).value], ',')
    ensures !Text.Occurs(text, suffix) ==> r == Text.Remove(text, ',')
  {
    Text.Remove(Text.Split(text, suffix)[0], ',')
  }

  /** `float(...)` of the cleaned text; `None` where Python raises ValueError. */
  function ParseAmount(text: string, suffix: string): (r: Option<real>)
    requires |suffix| > 0
    ensures Text.Occurs(text, suffix) ==>
              r == Decimal.ParseFloat(Text.Remove(text[..Text.IndexOf(text, suffix).value], ','))
    ensures !Text.Occurs(text, suffix) ==> r == Decimal.ParseFloat(Text.Remove(text, ','))
  {
    Decimal.ParseFloat(CleanCurrency(text, suffix))
  }

  function TwoDigits(c: nat): (r: string)
    requires c < 100
    ensures |r| == 2 && Decimal.AllDigits(r) && Decimal.DigitsValue(r) == c
  {
    var r := [Decimal.DigitChar(c / 10), Decimal.DigitChar(c % 10)];
    assert r[..1] == [r[0]] && r[..1][..0] == [];
    assert Decimal.DigitsValue(r[..1]) == c / 10;
    assert Decimal.DigitsValue(r) == (c / 10) * 10 + c % 10;
    r
  }

  /** How a month sheet displays `whole` units and the decimals `frac`:
      grouped digits, a point, the decimals, optional whitespace, then the
      suffix. */
  function Display(whole: nat, frac: string, pad: string, suffix: string): string
    requires Decimal.AllDigits(frac)
  {
    Decimal.Group(Decimal.NatToString(whole)) + "." + frac + pad + suffix
  }

  /** A suffix whose first character cannot continue a displayed numeral. */
  predicate SuffixAfterNumber(suffix: string) {
    |suffix| > 0 && !Decimal.IsDigit(suffix[0]) && suffix[0] != ',' && suffix[0] != '.'
  }

  /** A suffix that cannot begin inside the numeral or its padding either. */
  predicate SuffixStartsClear(suffix: string) {
    SuffixAfterNumber(suffix) && !Text.IsSpace(suffix[0])
  }

  /** A grouped numeral holds only digits and commas. */
  lemma GroupChars(d: string)
    requires Decimal.AllDigits(d)
    ensures forall k :: 0 <= k < |Decimal.Group(d)| ==>
              Decimal.IsDigit(Decimal.Group(d)[k]) || Decimal.Group(d)[k] == ','
  {
    var g := Decimal.Group(d);
    forall k | 0 <= k < |g|
      ensures Decimal.IsDigit(g[k]) || g[k] == ','
    {
      assert g[k] in g;
      if g[k] != ',' {
        var i :| 0 <= i < |d| && d[i] == g[k];
      }
    }
  }

  /** The grouped numeral, the point and the decimals hold no whitespace. */
  lemma GroupedNumeralChars(d: string, frac: string)
    requires Decimal.AllDigits(d) && Decimal.AllDigits(frac)
    ensures forall k :: 0 <= k < |Decimal.Group(d) + "." + frac| ==>
              var c := (Decimal.Group(d) + "." + frac)[k];
              Decimal.IsDigit(c) || c == ',' || c == '.'
  {
    GroupChars(d);
  }

  /** Removing the commas of a displayed numeral and a stretch of padding
      leaves the plain numeral and that padding. */
  lemma CleanNumeral(d: string, frac: string, pad: string)
    requires Decimal.AllDigits(d) && ',' !in d && Decimal.AllDigits(frac) && Text.AllSpace(pad)
    ensures Text.Remove(Decimal.Group(d) + "." + frac + pad, ',') == d + "." + frac + pad
  {
    var g := Decimal.Group(d);
    Text.RemoveConcat(g + "." + frac, pad, ',');
    Text.RemoveConcat(g + ".", frac, ',');
    Text.RemoveConcat(g, ".", ',');
    Decimal.UngroupGroup(d);
    assert Text.Remove(".", ',') == ".";
    assert forall k :: 0 <= k < |pad| ==> pad[k] != ',';
    assert Text.Remove(pad, ',') == pad;
    assert forall k :: 0 <= k < |frac| ==> frac[k] != ',';
    assert Text.Remove(frac, ',') == frac;
  }

  /** In a displayed amount the suffix is first found after the decimals and
      no later than right after the padding; when the suffix does not start
      with whitespace, right after the padding. */
  lemma SuffixFound(num: string, pad: string, suffix: string)
    requires forall k :: 0 <= k < |num| ==> Decimal.IsDigit(num[k]) || num[k] == ',' || num[k] == '.'
    requires Text.AllSpace(pad) && SuffixAfterNumber(suffix)
    ensures Text.IndexOf(num + pad + suffix, suffix).Some?
    ensures |num| <= Text.IndexOf(num + pad + suffix, suffix).value <= |num + pad|
    ensures SuffixStartsClear(suffix) ==>
              Text.IndexOf(num + pad + suffix, suffix).value == |num + pad|
  {
    var head := num + pad;
    var text := head + suffix;
    assert text[|head|..|head| + |suffix|] == suffix;
    assert Text.OccursAt(text, suffix, |head|);
    forall j: nat | j < |num|
      ensures !Text.OccursAt(text, suffix, j)
    {
      assert text[j] == num[j];
      if Text.OccursAt(text, suffix, j) {
        Text.OccursAtStart(text, suffix, j);
        assert false;
      }
    }
    if SuffixStartsClear(suffix) {
      forall j: nat | |num| <= j < |head|
        ensures !Text.OccursAt(text, suffix, j)
      {
        assert text[j] == pad[j - |num|];
        if Text.OccursAt(text, suffix, j) {
          Text.OccursAtStart(text, suffix, j);
          assert false;
        }
      }
    }
  }

  /** Cutting a displayed amount at its suffix and removing the commas leaves
      the plain numeral, the point, the decimals and part of the padding. */
  lemma CleanDisplayedCut(whole: nat, frac: string, pad: string, suffix: string)
    requires Decimal.AllDigits(frac) && Text.AllSpace(pad) && SuffixAfterNumber(suffix)
    ensures exists m :: 0 <= m <= |pad| &&
              CleanCurrency(Display(whole, frac, pad, suffix), suffix)
                == Decimal.NatToString(whole) + "." + frac + pad[..m]
  {
    var d := Decimal.NatToString(whole);
    var num := Decimal.Group(d) + "." + frac;
    var text := num + pad + suffix;
    assert text == Display(whole, frac, pad, suffix);
    GroupedNumeralChars(d, frac);
    SuffixFound(num, pad, suffix);
    var j := Text.IndexOf(text, suffix).value;
    var m := j - |num|;
    assert text[..j] == num + pad[..m];
    assert ',' !in d;
    CleanNumeral(d, frac, pad[..m]);
  }

  /** Cleaning a displayed amount whose suffix does not start with whitespace
      leaves exactly the plain numeral, the point, the decimals and the
      padding. */
  lemma CleanDisplayed(whole: nat, frac: string, pad: string, suffix: string)
    requires Decimal.AllDigits(frac) && Text.AllSpace(pad) && SuffixStartsClear(suffix)
    ensures CleanCurrency(Display(whole, frac, pad, suffix), suffix)
         == Decimal.NatToString(whole) + "." + frac + pad
  {
    var d := Decimal.NatToString(whole);
    var num := Decimal.Group(d) + "." + frac;
    var text := num + pad + suffix;
    assert text == Display(whole, frac, pad, suffix);
    GroupedNumeralChars(d, frac);
    SuffixFound(num, pad, suffix);
    assert text[..|num + pad|] == num + pad;
    assert ',' !in d;
    CleanNumeral(d, frac, pad);
  }

  /** Two decimal digits denote `cents` hundredths. */
  lemma FixedValueOfCents(d: string, two: string, whole: nat, cents: nat)
    requires Decimal.AllDigits(d) && Decimal.DigitsValue(d) == whole
    requires |two| == 2 && Decimal.AllDigits(two) && Decimal.DigitsValue(two) == cents
    ensures Decimal.FixedValue(d, two) == whole as real + cents as real / 100.0
  {
    var a := Decimal.DigitValue(two[0]);
    var b := Decimal.DigitValue(two[1]);
    assert two[1..][1..] == [];
    assert Decimal.FractionValue(two[1..]) == b as real / 10.0;
    assert two[..1] == [two[0]] && two[..1][..0] == [];
    assert Decimal.DigitsValue(two[..1]) == a;
    assert cents == a * 10 + b;
  }

  /** A fixed-point numeral followed by whitespace reads as its value. */
  lemma ParsePaddedFixedPoint(d: string, frac: string, pad: string, s: string, v: real)
    requires |d| > 0 && Decimal.AllDigits(d) && Decimal.AllDigits(frac)
    requires Text.AllSpace(pad) && s == d + "." + frac + pad
    requires v == Decimal.FixedValue(d, frac)
    ensures Decimal.ParseFloat(s) == Some(v)
  {
    var core := d + "." + frac;
    assert core[0] == d[0];
    assert core[|core| - 1] == if |frac| > 0 then frac[|frac| - 1] else '.';
    Text.StripPadded("", core, pad);
    assert "" + core + pad == core + pad;
    Decimal.ParseFloatUnsigned(core + pad);
    Decimal.ParseFixedPoint(d, frac);
  }

  /** Reading back a displayed amount yields the amount `v`: the round trip
      through the month sheet's number format, for any number of decimals and
      any suffix that does not start like part of the numeral. */
  lemma ParseDisplayed(whole: nat, frac: string, pad: string, suffix: string, v: real)
    requires Decimal.AllDigits(frac) && Text.AllSpace(pad) && SuffixAfterNumber(suffix)
    requires v == whole as real + Decimal.FractionValue(frac)
    ensures ParseAmount(Display(whole, frac, pad, suffix), suffix) == Some(v)
  {
    var d := Decimal.NatToString(whole);
    CleanDisplayedCut(whole, frac, pad, suffix);
    var m :| 0 <= m <= |pad| &&
      CleanCurrency(Display(whole, frac, pad, suffix), suffix) == d + "." + frac + pad[..m];
    ParsePaddedFixedPoint(d, frac, pad[..m], d + "." + frac + pad[..m], v);
  }

  /** The currency format with two decimals: `whole` units and `cents`
      hundredths read back as `whole + cents / 100`. */
  lemma ParseDisplayedCents(whole: nat, cents: nat, pad: string, suffix: string, v: real)
    requires cents < 100 && Text.AllSpace(pad) && SuffixAfterNumber(suffix)
    requires v == whole as real + cents as real / 100.0
    ensures ParseAmount(Display(whole, TwoDigits(cents), pad, suffix), suffix) == Some(v)
  {
    var d := Decimal.NatToString(whole);
    var two := TwoDigits(cents);
    FixedValueOfCents(d, two, whole, cents);
    ParseDisplayed(whole, two, pad, suffix, v);
  }

  /** How a month sheet displays a whole amount in a format without
      decimals: grouped digits, optional whitespace, then the suffix. */
  function DisplayWhole(whole: nat, pad: string, suffix: string): string
  {
    Decimal.Group(Decimal.NatToString(whole)) + pad + suffix
  }

  /** Removing the commas of a grouped numeral and a stretch of padding
      leaves the digits and that padding. */
  lemma CleanWholeNumeral(d: string, pad: string)
    requires Decimal.AllDigits(d) && ',' !in d && Text.AllSpace(pad)
    ensures Text.Remove(Decimal.Group(d) + pad, ',') == d + pad
  {
    Text.RemoveConcat(Decimal.Group(d), pad, ',');
    Decimal.UngroupGroup(d);
    assert forall k :: 0 <= k < |pad| ==> pad[k] != ',';
    assert Text.Remove(pad, ',') == pad;
  }

  /** Cleaning a whole-number display leaves the plain digits and a
      whitespace-only part of the padding. */
  lemma CleanDisplayedWholeCut(whole: nat, pad: string, suffix: string)
    requires Text.AllSpace(pad) && SuffixAfterNumber(suffix)
    ensures exists m :: 0 <= m <= |pad| &&
              CleanCurrency(DisplayWhole(whole, pad, suffix), suffix)
                == Decimal.NatToString(whole) + pad[..m]
  {
    var d := Decimal.NatToString(whole);
    var g := Decimal.Group(d);
    var text := g + pad + suffix;
    assert text == DisplayWhole(whole, pad, suffix);
    GroupChars(d);
    SuffixFound(g, pad, suffix);
    var j := Text.IndexOf(text, suffix).value;
    var m := j - |g|;
    assert text[..j] == g + pad[..m];
    assert ',' !in d;
    CleanWholeNumeral(d, pad[..m]);
  }

  /** Digits followed by whitespace read as their integer value. */
  lemma ParsePaddedWhole(d: string, pad: string, s: string, v: real)
    requires |d| > 0 && Decimal.AllDigits(d) && Text.AllSpace(pad) && s == d + pad
    requires v == Decimal.DigitsValue(d) as real
    ensures Decimal.ParseFloat(s) == Some(v)
  {
    Text.StripPadded("", d, pad);
    assert "" + d + pad == d + pad;
    Decimal.ParseFloatUnsigned(d + pad);
    Text.OccursChar(d, '.');
    assert '.' !in d;
  }

  /** Reading back a whole-number display yields the amount. */
  lemma ParseDisplayedWhole(whole: nat, pad: string, suffix: string)
    requires Text.AllSpace(pad) && SuffixAfterNumber(suffix)
    ensures ParseAmount(DisplayWhole(whole, pad, suffix), suffix) == Some(whole as real)
  {
    var d := Decimal.NatToString(whole);
    CleanDisplayedWholeCut(whole, pad, suffix);
    var m :| 0 <= m <= |pad| &&
      CleanCurrency(DisplayWhole(whole, pad, suffix), suffix) == d + pad[..m];
    ParsePaddedWhole(d, pad[..m], d + pad[..m], whole as real);
  }
}
