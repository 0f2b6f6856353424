/** Short numeric renderings of boltons/strutils.py: `a10n` (numeronym abbreviation)
    and `ordinalize` (English ordinal suffixes). */
module ShortForms {
  import opened Text

  /** `a10n`: first letter, count of the letters in between, last letter. */
  function A10n(s: string): string {
    if |s| < 3 then s else [s[0]] + Decimal(|s| - 2) + [s[|s| - 1]]
  }

  /** The abbreviation keeps the end letters and the length can be read back from it;
      short strings are left alone. */
  lemma A10nReadsBack(s: string)
    ensures |s| < 3 ==> A10n(s) == s
    ensures |s| >= 3 ==>
      var r := A10n(s);
      && |r| >= 3 && r[0] == s[0] && r[|r| - 1] == s[|s| - 1]
      && AllDigits(r[1..|r| - 1]) && ParseDecimal(r[1..|r| - 1]) + 2 == |s|
  {
    if |s| >= 3 {
      DecimalRoundTrip(|s| - 2);
      DecimalShape(|s| - 2);
      var r := A10n(s);
      assert r[1..|r| - 1] == Decimal(|s| - 2);
    }
  }

  lemma A10nExamples()
    ensures A10n("internationalization") == "i18n"
    ensures A10n("abbreviation") == "a10n"
    ensures A10n("") == ""
  {
    DecimalTwoDigits(18);
    DecimalTwoDigits(10);
    A10nTwoDigits("internationalization");
    A10nTwoDigits("abbreviation");
  }

  lemma DecimalTwoDigits(n: nat)
    requires 10 <= n < 100
    ensures Decimal(n) == [Digit(n / 10), Digit(n % 10)]
  {
  }

  lemma A10nTwoDigits(s: string)
    requires 12 <= |s| < 102
    ensures A10n(s) == [s[0], Digit((|s| - 2) / 10), Digit((|s| - 2) % 10), s[|s| - 1]]
  {
    DecimalTwoDigits(|s| - 2);
  }

  /** `_ORDINAL_MAP.get(c, 'th')` for a digit. */
  function DigitSuffix(c: char): string {
    if c == '1' then "st" else if c == '2' then "nd" else if c == '3' then "rd" else "th"
  }

  /** `str(n)` for any integer. */
  function IntStr(n: int): string {
    if n < 0 then "-" + Decimal(-n) else Decimal(n)
  }

  /** The suffix `ordinalize` picks for `str(number)`, as written: from the last
      character alone. */
  function OrdinalSuffix(numstr: string): string {
    if |numstr| == 0 then ""
    else if IsDigitChar(numstr[|numstr| - 1]) then DigitSuffix(numstr[|numstr| - 1])
    else ""
  }

  /** `ordinalize(number, ext_only)`, given `str(number)`. */
  function Ordinalize(numstr: string, extOnly: bool): (r: string)
    ensures |numstr| == 0 ==> r == ""
    ensures extOnly ==> r == OrdinalSuffix(numstr)
    ensures !extOnly ==> |r| >= |numstr| && r[..|numstr|] == numstr && r[|numstr|..] == OrdinalSuffix(numstr)
  {
    if |numstr| == 0 then ""
    else if extOnly then OrdinalSuffix(numstr)
    else numstr + OrdinalSuffix(numstr)
  }

  /** Text whose last character is not a digit gets no suffix: it comes back as it was,
      and `ext_only` yields the empty string. */
  lemma OrdinalizeNonDigit(numstr: string)
    requires |numstr| > 0 && !IsDigitChar(numstr[|numstr| - 1])
    ensures Ordinalize(numstr, false) == numstr
    ensures Ordinalize(numstr, true) == ""
  {
    assert numstr + "" == numstr;
  }

  /** The last character of `str(n)` is the last decimal digit of `|n|`, and for
      `|n| >= 10` the one before it is the tens digit. */
  lemma IntStrDigits(n: int)
    ensures var s := IntStr(n); var m := if n < 0 then -n else n;
      && |s| > 0 && s[|s| - 1] == Digit(m % 10)
      && (m >= 10 ==> |s| >= 2 && s[|s| - 2] == Digit((m / 10) % 10))
      && (m < 10 ==> (|s| >= 2 <==> n < 0) && (|s| >= 2 ==> s[|s| - 2] == '-'))
  {
    var m := if n < 0 then -n else n;
    DecimalShape(m);
    if m >= 10 {
      DecimalShape(m / 10);
      var d := Decimal(m / 10);
      if m / 10 >= 10 {
        assert d[|d| - 1] == Digit((m / 10) % 10);
      }
    }
  }

  /** As written, the suffix depends on the last digit only: 1 gives "st", 2 "nd", 3 "rd",
      anything else "th", whatever the tens digit. */
  lemma OrdinalSuffixByLastDigit(n: int)
    ensures var m := if n < 0 then -n else n;
      Ordinalize(IntStr(n), true) == DigitSuffix(Digit(m % 10))
  {
    IntStrDigits(n);
  }

  /** `ordinalize(11) == '11st'`, `ordinalize(12) == '12nd'`, `ordinalize(13) == '13rd'`. */
  lemma TeensAsWritten()
    ensures Ordinalize(IntStr(11), false) == "11st"
    ensures Ordinalize(IntStr(12), false) == "12nd"
    ensures Ordinalize(IntStr(13), false) == "13rd"
  {
    assert Decimal(1) == "1";
  }

  /** The suffix as evidently intended: a tens digit of 1 makes it "th". */
  function OrdinalSuffixFixed(numstr: string): string {
    if |numstr| == 0 || !IsDigitChar(numstr[|numstr| - 1]) then ""
    else if |numstr| >= 2 && numstr[|numstr| - 2] == '1' then "th"
    else DigitSuffix(numstr[|numstr| - 1])
  }

  /** `ordinalize` with the corrected suffix. */
  function OrdinalizeFixed(numstr: string, extOnly: bool): (r: string)
    ensures |numstr| == 0 ==> r == ""
    ensures extOnly ==> r == OrdinalSuffixFixed(numstr)
    ensures !extOnly ==> |r| >= |numstr| && r[..|numstr|] == numstr && r[|numstr|..] == OrdinalSuffixFixed(numstr)
  {
    if |numstr| == 0 then ""
    else if extOnly then OrdinalSuffixFixed(numstr)
    else numstr + OrdinalSuffixFixed(numstr)
  }

  /** English ordinals: 11th, 12th, 13th (and 111th, ...) but 1st, 2nd, 3rd, 21st, ... */
  lemma OrdinalSuffixFixedEnglish(n: int)
    ensures var m := if n < 0 then -n else n;
      OrdinalizeFixed(IntStr(n), true)
        == if 11 <= m % 100 <= 13 then "th" else DigitSuffix(Digit(m % 10))
  {
    var m := if n < 0 then -n else n;
    IntStrDigits(n);
    LastTwoDigits(m);
    DigitSuffixOf(m % 10);
    if m >= 10 {
      DigitIsOne((m / 10) % 10);
    }
  }

  /** The last two decimal digits of `m`. */
  lemma LastTwoDigits(m: nat)
    ensures m % 100 == 10 * ((m / 10) % 10) + m % 10
    ensures m < 10 ==> m % 100 == m
  {
    TensDigit(m);
  }

  lemma DigitSuffixOf(u: nat)
    requires u < 10
    ensures DigitSuffix(Digit(u)) == if u == 1 then "st" else if u == 2 then "nd" else if u == 3 then "rd" else "th"
  {
  }

  lemma DigitIsOne(t: nat)
    requires t < 10
    ensures Digit(t) == '1' <==> t == 1
  {
  }

  /** The tens digit of `m` is 1 exactly when `m % 100` is in the teens. */
  lemma TensDigit(m: nat)
    ensures (m / 10) % 10 == (m % 100) / 10
  {
    var q, r := m / 100, m % 100;
    assert m == 100 * q + r;
    assert m / 10 == 10 * q + r / 10;
  }

  /** The number reads back from the ordinal of a non-negative integer, both as written
      and corrected: either way the ordinal is the decimal plus a two-letter suffix. */
  lemma OrdinalizeReadsBack(n: nat)
    ensures var r := Ordinalize(IntStr(n), false); var k := |r| - 2;
      0 < k && AllDigits(r[..k]) && ParseDecimal(r[..k]) == n
    ensures var r := OrdinalizeFixed(IntStr(n), false); var k := |r| - 2;
      0 < k && AllDigits(r[..k]) && ParseDecimal(r[..k]) == n
  {
    DecimalShape(n);
    DecimalRoundTrip(n);
    IntStrDigits(n);
    var r := Ordinalize(IntStr(n), false);
    assert r[..|r| - 2] == Decimal(n);
    var f := OrdinalizeFixed(IntStr(n), false);
    assert f[..|f| - 2] == Decimal(n);
  }

  lemma OrdinalizeExamples()
    ensures Ordinalize(IntStr(1), false) == "1st"
    ensures Ordinalize(IntStr(3694839230), false) == "3694839230th"
  {
    assert Decimal(1) == "1";
    assert Decimal(3) == "3";
    assert Decimal(36) == "36";
    assert Decimal(369) == "369";
    assert Decimal(3694) == "3694";
    assert Decimal(36948) == "36948";
    assert Decimal(369483) == "369483";
    assert Decimal(3694839) == "3694839";
    assert Decimal(36948392) == "36948392";
    assert Decimal(369483923) == "369483923";
    assert Decimal(3694839230) == "3694839230";
  }
}
