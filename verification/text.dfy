/** ASCII character classes, case mapping, stripping and decimal rendering,
    the pieces of Python's `str` behaviour the string utilities rely on. */
module Text {

  predicate IsUpperChar(c: char) { 'A' <= c <= 'Z' }
  predicate IsLowerChar(c: char) { 'a' <= c <= 'z' }
  predicate IsDigitChar(c: char) { '0' <= c <= '9' }

  /** Python 2 `string.whitespace`: tab, newline, vertical tab, form feed, carriage return, space. */
  predicate IsSpace(c: char) {
    c == ' ' || c == '\t' || c == '\n' || c == '\r' || c == '\U{0B}' || c == '\U{0C}'
  }

  function ToLowerChar(c: char): (r: char)
    ensures !IsUpperChar(r)
    ensures IsUpperChar(c) ==> IsLowerChar(r)
    ensures !IsUpperChar(c) ==> r == c
  {
    if IsUpperChar(c) then (c as int - 'A' as int + 'a' as int) as char else c
  }

  function ToUpperChar(c: char): (r: char)
    ensures !IsLowerChar(r)
    ensures IsLowerChar(c) ==> IsUpperChar(r)
    ensures !IsLowerChar(c) ==> r == c
  {
    if IsLowerChar(c) then (c as int - 'a' as int + 'A' as int) as char else c
  }

  /** `str.lower()` restricted to ASCII letters. */
  function Lower(s: string): (r: string)
    ensures |r| == |s|
    ensures forall i :: 0 <= i < |s| ==> r[i] == ToLowerChar(s[i])
  {
    seq(|s|, i requires 0 <= i < |s| => ToLowerChar(s[i]))
  }

  /** `str.upper()` restricted to ASCII letters. */
  function Upper(s: string): (r: string)
    ensures |r| == |s|
    ensures forall i :: 0 <= i < |s| ==> r[i] == ToUpperChar(s[i])
  {
    seq(|s|, i requires 0 <= i < |s| => ToUpperChar(s[i]))
  }

  /** `str.capitalize()`: first character upper-cased, the rest lower-cased. */
  function Capitalize(s: string): (r: string)
    ensures |r| == |s|
    ensures |s| > 0 ==> r[0] == ToUpperChar(s[0])
    ensures forall i :: 1 <= i < |s| ==> r[i] == ToLowerChar(s[i])
  {
    if |s| == 0 then "" else [ToUpperChar(s[0])] + Lower(s[1..])
  }

  predicate HasNoUpper(s: string) { forall i :: 0 <= i < |s| ==> !IsUpperChar(s[i]) }
  predicate HasNoLower(s: string) { forall i :: 0 <= i < |s| ==> !IsLowerChar(s[i]) }

  lemma LowerIdempotent(s: string)
    ensures Lower(Lower(s)) == Lower(s)
  {
  }

  lemma LowerFixedIffNoUpper(s: string)
    ensures Lower(s) == s <==> HasNoUpper(s)
  {
    if Lower(s) == s {
      forall i | 0 <= i < |s| ensures !IsUpperChar(s[i]) {
        assert Lower(s)[i] == ToLowerChar(s[i]);
      }
    }
  }

  lemma UpperFixedIffNoLower(s: string)
    ensures Upper(s) == s <==> HasNoLower(s)
  {
    if Upper(s) == s {
      forall i | 0 <= i < |s| ensures !IsLowerChar(s[i]) {
        assert Upper(s)[i] == ToUpperChar(s[i]);
      }
    }
  }

  /** `str.lstrip()` on whitespace. */
  function StripLeft(s: string): (r: string)
    ensures |r| <= |s| && r == s[|s| - |r|..]
    ensures |r| > 0 ==> !IsSpace(r[0])
    ensures forall i :: 0 <= i < |s| - |r| ==> IsSpace(s[i])
  {
    if |s| > 0 && IsSpace(s[0]) then StripLeft(s[1..]) else s
  }

  /** `str.rstrip()` on whitespace. */
  function StripRight(s: string): (r: string)
    ensures |r| <= |s| && r == s[..|r|]
    ensures |r| > 0 ==> !IsSpace(r[|r| - 1])
    ensures forall i :: |r| <= i < |s| ==> IsSpace(s[i])
  {
    if |s| > 0 && IsSpace(s[|s| - 1]) then StripRight(s[..|s| - 1]) else s
  }

  /** `str.strip()`: whitespace removed from both ends. */
  function Strip(s: string): (r: string)
    ensures |r| == 0 <==> forall i :: 0 <= i < |s| ==> IsSpace(s[i])
    ensures |r| > 0 ==> !IsSpace(r[0]) && !IsSpace(r[|r| - 1])
  {
    StripRight(StripLeft(s))
  }

  function EndsWith(s: string, suffix: string): bool {
    |suffix| <= |s| && s[|s| - |suffix|..] == suffix
  }

  function StartsWith(s: string, prefix: string): bool {
    |prefix| <= |s| && s[..|prefix|] == prefix
  }

  /** Python's normalisation of a slice bound against a sequence of length `n`. */
  function SliceBound(i: int, n: nat): (r: nat)
    ensures r <= n
  {
    if i < 0 then (if i + n < 0 then 0 else i + n) else if i > n then n else i
  }

  /** Python's `s[a:b]` with negative bounds counted from the end and clamping. */
  function PySlice(s: string, a: int, b: int): (r: string)
    ensures |r| <= |s|
  {
    var lo := SliceBound(a, |s|);
    var hi := SliceBound(b, |s|);
    if lo < hi then s[lo..hi] else ""
  }

  /** Python's `t in s` for strings: substring containment, the empty string being in every string. */
  function InPy(t: string, s: string): bool
    decreases |s|
  {
    StartsWith(s, t) || (|s| > 0 && InPy(t, s[1..]))
  }

  lemma EmptyInEverything(s: string)
    ensures InPy("", s)
  {
    assert StartsWith(s, "");
  }

  lemma {:induction false} SingleInPy(c: char, s: string)
    ensures InPy([c], s) <==> c in s
  {
    if |s| > 0 {
      SingleInPy(c, s[1..]);
      assert s == [s[0]] + s[1..];
    }
  }

  const DigitChars: string := "0123456789"

  function Digit(d: nat): (c: char)
    requires d < 10
    ensures IsDigitChar(c)
  {
    DigitChars[d]
  }

  function DigitValue(c: char): (d: nat)
    requires IsDigitChar(c)
    ensures d < 10
  {
    c as int - '0' as int
  }

  /** `str(n)` for a non-negative integer. */
  function Decimal(n: nat): (r: string)
    decreases n
  {
    if n < 10 then [Digit(n)] else Decimal(n / 10) + [Digit(n % 10)]
  }

  predicate AllDigits(s: string) { forall i :: 0 <= i < |s| ==> IsDigitChar(s[i]) }

  /** `int(s)` for a non-empty run of decimal digits. */
  function ParseDecimal(s: string): (n: nat)
    requires AllDigits(s)
  {
    if |s| == 0 then 0 else 10 * ParseDecimal(s[..|s| - 1]) + DigitValue(s[|s| - 1])
  }

  lemma {:induction false} DecimalShape(n: nat)
    ensures |Decimal(n)| > 0 && AllDigits(Decimal(n))
    ensures |Decimal(n)| > 1 ==> Decimal(n)[0] != '0'
    decreases n
  {
    if n >= 10 {
      DecimalShape(n / 10);
    }
  }

  /** `int(str(n)) == n`: the decimal rendering loses nothing. */
  lemma {:induction false} DecimalRoundTrip(n: nat)
    ensures AllDigits(Decimal(n)) && ParseDecimal(Decimal(n)) == n
    decreases n
  {
    DecimalShape(n);
    if n >= 10 {
      DecimalRoundTrip(n / 10);
      var s := Decimal(n);
      assert s[..|s| - 1] == Decimal(n / 10);
    }
  }

  /** `sep.join(parts)`. */
  function Join(parts: seq<string>, sep: string): string {
    if |parts| == 0 then "" else if |parts| == 1 then parts[0] else parts[0] + sep + Join(parts[1..], sep)
  }

  function Concat(parts: seq<string>): string {
    if |parts| == 0 then "" else parts[0] + Concat(parts[1..])
  }

  /** A string with no whitespace at either end is its own `strip()`. */
  lemma StripNoop(s: string)
    requires |s| > 0 && !IsSpace(s[0]) && !IsSpace(s[|s| - 1])
    ensures Strip(s) == s
  {
    assert StripLeft(s) == s;
  }

  /** `s[-k-1:-k]`: the single character `k` places before the end, or nothing. */
  lemma PySliceOne(s: string, k: nat)
    requires k >= 1
    ensures PySlice(s, -(k as int) - 1, -(k as int)) == if |s| >= k + 1 then [s[|s| - k - 1]] else ""
  {
  }

  /** `c not in 'aeiou'` for a slice of at most one character: an empty slice counts as a vowel. */
  lemma NotVowelSlice(s: string, k: nat)
    requires k >= 1
    ensures !InPy(PySlice(s, -(k as int) - 1, -(k as int)), "aeiou")
        <==> |s| >= k + 1 && s[|s| - k - 1] !in "aeiou"
  {
    PySliceOne(s, k);
    if |s| >= k + 1 {
      SingleInPy(s[|s| - k - 1], "aeiou");
    } else {
      EmptyInEverything("aeiou");
    }
  }

  /** A capitalized string is its own capitalization. */
  lemma CapitalizeIdempotent(s: string)
    ensures Capitalize(Capitalize(s)) == Capitalize(s)
  {
    var c := Capitalize(s);
    forall i | 0 <= i < |s| ensures Capitalize(c)[i] == c[i] {
    }
  }

  /** Upper-casing, capitalizing or lower-casing changes nothing but case. */
  lemma LowerOfCaseChange(s: string)
    ensures Lower(Upper(s)) == Lower(s)
    ensures Lower(Capitalize(s)) == Lower(s)
  {
  }
}
