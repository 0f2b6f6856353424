/** English inflection of boltons/strutils.py: `pluralize`, `singularize`, the case
    matching they share, the irregular-noun table, `cardinalize` and `unit_len`.
    Case mapping is ASCII only. */
module Inflection {
  import opened Wrappers
  import opened Text

  /** `_IRR_S2P`: irregular singular to plural. */
  const Irregulars: seq<(string, string)> := [
    ("alumnus", "alumni"), ("analysis", "analyses"), ("antenna", "antennae"),
    ("appendix", "appendices"), ("axis", "axes"), ("bacterium", "bacteria"),
    ("basis", "bases"), ("beau", "beaux"), ("bureau", "bureaus"), ("cactus", "cacti"),
    ("child", "children"), ("corpus", "corpora"), ("crisis", "crises"),
    ("criterion", "criteria"), ("curriculum", "curricula"), ("datum", "data"),
    ("deer", "deer"), ("diagnosis", "diagnoses"), ("ellipsis", "ellipses"), ("fish", "fish"),
    ("focus", "foci"), ("foot", "feet"), ("formula", "formulae"), ("fungus", "fungi"),
    ("genus", "genera"), ("goose", "geese"), ("hypothesis", "hypotheses"),
    ("index", "indeces"), ("louse", "lice"), ("man", "men"), ("matrix", "matrices"),
    ("means", "means"), ("medium", "media"), ("memorandum", "memoranda"), ("mouse", "mice"),
    ("nebula", "nebulae"), ("nucleus", "nuclei"), ("oasis", "oases"),
    ("offspring", "offspring"), ("ox", "oxen"), ("paralysis", "paralyses"),
    ("parenthesis", "parentheses"), ("phenomenon", "phenomena"), ("radius", "radii"),
    ("series", "series"), ("sheep", "sheep"), ("species", "species"), ("stimulus", "stimuli"),
    ("stratum", "strata"), ("synopsis", "synopses"), ("synthesis", "syntheses"),
    ("tableau", "tableaux"), ("thesis", "theses"), ("tooth", "teeth"),
    ("vertebra", "vertebrae"), ("vita", "vitae"), ("woman", "women")]

  /** `table.get(key)` for a table given as pairs. */
  function KeyLookup(t: seq<(string, string)>, key: string): Option<string> {
    if |t| == 0 then None
    else if t[0].0 == key then Some(t[0].1)
    else KeyLookup(t[1..], key)
  }

  /** The reverse table `dict((v, k) for k, v in table.items())`. No two pairs of the
      irregular table share a plural, so the order in which the pairs are scanned does
      not decide the answer. */
  function ValueLookup(t: seq<(string, string)>, value: string): Option<string> {
    if |t| == 0 then None
    else if t[|t| - 1].1 == value then Some(t[|t| - 1].0)
    else ValueLookup(t[..|t| - 1], value)
  }

  /** A lookup finds a pair with that key, and misses only when there is none. */
  lemma {:induction false} KeyLookupSound(t: seq<(string, string)>, key: string)
    ensures KeyLookup(t, key).Some? ==> (key, KeyLookup(t, key).value) in t
    ensures KeyLookup(t, key).None? ==> forall i :: 0 <= i < |t| ==> t[i].0 != key
  {
    if |t| > 0 {
      KeyLookupSound(t[1..], key);
    }
  }

  /** A reverse lookup finds a pair with that value, and misses only when there is none. */
  lemma {:induction false} ValueLookupSound(t: seq<(string, string)>, value: string)
    ensures ValueLookup(t, value).Some? ==> (ValueLookup(t, value).value, value) in t
    ensures ValueLookup(t, value).None? ==> forall i :: 0 <= i < |t| ==> t[i].1 != value
  {
    if |t| > 0 {
      ValueLookupSound(t[..|t| - 1], value);
    }
  }

  /** The word is in neither direction of the irregular table. */
  predicate Regular(t: seq<(string, string)>, word: string) {
    KeyLookup(t, word).None? && ValueLookup(t, word).None?
  }

  /** `_match_case`: give `disciple` the case pattern of `master`. */
  function MatchCase(master: string, disciple: string): (r: string)
    ensures Lower(r) == Lower(disciple)
    ensures |Strip(master)| == 0 ==> r == disciple
    ensures |Strip(master)| > 0 && HasNoUpper(master) ==> HasNoUpper(r)
  {
    LowerOfCaseChange(disciple);
    LowerFixedIffNoUpper(master);
    LowerFixedIffNoUpper(Lower(disciple));
    if |Strip(master)| == 0 then disciple
    else if Lower(master) == master then Lower(disciple)
    else if Upper(master) == master then Upper(disciple)
    else if Capitalize(master) == master then Capitalize(disciple)
    else disciple
  }

  /** An upper-case master (with no lower-case letter, and not caught by the lower-case
      test) gives a result with no lower-case letter; a capitalized master gives a
      capitalized result; a master of any other mixed case leaves the disciple as it is. */
  lemma MatchCaseShapes(master: string, disciple: string)
    requires |Strip(master)| > 0 && Lower(master) != master
    ensures HasNoLower(master) ==> HasNoLower(MatchCase(master, disciple))
    ensures !HasNoLower(master) && Capitalize(master) == master ==>
      Capitalize(MatchCase(master, disciple)) == MatchCase(master, disciple)
    ensures Upper(master) != master && Capitalize(master) != master ==> MatchCase(master, disciple) == disciple
  {
    UpperFixedIffNoLower(master);
    if HasNoLower(master) {
      assert MatchCase(master, disciple) == Upper(disciple);
      UpperFixedIffNoLower(Upper(disciple));
    } else if Capitalize(master) == master {
      assert MatchCase(master, disciple) == Capitalize(disciple);
      CapitalizeIdempotent(disciple);
    }
  }

  /** Matching the case twice is matching it once. */
  lemma MatchCaseIdempotent(master: string, disciple: string)
    ensures MatchCase(master, MatchCase(master, disciple)) == MatchCase(master, disciple)
  {
    var d := disciple;
    if |Strip(master)| == 0 {
    } else if Lower(master) == master {
      assert Lower(Lower(d)) == Lower(d);
    } else if Upper(master) == master {
      assert Upper(Upper(d)) == Upper(d);
    } else if Capitalize(master) == master {
      assert Capitalize(Capitalize(d)) == Capitalize(d);
    }
  }

  /** The plural of a stripped, lower-cased, non-blank word that is not an irregular
      plural, given the irregular table. */
  function PluralOf(t: seq<(string, string)>, w: string): string
    requires |w| > 0
  {
    var irregular := KeyLookup(t, w);
    if irregular.Some? && irregular.value != "" then irregular.value
    else if EndsWith(w, "y") && !InPy(PySlice(w, -2, -1), "aeiou") then w[..|w| - 1] + "ies"
    else if w[|w| - 1] == 's' || EndsWith(w, "ch") || EndsWith(w, "sh") then
      (if EndsWith(w, "es") then w else w + "es")
    else w + "s"
  }

  /** The body of `pluralize` for a given irregular table. */
  function PluralizeIn(t: seq<(string, string)>, word: string): (r: string)
    ensures |Strip(word)| == 0 ==> r == word
    ensures ValueLookup(t, Lower(Strip(word))).Some? ==> r == word
    ensures |Strip(word)| > 0 && ValueLookup(t, Lower(Strip(word))).None? ==>
      Lower(r) == Lower(PluralOf(t, Lower(Strip(word))))
  {
    var w := Lower(Strip(word));
    if |w| == 0 || ValueLookup(t, w).Some? then word
    else MatchCase(word, PluralOf(t, w))
  }

  /** `pluralize`. */
  function Pluralize(word: string): string {
    PluralizeIn(Irregulars, word)
  }

  /** Which singular a stripped, lower-cased word ending in 's' gets, with the vowel test
      looking `back` places before the end: 4 as written, 3 as evidently intended. */
  function SingularOf(t: seq<(string, string)>, w: string, back: nat): string
    requires |w| > 0 && back >= 1
  {
    var irregular := ValueLookup(t, w);
    if irregular.Some? && irregular.value != "" then irregular.value
    else if |w| == 2 then w[..1]
    else if EndsWith(w, "ies") && !InPy(PySlice(w, -(back as int) - 1, -(back as int)), "aeiou") then
      w[..|w| - 3] + "y"
    else if EndsWith(w, "es") then w[..|w| - 2]
    else w[..|w| - 1]
  }

  /** The body of `singularize` for a given irregular table and vowel-test offset. */
  function SingularizeIn(t: seq<(string, string)>, word: string, back: nat): (r: string)
    requires back >= 1
    ensures |Strip(word)| == 0 ==> r == word
    ensures KeyLookup(t, Lower(Strip(word))).Some? ==> r == word
  {
    var w := Lower(Strip(word));
    if |w| == 0 || KeyLookup(t, w).Some? then word
    else if ValueLookup(t, w).Some? && ValueLookup(t, w).value != "" then MatchCase(word, SingularOf(t, w, back))
    else if !EndsWith(w, "s") then word
    else MatchCase(word, SingularOf(t, w, back))
  }

  /** Every path of `singularize`: a blank word or an irregular singular comes back
      unchanged, and so does a regular word not ending in 's'; an irregular plural or a
      regular word ending in 's' becomes its singular, up to case. */
  lemma SingularizeInCases(t: seq<(string, string)>, word: string, back: nat)
    requires back >= 1
    ensures |Strip(word)| == 0 ==> SingularizeIn(t, word, back) == word
    ensures KeyLookup(t, Lower(Strip(word))).Some? ==> SingularizeIn(t, word, back) == word
    ensures (|Strip(word)| > 0 && KeyLookup(t, Lower(Strip(word))).None? && ValueLookup(t, Lower(Strip(word))).None?
      && !EndsWith(Lower(Strip(word)), "s")) ==> SingularizeIn(t, word, back) == word
    ensures |Strip(word)| > 0 && KeyLookup(t, Lower(Strip(word))).None?
      && (EndsWith(Lower(Strip(word)), "s")
          || (ValueLookup(t, Lower(Strip(word))).Some? && ValueLookup(t, Lower(Strip(word))).value != ""))
      ==> Lower(SingularizeIn(t, word, back)) == Lower(SingularOf(t, Lower(Strip(word)), back))
  {
  }

  /** `singularize` as written: the vowel test reads `word[-5:-4]`, two places before
      the 'y' that `pluralize` replaced. */
  function Singularize(word: string): string {
    SingularizeIn(Irregulars, word, 4)
  }

  /** `singularize` as evidently intended: the vowel test reads `word[-4:-3]`, the
      letter just before "ies". */
  function SingularizeFixed(word: string): string {
    SingularizeIn(Irregulars, word, 3)
  }

  /** A non-blank lower-case word with no surrounding whitespace. */
  predicate Normal(w: string) {
    |w| > 0 && HasNoUpper(w) && !IsSpace(w[0]) && !IsSpace(w[|w| - 1])
  }

  lemma NormalFacts(w: string)
    requires Normal(w)
    ensures Strip(w) == w && Lower(w) == w && Lower(Strip(w)) == w
  {
    StripNoop(w);
    LowerFixedIffNoUpper(w);
  }

  /** A word whose plural is unambiguous: normal, and not ending in 'e' or "es" ("cake",
      "tie" and "yes" would come back as "cak", "ty" and "ye"). */
  predicate PlainWord(w: string) {
    Normal(w) && w[|w| - 1] != 'e' && !EndsWith(w, "es")
  }

  /** The three regular plural shapes of a plain word. */
  lemma PlainPluralShape(t: seq<(string, string)>, w: string)
    requires PlainWord(w) && KeyLookup(t, w).None?
    ensures var p := PluralOf(t, w);
      || (|w| >= 2 && w[|w| - 1] == 'y' && w[|w| - 2] !in "aeiou" && p == w[..|w| - 1] + "ies")
      || ((w[|w| - 1] == 's' || EndsWith(w, "ch") || EndsWith(w, "sh")) && p == w + "es")
      || (!(|w| >= 2 && w[|w| - 1] == 'y' && w[|w| - 2] !in "aeiou")
          && !(w[|w| - 1] == 's' || EndsWith(w, "ch") || EndsWith(w, "sh")) && p == w + "s")
  {
    NotVowelSlice(w, 1);
    assert EndsWith(w, "y") <==> w[|w| - 1] == 'y';
  }

  /** A plain word's plural starts like the word, ends in 's', is longer and has no
      upper-case letter. */
  lemma PlainPluralFacts(t: seq<(string, string)>, w: string)
    requires PlainWord(w) && KeyLookup(t, w).None?
    ensures var p := PluralOf(t, w);
      |p| > |w| && p[0] == w[0] && p[|p| - 1] == 's' && HasNoUpper(p) && Normal(p)
  {
    PlainPluralShape(t, w);
  }

  /** `pluralize` returns a plain regular word's plural as `PluralOf` builds it. */
  lemma PlainPluralize(t: seq<(string, string)>, w: string)
    requires PlainWord(w) && Regular(t, w)
    ensures PluralizeIn(t, w) == PluralOf(t, w)
  {
    NormalFacts(w);
    PlainPluralFacts(t, w);
    NormalFacts(PluralOf(t, w));
  }

  /** `singularize` on a normal regular word ending in 's' is its case-matched singular. */
  lemma SingularizeRegular(t: seq<(string, string)>, p: string, back: nat)
    requires Normal(p) && Regular(t, p) && p[|p| - 1] == 's' && back >= 1
    ensures SingularizeIn(t, p, back) == Lower(SingularOf(t, p, back))
  {
    NormalFacts(p);
  }

  /** The singular of each plural shape, with the intended vowel test. */
  lemma SingularOfPlural(t: seq<(string, string)>, w: string)
    requires PlainWord(w) && Regular(t, w) && Regular(t, PluralOf(t, w))
    ensures SingularOf(t, PluralOf(t, w), 3) == w
  {
    PlainPluralShape(t, w);
    PlainPluralFacts(t, w);
    var p := PluralOf(t, w);
    if |w| >= 2 && w[|w| - 1] == 'y' && w[|w| - 2] !in "aeiou" {
      SingularOfIes(t, w, p);
    } else if w[|w| - 1] == 's' || EndsWith(w, "ch") || EndsWith(w, "sh") {
      SingularOfEs(t, w, p);
    } else {
      SingularOfS(t, w, p);
    }
  }

  lemma SingularOfIes(t: seq<(string, string)>, w: string, p: string)
    requires PlainWord(w) && |w| >= 2 && w[|w| - 1] == 'y' && w[|w| - 2] !in "aeiou"
    requires p == w[..|w| - 1] + "ies" && ValueLookup(t, p).None?
    ensures SingularOf(t, p, 3) == w
  {
    NotVowelSlice(p, 3);
    assert p[|p| - 4] == w[|w| - 2];
    assert EndsWith(p, "ies");
    assert p[..|p| - 3] + "y" == w;
  }

  lemma SingularOfEs(t: seq<(string, string)>, w: string, p: string)
    requires PlainWord(w) && (w[|w| - 1] == 's' || EndsWith(w, "ch") || EndsWith(w, "sh"))
    requires p == w + "es" && ValueLookup(t, p).None?
    ensures SingularOf(t, p, 3) == w
  {
    assert !EndsWith(p, "ies") by {
      assert p[|p| - 3] == w[|w| - 1];
      if EndsWith(w, "ch") || EndsWith(w, "sh") {
        assert w[|w| - 2..][1] == w[|w| - 1];
      }
    }
    assert EndsWith(p, "es");
    assert p[..|p| - 2] == w;
  }

  lemma SingularOfS(t: seq<(string, string)>, w: string, p: string)
    requires PlainWord(w) && p == w + "s" && ValueLookup(t, p).None?
    ensures SingularOf(t, p, 3) == w
  {
    assert !EndsWith(p, "es") by {
      assert p[|p| - 2] == w[|w| - 1];
    }
    assert !EndsWith(p, "ies") by {
      assert p[|p| - 2] == w[|w| - 1];
    }
    assert p[..|p| - 1] == w;
  }

  /** With the intended vowel test, singularizing the plural of a plain regular word
      gives the word back, for any table that lists neither. */
  lemma PluralRoundTripIn(t: seq<(string, string)>, w: string)
    requires PlainWord(w) && Regular(t, w) && Regular(t, PluralOf(t, w))
    ensures SingularizeIn(t, PluralizeIn(t, w), 3) == w
  {
    PlainPluralize(t, w);
    PlainPluralFacts(t, w);
    SingularizeRegular(t, PluralOf(t, w), 3);
    SingularOfPlural(t, w);
    NormalFacts(w);
  }

  /** `singularize(pluralize(w)) == w` (with the intended vowel test) for every plain
      word outside the irregular table. */
  lemma PluralRoundTrip(w: string)
    requires PlainWord(w) && Regular(Irregulars, w) && Regular(Irregulars, PluralOf(Irregulars, w))
    ensures SingularizeFixed(Pluralize(w)) == w
  {
    PluralRoundTripIn(Irregulars, w);
  }

  /** As written, a word ending in consonant + 'y' whose third-last letter is a vowel
      ("baby": "babies") has its 'y' replaced by 'i'. */
  lemma SingularOfLosesY(t: seq<(string, string)>, w: string)
    requires PlainWord(w) && Regular(t, w) && Regular(t, PluralOf(t, w))
    requires |w| >= 3 && w[|w| - 1] == 'y' && w[|w| - 2] !in "aeiou" && w[|w| - 3] in "aeiou"
    ensures SingularOf(t, PluralOf(t, w), 4) == w[..|w| - 1] + "i"
  {
    PlainPluralShape(t, w);
    var p := PluralOf(t, w);
    assert p == w[..|w| - 1] + "ies";
    NotVowelSlice(p, 4);
    assert p[|p| - 5] == w[|w| - 3];
    assert EndsWith(p, "es") && |p| != 2;
    assert p[..|p| - 2] == w[..|w| - 1] + "i";
  }

  lemma SingularizeLosesYIn(t: seq<(string, string)>, w: string)
    requires PlainWord(w) && Regular(t, w) && Regular(t, PluralOf(t, w))
    requires |w| >= 3 && w[|w| - 1] == 'y' && w[|w| - 2] !in "aeiou" && w[|w| - 3] in "aeiou"
    ensures SingularizeIn(t, PluralizeIn(t, w), 4) == w[..|w| - 1] + "i"
  {
    PlainPluralize(t, w);
    PlainPluralFacts(t, w);
    SingularizeRegular(t, PluralOf(t, w), 4);
    SingularOfLosesY(t, w);
    LowerOfYToI(w);
  }

  lemma LowerOfYToI(w: string)
    requires PlainWord(w)
    ensures Lower(w[..|w| - 1] + "i") == w[..|w| - 1] + "i"
  {
    var s := w[..|w| - 1] + "i";
    assert HasNoUpper(s);
    LowerFixedIffNoUpper(s);
  }

  /** The as-written `singularize` does not undo `pluralize` on such a word. */
  lemma SingularizeLosesY(w: string)
    requires PlainWord(w) && Regular(Irregulars, w) && Regular(Irregulars, PluralOf(Irregulars, w))
    requires |w| >= 3 && w[|w| - 1] == 'y' && w[|w| - 2] !in "aeiou" && w[|w| - 3] in "aeiou"
    ensures Singularize(Pluralize(w)) == w[..|w| - 1] + "i"
    ensures Singularize(Pluralize(w)) != w
  {
    SingularizeLosesYIn(Irregulars, w);
    assert Singularize(Pluralize(w))[|w| - 1] == 'i';
  }

  /** A table pair whose plural is listed nowhere else and is not itself a singular
      (the singular may be its own plural, as "sheep" is). */
  predicate CoherentPair(t: seq<(string, string)>, singular: string, plural: string) {
    && KeyLookup(t, singular) == Some(plural)
    && ValueLookup(t, plural) == Some(singular)
    && (KeyLookup(t, plural).Some? ==> plural == singular)
    && (ValueLookup(t, singular).Some? ==> plural == singular)
  }

  /** Irregular nouns pluralize by the table. */
  lemma IrregularPluralize(t: seq<(string, string)>, w: string, p: string)
    requires CoherentPair(t, w, p) && Normal(w) && Normal(p)
    ensures PluralizeIn(t, w) == p
  {
    NormalFacts(w);
    NormalFacts(p);
  }

  /** Irregular plurals singularize by the table, whichever vowel test is used. */
  lemma IrregularSingularize(t: seq<(string, string)>, w: string, p: string, back: nat)
    requires CoherentPair(t, w, p) && Normal(w) && Normal(p) && back >= 1
    ensures SingularizeIn(t, p, back) == w
  {
    NormalFacts(w);
    NormalFacts(p);
  }

  /** Irregular nouns survive the round trip, in both versions of `singularize`. */
  lemma IrregularRoundTrip(w: string, p: string)
    requires CoherentPair(Irregulars, w, p) && Normal(w) && Normal(p)
    ensures Pluralize(w) == p
    ensures Singularize(p) == w && SingularizeFixed(p) == w
  {
    IrregularPluralize(Irregulars, w, p);
    IrregularSingularize(Irregulars, w, p, 4);
    IrregularSingularize(Irregulars, w, p, 3);
  }

  /** `cardinalize`: the noun as given for one, its plural otherwise. */
  function Cardinalize(noun: string, count: int): (r: string)
    ensures count == 1 ==> r == noun
    ensures count != 1 ==> r == Pluralize(noun)
  {
    if count == 1 then noun else Pluralize(noun)
  }

  /** `pluralize` keeps the case shape of a non-blank word that is not all lower case:
      an upper-case word gives an upper-case plural, a capitalized word a capitalized
      one. */
  lemma PluralizeKeepsCase(t: seq<(string, string)>, word: string)
    requires |Strip(word)| > 0 && Lower(word) != word
    ensures HasNoLower(word) ==> HasNoLower(PluralizeIn(t, word))
    ensures !HasNoLower(word) && Capitalize(word) == word ==>
      Capitalize(PluralizeIn(t, word)) == PluralizeIn(t, word)
  {
    var w := Lower(Strip(word));
    if ValueLookup(t, w).None? {
      assert PluralizeIn(t, word) == MatchCase(word, PluralOf(t, w));
      MatchCaseShapes(word, PluralOf(t, w));
    }
  }

  /** `cardinalize` pluralizes exactly when the count is not one, preserving case: the
      plural of an upper-case noun is upper case and that of a capitalized noun is
      capitalized (`cardinalize('Wish', 3)` gives `'Wishes'`). For a plain regular noun
      it is the regular plural, which the corrected `singularize` takes back to the noun. */
  lemma CardinalizeMeaning(noun: string, count: int)
    ensures count == 1 ==> Cardinalize(noun, count) == noun
    ensures count != 1 && |Strip(noun)| > 0 && Lower(noun) != noun ==>
      && (HasNoLower(noun) ==> HasNoLower(Cardinalize(noun, count)))
      && (!HasNoLower(noun) && Capitalize(noun) == noun ==>
            Capitalize(Cardinalize(noun, count)) == Cardinalize(noun, count))
    ensures count != 1 && PlainWord(noun) && Regular(Irregulars, noun) && Regular(Irregulars, PluralOf(Irregulars, noun)) ==>
      && Cardinalize(noun, count) == PluralOf(Irregulars, noun)
      && Cardinalize(noun, count) != noun
      && SingularizeFixed(Cardinalize(noun, count)) == noun
  {
    if count != 1 {
      if |Strip(noun)| > 0 && Lower(noun) != noun {
        PluralizeKeepsCase(Irregulars, noun);
      }
      if PlainWord(noun) && Regular(Irregulars, noun) && Regular(Irregulars, PluralOf(Irregulars, noun)) {
        PlainPluralize(Irregulars, noun);
        PlainPluralFacts(Irregulars, noun);
        PluralRoundTrip(noun);
      }
    }
  }

  /** `unit_len` for a collection of `count` items. */
  function UnitLen(count: nat, noun: string): string {
    if count > 0 then Decimal(count) + " " + Cardinalize(noun, count)
    else "No " + Cardinalize(noun, count)
  }

  /** The count reads back from the text: before the first space for a non-empty
      collection, "No" for an empty one; the rest is the cardinalized noun. */
  lemma UnitLenReadsBack(count: nat, noun: string)
    ensures count == 0 ==> UnitLen(count, noun) == "No " + Pluralize(noun)
    ensures count > 0 ==> exists k ::
      && 0 < k < |UnitLen(count, noun)| && UnitLen(count, noun)[k] == ' '
      && AllDigits(UnitLen(count, noun)[..k]) && ParseDecimal(UnitLen(count, noun)[..k]) == count
      && UnitLen(count, noun)[k + 1..] == Cardinalize(noun, count)
  {
    if count > 0 {
      var d := Decimal(count);
      DecimalRoundTrip(count);
      DecimalShape(count);
      var r := UnitLen(count, noun);
      assert r[..|d|] == d;
      assert r[|d| + 1..] == Cardinalize(noun, count);
      assert 0 < |d| < |r| && r[|d|] == ' ';
    }
  }
}
