/** Word splitting of boltons/strutils.py: `split_punct_ws`, `slugify` (without the
    ASCII transliteration), `under2camel` and `camel2under`. */
module Words {
  import opened Text
  import opened Seqs

  /** Python 2 `string.punctuation` as the compiled class `_punct_re` sees it: the
      backslash escapes the following ']' and so is not itself a member. */
  const Punctuation: string := "!\"#$%&'()*+,-./:;<=>?@[]^_`{|}~"

  /** A member of the `_punct_re` character class: punctuation or whitespace. */
  predicate IsDelimiter(c: char) {
    IsSpace(c) || c in Punctuation
  }

  predicate Kept(c: char) {
    !IsDelimiter(c)
  }

  predicate NonEmptyWord(w: string) {
    w != ""
  }

  /** No character of `w` is a cut point. */
  predicate Clean(w: string, cut: char -> bool) {
    forall i :: 0 <= i < |w| ==> !cut(w[i])
  }

  /** Cut `s` at every character satisfying `cut`, keeping empty pieces, as `str.split`
      does with a one-character separator: n cuts give n + 1 pieces. */
  function SplitAt(s: string, cut: char -> bool): (r: seq<string>)
    ensures |r| >= 1
  {
    if |s| == 0 then [""]
    else
      var rest := SplitAt(s[1..], cut);
      if cut(s[0]) then [""] + rest else [[s[0]] + rest[0]] + rest[1..]
  }

  lemma {:induction false} SplitAtClean(s: string, cut: char -> bool)
    ensures forall k :: 0 <= k < |SplitAt(s, cut)| ==> Clean(SplitAt(s, cut)[k], cut)
  {
    if |s| > 0 {
      SplitAtClean(s[1..], cut);
    }
  }

  /** The pieces of `[h] + t`, from the pieces of `t`. */
  function Prepend(h: char, q: seq<string>, cut: char -> bool): seq<string>
    requires |q| >= 1
  {
    if cut(h) then [""] + q else [[h] + q[0]] + q[1..]
  }

  /** The pieces of `t + [c]`, from the pieces of `t`. */
  function Extend(p: seq<string>, c: char, cut: char -> bool): seq<string>
    requires |p| >= 1
  {
    if cut(c) then p + [""] else p[..|p| - 1] + [p[|p| - 1] + [c]]
  }

  lemma SplitAtCons(h: char, t: string, cut: char -> bool)
    ensures SplitAt([h] + t, cut) == Prepend(h, SplitAt(t, cut), cut)
  {
    assert ([h] + t)[1..] == t;
  }

  /** Adding a character at the front and one at the back commute. */
  lemma PrependExtend(h: char, q: seq<string>, c: char, cut: char -> bool)
    requires |q| >= 1
    ensures |Extend(q, c, cut)| >= 1 && |Prepend(h, q, cut)| >= 1
    ensures Prepend(h, Extend(q, c, cut), cut) == Extend(Prepend(h, q, cut), c, cut)
  {
    if !cut(h) && !cut(c) {
      if |q| == 1 {
        assert [h] + (q[0] + [c]) == ([h] + q[0]) + [c];
      } else {
        var e := Extend(q, c, cut);
        assert e[0] == q[0];
        assert e[1..] == q[1..][..|q| - 2] + [q[|q| - 1] + [c]];
      }
    } else if !cut(h) {
      var e := Extend(q, c, cut);
      assert e[0] == q[0];
      assert e[1..] == q[1..] + [""];
    }
  }

  /** Appending one character either opens a new piece or extends the last one. */
  lemma {:induction false} SplitAtSnoc(s: string, c: char, cut: char -> bool)
    ensures var p := SplitAt(s, cut);
      SplitAt(s + [c], cut)
        == if cut(c) then p + [""] else p[..|p| - 1] + [p[|p| - 1] + [c]]
  {
    if |s| == 0 {
      assert s + [c] == [c] + s;
      SplitAtCons(c, s, cut);
    } else {
      var t := s[1..];
      assert s == [s[0]] + t;
      assert s + [c] == [s[0]] + (t + [c]);
      SplitAtSnoc(t, c, cut);
      SplitAtCons(s[0], t, cut);
      SplitAtCons(s[0], t + [c], cut);
      PrependExtend(s[0], SplitAt(t, cut), c, cut);
    }
  }

  /** `split_punct_ws`: the non-empty runs between punctuation and whitespace. Splitting
      at every delimiter and dropping empty pieces is what splitting at maximal
      delimiter runs and dropping empty pieces gives. */
  function SplitPunctWs(text: string): (r: seq<string>)
    ensures forall k :: 0 <= k < |r| ==> r[k] != "" && Clean(r[k], IsDelimiter)
  {
    var pieces := SplitAt(text, IsDelimiter);
    SplitAtClean(text, IsDelimiter);
    FilterMembers(pieces, NonEmptyWord);
    var r := Filter(pieces, NonEmptyWord);
    assert forall k :: 0 <= k < |r| ==> r[k] != "" && Clean(r[k], IsDelimiter) by {
      forall k | 0 <= k < |r| ensures r[k] != "" && Clean(r[k], IsDelimiter) {
        assert r[k] in r;
        var j :| 0 <= j < |pieces| && pieces[j] == r[k];
      }
    }
    r
  }

  /** `''.join(parts)`, one part appended at a time. */
  lemma {:induction false} ConcatSnoc(parts: seq<string>, last: string)
    ensures Concat(parts + [last]) == Concat(parts) + last
  {
    if |parts| > 0 {
      assert (parts + [last])[1..] == parts[1..] + [last];
      ConcatSnoc(parts[1..], last);
    }
  }

  lemma {:induction false} ConcatDropsEmpty(parts: seq<string>)
    ensures Concat(Filter(parts, NonEmptyWord)) == Concat(parts)
  {
    if |parts| > 0 {
      var init, last := parts[..|parts| - 1], parts[|parts| - 1];
      ConcatDropsEmpty(init);
      assert parts == init + [last];
      ConcatSnoc(init, last);
      if last != "" {
        ConcatSnoc(Filter(init, NonEmptyWord), last);
      } else {
        assert !NonEmptyWord(last);
        calc {
          Concat(Filter(parts, NonEmptyWord));
          { assert Filter(parts, NonEmptyWord) == Filter(init, NonEmptyWord); }
          Concat(Filter(init, NonEmptyWord));
          Concat(init);
          { assert Concat(init) + last == Concat(init); }
          Concat(parts);
        }
      }
    }
  }

  lemma {:induction false} ConcatSplitAt(s: string, cut: char -> bool, keep: char -> bool)
    requires forall c :: keep(c) == !cut(c)
    ensures Concat(SplitAt(s, cut)) == Filter(s, keep)
  {
    if |s| > 0 {
      var init, c := s[..|s| - 1], s[|s| - 1];
      ConcatSplitAt(init, cut, keep);
      assert s == init + [c];
      SplitAtSnoc(init, c, cut);
      var p := SplitAt(init, cut);
      if cut(c) {
        ConcatSnoc(p, "");
      } else {
        assert p == p[..|p| - 1] + [p[|p| - 1]];
        ConcatSnoc(p[..|p| - 1], p[|p| - 1]);
        ConcatSnoc(p[..|p| - 1], p[|p| - 1] + [c]);
      }
    }
  }

  /** Nothing but the delimiters is lost: the words, run together, are the text with
      its punctuation and whitespace removed, in order. */
  lemma SplitPunctWsKeepsText(text: string)
    ensures Concat(SplitPunctWs(text)) == Filter(text, Kept)
  {
    ConcatDropsEmpty(SplitAt(text, IsDelimiter));
    ConcatSplitAt(text, IsDelimiter, Kept);
  }

  /** The same split as a single left-to-right scan with a word buffer. */
  method SplitPunctWsScan(text: string) returns (words: seq<string>)
    ensures words == SplitPunctWs(text)
  {
    words := [];
    var done: seq<string> := [];
    var cur := "";
    var i := 0;
    while i < |text|
      invariant 0 <= i <= |text|
      invariant SplitAt(text[..i], IsDelimiter) == done + [cur]
      invariant words == Filter(done, NonEmptyWord)
    {
      AroundIndex(text, i + 1);
      ScanStep(text[..i], text[i], done, cur);
      if IsDelimiter(text[i]) {
        FilterSnoc(done, cur, NonEmptyWord);
        if cur != "" {
          words := words + [cur];
        }
        done := done + [cur];
        cur := "";
      } else {
        cur := cur + [text[i]];
      }
      i := i + 1;
    }
    assert text[..i] == text;
    FilterSnoc(done, cur, NonEmptyWord);
    if cur != "" {
      words := words + [cur];
    }
  }

  /** One more character of input, in terms of the finished pieces and the open one. */
  lemma ScanStep(s: string, c: char, done: seq<string>, cur: string)
    requires SplitAt(s, IsDelimiter) == done + [cur]
    ensures SplitAt(s + [c], IsDelimiter)
      == if IsDelimiter(c) then done + [cur] + [""] else done + [cur + [c]]
  {
    SplitAtSnoc(s, c, IsDelimiter);
    SnocParts(done, cur);
  }

  /** A clean non-empty word, then a delimiter or the end, splits off as one word. */
  lemma WordsCons(a: string, b: string)
    requires a != "" && Clean(a, IsDelimiter) && (|b| == 0 || IsDelimiter(b[0]))
    ensures SplitPunctWs(a + b) == [a] + SplitPunctWs(if |b| == 0 then b else b[1..])
  {
    SplitAtPrefix(a, b, IsDelimiter);
    var p := SplitAt(b, IsDelimiter);
    if |b| > 0 {
      assert p == [""] + SplitAt(b[1..], IsDelimiter);
    }
    assert p[0] == "";
    assert a + p[0] == a;
    var q := [a + p[0]] + p[1..];
    FilterAppend([a + p[0]], p[1..], NonEmptyWord);
    assert Filter([a + p[0]], NonEmptyWord) == [a] by {
      assert [a + p[0]][..0] == [];
    }
    if |b| > 0 {
      FilterAppend([""], SplitAt(b[1..], IsDelimiter), NonEmptyWord);
      assert Filter([""], NonEmptyWord) == [] by {
        assert [""][..0] == [];
      }
    } else {
      assert p[1..] == [];
    }
  }

  /** A clean prefix merges into the first piece. */
  lemma {:induction false} SplitAtPrefix(a: string, b: string, cut: char -> bool)
    requires Clean(a, cut)
    ensures var p := SplitAt(b, cut); SplitAt(a + b, cut) == [a + p[0]] + p[1..]
  {
    if |a| > 0 {
      assert (a + b)[0] == a[0];
      assert (a + b)[1..] == a[1..] + b;
      assert !cut(a[0]);
      SplitAtPrefix(a[1..], b, cut);
      var p := SplitAt(b, cut);
      var q := SplitAt(a[1..] + b, cut);
      assert q == [a[1..] + p[0]] + p[1..];
      assert q[0] == a[1..] + p[0] && q[1..] == p[1..];
      assert [a[0]] + (a[1..] + p[0]) == a + p[0];
    } else {
      assert a + b == b;
      var p := SplitAt(b, cut);
      assert a == "";
      assert a + p[0] == p[0];
      assert p == [p[0]] + p[1..];
    }
  }

  /** Leading delimiters produce only empty pieces. */
  lemma {:induction false} WordsAfterDelimiters(d: string, b: string)
    requires forall i :: 0 <= i < |d| ==> IsDelimiter(d[i])
    ensures SplitPunctWs(d + b) == SplitPunctWs(b)
  {
    if |d| > 0 {
      assert (d + b)[1..] == d[1..] + b;
      WordsAfterDelimiters(d[1..], b);
      FilterAppend([""], SplitAt(d[1..] + b, IsDelimiter), NonEmptyWord);
      assert Filter([""], NonEmptyWord) == [] by {
        assert [""][..0] == [];
      }
    } else {
      assert d + b == b;
    }
  }

  /** Splitting undoes joining with a separator made only of delimiters. */
  lemma {:induction false} SplitJoin(ws: seq<string>, sep: string)
    requires |sep| > 0 && forall i :: 0 <= i < |sep| ==> IsDelimiter(sep[i])
    requires forall k :: 0 <= k < |ws| ==> ws[k] != "" && Clean(ws[k], IsDelimiter)
    ensures SplitPunctWs(Join(ws, sep)) == ws
  {
    if |ws| == 0 {
      assert SplitAt("", IsDelimiter) == [""];
      assert Filter([""], NonEmptyWord) == [] by {
        assert [""][..0] == [];
      }
    } else if |ws| == 1 {
      WordsCons(ws[0], "");
      assert ws[0] + "" == ws[0];
      assert SplitAt("", IsDelimiter) == [""];
      assert Filter([""], NonEmptyWord) == [] by {
        assert [""][..0] == [];
      }
    } else {
      var rest := Join(ws[1..], sep);
      SplitJoin(ws[1..], sep);
      assert Join(ws, sep) == ws[0] + (sep + rest);
      WordsCons(ws[0], sep + rest);
      assert (sep + rest)[1..] == sep[1..] + rest;
      WordsAfterDelimiters(sep[1..], rest);
      assert ws == [ws[0]] + ws[1..];
    }
  }

  /** Every character is punctuation or whitespace. */
  predicate Delimiters(s: string) {
    forall i :: 0 <= i < |s| ==> IsDelimiter(s[i])
  }

  /** Each word followed by its own run of delimiters: `ws[0] + seps[0] + ws[1] + ...`. */
  function Spaced(ws: seq<string>, seps: seq<string>): string
    requires |seps| == |ws|
  {
    if |ws| == 0 then "" else ws[0] + seps[0] + Spaced(ws[1..], seps[1..])
  }

  /** Splitting gives the words back whatever delimiter runs surround them: any run
      before the first, a non-empty run of its own between each two, any run after the
      last. `'First post! Hi!!!!~1    '` is such a text, with runs `" "`, `"! "`,
      `"!!!!~"` and `"    "`. */
  lemma {:induction false} SplitSpaced(lead: string, ws: seq<string>, seps: seq<string>)
    requires |seps| == |ws| && Delimiters(lead)
    requires forall k :: 0 <= k < |ws| ==> ws[k] != "" && Clean(ws[k], IsDelimiter) && Delimiters(seps[k])
    requires forall k :: 0 <= k < |ws| - 1 ==> seps[k] != ""
    ensures SplitPunctWs(lead + Spaced(ws, seps)) == ws
    decreases |ws|
  {
    var body := Spaced(ws, seps);
    WordsAfterDelimiters(lead, body);
    if |ws| == 0 {
      NoWords();
    } else {
      var rest := Spaced(ws[1..], seps[1..]);
      var b := seps[0] + rest;
      assert body == ws[0] + b;
      if |ws| == 1 {
        assert rest == "";
        assert b == seps[0];
        if |b| > 0 {
          WordsCons(ws[0], b);
          WordsAfterDelimiters(b[1..], "");
          assert b[1..] + "" == b[1..];
        } else {
          WordsCons(ws[0], b);
        }
        NoWords();
      } else {
        assert seps[0] != "" && IsDelimiter(b[0]);
        WordsCons(ws[0], b);
        assert b[1..] == seps[0][1..] + rest;
        SplitSpaced(seps[0][1..], ws[1..], seps[1..]);
      }
      assert ws == [ws[0]] + ws[1..];
    }
  }

  /** The docstring instance of `split_punct_ws`. */
  lemma SplitPunctWsExample()
    ensures SplitPunctWs("First post! Hi!!!!~1    ") == ["First", "post", "Hi", "1"]
  {
    var ws := ["First", "post", "Hi", "1"];
    var seps := [" ", "! ", "!!!!~", "    "];
    ExampleSpaced();
    ExampleParts();
    SplitSpaced("", ws, seps);
  }

  lemma ExampleSpaced()
    ensures "" + Spaced(["First", "post", "Hi", "1"], [" ", "! ", "!!!!~", "    "]) == "First post! Hi!!!!~1    "
  {
    var ws := ["First", "post", "Hi", "1"];
    var seps := [" ", "! ", "!!!!~", "    "];
    assert Spaced(ws[4..], seps[4..]) == "";
    assert Spaced(ws[3..], seps[3..]) == "1    ";
    assert Spaced(ws[2..], seps[2..]) == "Hi!!!!~1    ";
    assert Spaced(ws[1..], seps[1..]) == "post! Hi!!!!~1    ";
  }

  lemma ExampleParts()
    ensures var ws := ["First", "post", "Hi", "1"]; var seps := [" ", "! ", "!!!!~", "    "];
      forall k :: 0 <= k < |ws| ==> ws[k] != "" && Clean(ws[k], IsDelimiter) && Delimiters(seps[k]) && seps[k] != ""
  {
    KeptWord("First");
    KeptWord("post");
    KeptWord("Hi");
    KeptWord("1");
  }

  lemma KeptWord(w: string)
    requires forall i :: 0 <= i < |w| ==> ('a' <= w[i] <= 'z' || 'A' <= w[i] <= 'Z' || '0' <= w[i] <= '9')
    ensures Clean(w, IsDelimiter)
  {
  }

  /** The empty text has no words. */
  lemma NoWords()
    ensures SplitPunctWs("") == []
  {
    assert SplitAt("", IsDelimiter) == [""];
    assert Filter([""], NonEmptyWord) == [] by {
      assert [""][..0] == [];
    }
  }

  /** `str.lower()` applied to each word. */
  function LowerAll(ws: seq<string>): (r: seq<string>)
    ensures |r| == |ws| && forall k :: 0 <= k < |ws| ==> r[k] == Lower(ws[k])
  {
    seq(|ws|, k requires 0 <= k < |ws| => Lower(ws[k]))
  }

  lemma LowerAppend(a: string, b: string)
    ensures Lower(a + b) == Lower(a) + Lower(b)
  {
  }

  /** Lower-casing a joined string lower-cases the parts and the separator. */
  lemma {:induction false} LowerJoin(ws: seq<string>, sep: string)
    ensures Lower(Join(ws, sep)) == Join(LowerAll(ws), Lower(sep))
  {
    if |ws| > 1 {
      LowerJoin(ws[1..], sep);
      LowerAppend(ws[0] + sep, Join(ws[1..], sep));
      LowerAppend(ws[0], sep);
      assert LowerAll(ws[1..]) == LowerAll(ws)[1..];
    }
  }

  lemma DelimiterNotUpper(c: char)
    requires IsDelimiter(c)
    ensures !IsUpperChar(c) && ToLowerChar(c) == c
  {
  }

  lemma LowerKeepsWord(w: string)
    requires w != "" && Clean(w, IsDelimiter)
    ensures Lower(w) != "" && Clean(Lower(w), IsDelimiter)
  {
    forall i | 0 <= i < |w| ensures !IsDelimiter(Lower(w)[i]) {
      if IsUpperChar(w[i]) {
        assert IsLowerChar(Lower(w)[i]);
      }
    }
  }

  /** `slugify(text, delim, lower)` with `ascii=False`: the words of `text` joined
      by `delim`, lower-cased on request. */
  function Slugify(text: string, delim: string, lower: bool): (r: string)
    ensures lower ==> HasNoUpper(r)
  {
    var joined := Join(SplitPunctWs(text), delim);
    if lower then Lower(joined) else joined
  }

  /** A delimiter made of punctuation or whitespace: the slug splits back into the
      words of the text, lower-cased when `lower` is set. */
  lemma SlugifyWords(text: string, delim: string, lower: bool)
    requires |delim| > 0 && forall i :: 0 <= i < |delim| ==> IsDelimiter(delim[i])
    ensures SplitPunctWs(Slugify(text, delim, lower))
      == if lower then LowerAll(SplitPunctWs(text)) else SplitPunctWs(text)
  {
    var ws := SplitPunctWs(text);
    if lower {
      LowerJoin(ws, delim);
      forall i | 0 <= i < |delim| ensures Lower(delim)[i] == delim[i] {
        DelimiterNotUpper(delim[i]);
      }
      assert Lower(delim) == delim;
      forall k | 0 <= k < |ws| ensures LowerAll(ws)[k] != "" && Clean(LowerAll(ws)[k], IsDelimiter) {
        LowerKeepsWord(ws[k]);
      }
      SplitJoin(LowerAll(ws), delim);
    } else {
      SplitJoin(ws, delim);
    }
  }

  /** Slugifying a slug changes nothing when the delimiter is punctuation or whitespace. */
  lemma SlugifyIdempotent(text: string, delim: string, lower: bool)
    requires |delim| > 0 && forall i :: 0 <= i < |delim| ==> IsDelimiter(delim[i])
    ensures Slugify(Slugify(text, delim, lower), delim, lower) == Slugify(text, delim, lower)
  {
    SlugifyWords(text, delim, lower);
    var ws := SplitPunctWs(text);
    if lower {
      LowerJoin(ws, delim);
      forall i | 0 <= i < |delim| ensures Lower(delim)[i] == delim[i] {
        DelimiterNotUpper(delim[i]);
      }
      assert Lower(delim) == delim;
      LowerIdempotent(Join(ws, delim));
    }
  }

  predicate IsUnderscore(c: char) {
    c == '_'
  }

  predicate NotUnderscore(c: char) {
    c != '_'
  }

  /** Position `i` of `s` matches `_camel2under_re`: an upper-case letter after a
      lower-case letter or digit, or an upper-case letter not at the start and
      followed by a lower-case letter. Both look-arounds read the original string. */
  predicate Boundary(s: string, i: nat)
    requires i < |s|
  {
    IsUpperChar(s[i])
    && i > 0
    && (IsLowerChar(s[i - 1]) || IsDigitChar(s[i - 1]) || (i + 1 < |s| && IsLowerChar(s[i + 1])))
  }

  /** The first `n` characters of `s` after `re.sub(r'_\1', ...)`: an underscore goes
      in front of every boundary. */
  function Underscored(s: string, n: nat): string
    requires n <= |s|
  {
    if n == 0 then ""
    else Underscored(s, n - 1) + (if Boundary(s, n - 1) then "_" else "") + [s[n - 1]]
  }

  /** `camel2under`. */
  function Camel2Under(s: string): (r: string)
    ensures HasNoUpper(r)
  {
    Lower(Underscored(s, |s|))
  }

  lemma {:induction false} UnderscoredDropsInserted(s: string, n: nat)
    requires n <= |s|
    ensures Filter(Underscored(s, n), NotUnderscore) == Filter(s[..n], NotUnderscore)
  {
    if n > 0 {
      UnderscoredDropsInserted(s, n - 1);
      DropMid(Underscored(s, n - 1), if Boundary(s, n - 1) then "_" else "", s[n - 1]);
      AroundIndex(s, n);
      FilterSnoc(s[..n - 1], s[n - 1], NotUnderscore);
    }
  }

  /** An inserted underscore between a prefix and the next character is filtered out. */
  lemma DropMid(u: string, mid: string, c: char)
    requires mid == "" || mid == "_"
    ensures Filter(u + mid + [c], NotUnderscore) == Filter(u, NotUnderscore) + (if NotUnderscore(c) then [c] else [])
  {
    FilterSnoc(u + mid, c, NotUnderscore);
    if mid == "_" {
      FilterSnoc(u, '_', NotUnderscore);
    } else {
      assert u + mid == u;
    }
  }

  lemma {:induction false} LowerFilterUnderscore(s: string)
    ensures Filter(Lower(s), NotUnderscore) == Lower(Filter(s, NotUnderscore))
  {
    if |s| > 0 {
      var init, c := s[..|s| - 1], s[|s| - 1];
      LowerFilterUnderscore(init);
      AroundIndex(s, |s|);
      LowerAppend(init, [c]);
      assert Lower([c]) == [ToLowerChar(c)];
      assert NotUnderscore(ToLowerChar(c)) == NotUnderscore(c);
      assert Lower(s) == Lower(init) + [ToLowerChar(c)];
      FilterSnoc(Lower(init), ToLowerChar(c), NotUnderscore);
      FilterSnoc(init, c, NotUnderscore);
      if NotUnderscore(c) {
        LowerAppend(Filter(init, NotUnderscore), [c]);
      } else {
        assert Filter(init, NotUnderscore) + [] == Filter(init, NotUnderscore);
      }
    }
  }

  /** `camel2under` only inserts underscores and lower-cases: with every underscore
      removed, the result is the lower-cased input with every underscore removed. */
  lemma Camel2UnderOnlyInserts(s: string)
    ensures Filter(Camel2Under(s), NotUnderscore) == Filter(Lower(s), NotUnderscore)
  {
    UnderscoredDropsInserted(s, |s|);
    assert s[..|s|] == s;
    LowerFilterUnderscore(Underscored(s, |s|));
    LowerFilterUnderscore(s);
  }

  /** `w.capitalize() or '_'` for each piece of `under_string.split('_')`. */
  function CamelPieces(ws: seq<string>): (r: seq<string>)
    ensures |r| == |ws|
    ensures forall k :: 0 <= k < |ws| ==> r[k] == if ws[k] == "" then "_" else Capitalize(ws[k])
  {
    seq(|ws|, k requires 0 <= k < |ws| => if ws[k] == "" then "_" else Capitalize(ws[k]))
  }

  /** `under2camel`. */
  function Under2Camel(s: string): string {
    Concat(CamelPieces(SplitAt(s, IsUnderscore)))
  }

  /** `sep.join` with one more part. */
  lemma {:induction false} JoinSnoc(ws: seq<string>, w: string, sep: string)
    requires |ws| > 0
    ensures Join(ws + [w], sep) == Join(ws, sep) + sep + w
  {
    if |ws| > 1 {
      assert (ws + [w])[1..] == ws[1..] + [w];
      JoinSnoc(ws[1..], w, sep);
    }
  }

  lemma {:induction false} ConcatAppend(a: seq<string>, b: seq<string>)
    ensures Concat(a + b) == Concat(a) + Concat(b)
  {
    if |a| > 0 {
      assert (a + b)[1..] == a[1..] + b;
      ConcatAppend(a[1..], b);
    } else {
      assert a + b == b;
    }
  }

  /** Splitting at a one-character separator undoes joining with it. */
  lemma {:induction false} SplitAtJoin(ws: seq<string>, c: char, cut: char -> bool)
    requires |ws| > 0 && cut(c)
    requires forall k :: 0 <= k < |ws| ==> Clean(ws[k], cut)
    ensures SplitAt(Join(ws, [c]), cut) == ws
  {
    if |ws| == 1 {
      SplitAtPrefix(ws[0], "", cut);
      assert ws[0] + "" == ws[0];
    } else {
      var rest := Join(ws[1..], [c]);
      SplitAtJoin(ws[1..], c, cut);
      assert Join(ws, [c]) == ws[0] + ([c] + rest);
      SplitAtPrefix(ws[0], [c] + rest, cut);
      assert ([c] + rest)[1..] == rest;
      assert ws[0] + "" == ws[0];
      assert ws == [ws[0]] + ws[1..];
    }
  }

  /** A snake-case word: a lower-case letter, then lower-case letters and digits. */
  predicate SnakeWord(w: string) {
    |w| > 0 && IsLowerChar(w[0])
    && forall i :: 0 <= i < |w| ==> IsLowerChar(w[i]) || IsDigitChar(w[i])
  }

  /** An identifier `under2camel` and `camel2under` agree on: snake-case words joined
      by single underscores, every word but the last at least two characters long
      (a one-letter word would become an upper-case letter followed by another one,
      which `_camel2under_re` does not split). */
  predicate SnakeParts(ps: seq<string>) {
    |ps| > 0
    && (forall k :: 0 <= k < |ps| ==> SnakeWord(ps[k]))
    && forall k :: 0 <= k < |ps| - 1 ==> |ps[k]| >= 2
  }

  /** No boundary inside a stretch of `s`: the stretch is copied unchanged. */
  lemma {:induction false} UnderscoredPlain(s: string, n: nat, m: nat)
    requires n <= m <= |s|
    requires forall i :: n <= i < m ==> !Boundary(s, i)
    ensures Underscored(s, m) == Underscored(s, n) + s[n..m]
    decreases m
  {
    if m > n {
      UnderscoredPlain(s, n, m - 1);
      assert s[n..m] == s[n..m - 1] + [s[m - 1]];
    }
  }

  lemma CapitalizedSnake(w: string)
    requires SnakeWord(w)
    ensures var c := Capitalize(w);
      IsUpperChar(c[0])
      && (forall j :: 1 <= j < |c| ==> !IsUpperChar(c[j]))
      && (|w| >= 2 ==> IsLowerChar(c[|c| - 1]) || IsDigitChar(c[|c| - 1]))
  {
  }

  /** One capitalised word at offset `lo`: an underscore goes in front of it unless
      it starts the string, and nowhere inside it. */
  lemma PieceStep(c: string, lo: nat, piece: string)
    requires |piece| > 0 && lo + |piece| <= |c| && c[lo..lo + |piece|] == piece
    requires IsUpperChar(piece[0]) && forall j :: 1 <= j < |piece| ==> !IsUpperChar(piece[j])
    requires lo > 0 ==> IsLowerChar(c[lo - 1]) || IsDigitChar(c[lo - 1])
    ensures Underscored(c, lo + |piece|) == Underscored(c, lo) + (if lo == 0 then "" else "_") + piece
  {
    var hi := lo + |piece|;
    PieceHead(c, lo);
    PieceInside(c, lo, piece);
    UnderscoredPlain(c, lo + 1, hi);
    assert c[lo + 1..hi] == piece[1..];
    assert [c[lo]] + piece[1..] == piece;
    assert Underscored(c, lo) + (if lo == 0 then "" else "_") + [c[lo]] + piece[1..]
      == Underscored(c, lo) + (if lo == 0 then "" else "_") + piece;
  }

  /** The capital that starts a word gets an underscore unless it starts the string. */
  lemma PieceHead(c: string, lo: nat)
    requires lo < |c| && IsUpperChar(c[lo])
    requires lo > 0 ==> IsLowerChar(c[lo - 1]) || IsDigitChar(c[lo - 1])
    ensures Underscored(c, lo + 1) == Underscored(c, lo) + (if lo == 0 then "" else "_") + [c[lo]]
  {
    assert Boundary(c, lo) <==> lo > 0;
  }

  /** No boundary inside a word with no capital after its first letter. */
  lemma PieceInside(c: string, lo: nat, piece: string)
    requires |piece| > 0 && lo + |piece| <= |c| && c[lo..lo + |piece|] == piece
    requires forall j :: 1 <= j < |piece| ==> !IsUpperChar(piece[j])
    ensures forall i :: lo + 1 <= i < lo + |piece| ==> !Boundary(c, i)
  {
    forall i | lo + 1 <= i < lo + |piece| ensures !Boundary(c, i) {
      assert c[i] == piece[i - lo];
    }
  }

  /** Where the `k`-th piece sits in the concatenation. */
  lemma ConcatAround(cs: seq<string>, k: nat)
    requires 1 <= k <= |cs|
    ensures Concat(cs) == Concat(cs[..k - 1]) + cs[k - 1] + Concat(cs[k..])
    ensures Concat(cs[..k]) == Concat(cs[..k - 1]) + cs[k - 1]
  {
    AroundIndex(cs, k);
    ConcatSplice(cs[..k - 1], cs[k - 1], cs[k..]);
  }

  lemma ConcatSplice(a: seq<string>, x: string, b: seq<string>)
    ensures Concat(a + [x]) == Concat(a) + x
    ensures Concat(a + [x] + b) == Concat(a) + x + Concat(b)
  {
    ConcatSnoc(a, x);
    ConcatAppend(a + [x], b);
  }

  /** A capitalised word: an upper-case letter, then no upper-case letter. */
  predicate CamelWord(w: string) {
    |w| > 0 && IsUpperChar(w[0]) && forall j :: 1 <= j < |w| ==> !IsUpperChar(w[j])
  }

  /** Words whose concatenation `_camel2under_re` splits exactly at the joins: each
      word is capitalised and every word but the last ends in a lower-case letter or
      digit. */
  predicate CamelParts(cs: seq<string>) {
    (forall k :: 0 <= k < |cs| ==> CamelWord(cs[k]))
    && forall k :: 0 <= k < |cs| - 1 ==> |cs[k]| > 0 && SoftEnd(cs[k])
  }

  predicate SoftEnd(w: string)
    requires |w| > 0
  {
    IsLowerChar(w[|w| - 1]) || IsDigitChar(w[|w| - 1])
  }

  /** The first `k` words, as a prefix of the whole concatenation, come back joined
      by underscores. */
  lemma {:induction false} UnderscoredCamel(cs: seq<string>, k: nat)
    requires CamelParts(cs) && 1 <= k <= |cs|
    ensures |Concat(cs[..k])| <= |Concat(cs)|
    ensures Underscored(Concat(cs), |Concat(cs[..k])|) == Join(cs[..k], "_")
  {
    if k == 1 {
      UnderscoredCamelFirst(cs);
    } else {
      UnderscoredCamel(cs, k - 1);
      UnderscoredCamelNext(cs, k);
    }
  }

  lemma UnderscoredCamelFirst(cs: seq<string>)
    requires CamelParts(cs) && 1 <= |cs|
    ensures |Concat(cs[..1])| <= |Concat(cs)|
    ensures Underscored(Concat(cs), |Concat(cs[..1])|) == Join(cs[..1], "_")
  {
    var c := Concat(cs);
    var piece := cs[0];
    assert CamelWord(piece);
    assert Concat(cs[..1]) == piece && c[..|piece|] == piece by {
      ConcatAround(cs, 1);
      assert cs[..0] == [];
    }
    PieceStep(c, 0, piece);
    assert cs[..1] == [piece];
  }

  lemma UnderscoredCamelNext(cs: seq<string>, k: nat)
    requires CamelParts(cs) && 2 <= k <= |cs|
    requires |Concat(cs[..k - 1])| <= |Concat(cs)|
    requires Underscored(Concat(cs), |Concat(cs[..k - 1])|) == Join(cs[..k - 1], "_")
    ensures |Concat(cs[..k])| <= |Concat(cs)|
    ensures Underscored(Concat(cs), |Concat(cs[..k])|) == Join(cs[..k], "_")
  {
    var piece := cs[k - 1];
    assert CamelWord(piece);
    PieceAt(cs, k);
    PrevEnd(cs, k);
    PieceStep(Concat(cs), |Concat(cs[..k - 1])|, piece);
    AroundIndex(cs, k);
    JoinSnoc(cs[..k - 1], piece, "_");
  }

  /** The `k`-th word sits in the concatenation right after the words before it. */
  lemma PieceAt(cs: seq<string>, k: nat)
    requires 1 <= k <= |cs|
    ensures var h := |Concat(cs[..k - 1])|;
      && |Concat(cs[..k])| == h + |cs[k - 1]| <= |Concat(cs)|
      && Concat(cs)[h..h + |cs[k - 1]|] == cs[k - 1]
  {
    ConcatAround(cs, k);
    SliceMiddle(Concat(cs[..k - 1]), cs[k - 1], Concat(cs[k..]));
  }

  /** Before the `k`-th word, for `k >= 2`, the previous word's soft end. */
  lemma PrevEnd(cs: seq<string>, k: nat)
    requires CamelParts(cs) && 2 <= k <= |cs|
    ensures var h := |Concat(cs[..k - 1])|;
      && 0 < h <= |Concat(cs)|
      && (IsLowerChar(Concat(cs)[h - 1]) || IsDigitChar(Concat(cs)[h - 1]))
  {
    var prev := cs[k - 2];
    assert |prev| > 0 && SoftEnd(prev);
    PieceAt(cs, k - 1);
    PieceAt(cs, k);
    var h0 := |Concat(cs[..k - 2])|;
    assert Concat(cs)[h0 + |prev| - 1] == Concat(cs)[h0..h0 + |prev|][|prev| - 1];
  }

  lemma CamelPiecesOfSnake(ps: seq<string>)
    requires SnakeParts(ps)
    ensures CamelParts(CamelPieces(ps))
  {
    var cs := CamelPieces(ps);
    forall k | 0 <= k < |ps| ensures CamelWord(cs[k]) && (k < |ps| - 1 ==> SoftEnd(cs[k])) {
      assert cs[k] == Capitalize(ps[k]);
      CapitalizedSnake(ps[k]);
    }
  }

  lemma LowerCamelPieces(ps: seq<string>)
    requires forall k :: 0 <= k < |ps| ==> SnakeWord(ps[k])
    ensures LowerAll(CamelPieces(ps)) == ps
  {
    forall k | 0 <= k < |ps| ensures LowerAll(CamelPieces(ps))[k] == ps[k] {
      LowerOfCaseChange(ps[k]);
      LowerFixedIffNoUpper(ps[k]);
    }
  }

  lemma Under2CamelOfSnake(ps: seq<string>)
    requires SnakeParts(ps)
    ensures Under2Camel(Join(ps, "_")) == Concat(CamelPieces(ps))
  {
    forall k | 0 <= k < |ps| ensures Clean(ps[k], IsUnderscore) {
    }
    SplitAtJoin(ps, '_', IsUnderscore);
  }

  /** The two conversions are inverse on snake-case identifiers. */
  lemma UnderCamelRoundTrip(ps: seq<string>)
    requires SnakeParts(ps)
    ensures Camel2Under(Under2Camel(Join(ps, "_"))) == Join(ps, "_")
  {
    var cs := CamelPieces(ps);
    var c := Concat(cs);
    assert Under2Camel(Join(ps, "_")) == c by {
      Under2CamelOfSnake(ps);
    }
    assert Underscored(c, |c|) == Join(cs, "_") by {
      CamelPiecesOfSnake(ps);
      UnderscoredCamel(cs, |ps|);
      assert cs[..|ps|] == cs;
    }
    assert Lower(Join(cs, "_")) == Join(ps, "_") by {
      LowerJoin(cs, "_");
      LowerCamelPieces(ps);
      assert Lower("_") == "_";
    }
  }
}
