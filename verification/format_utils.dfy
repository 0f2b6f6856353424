/** Format-string helpers of boltons/formatutils.py: building a replacement field
    from its parts, and numbering the anonymous positional fields of a template. */
module FormatUtils {
  import opened Wrappers
  import opened Text

  /** `construct_format_field_str(fname, fspec, conv)`. An absent name gives the empty
      string; an empty conversion or spec is left out, as a false value is. */
  function ConstructFieldStr(fname: Option<string>, fspec: string, conv: string): (r: string)
    ensures fname.None? <==> r == ""
    ensures fname.Some? ==> |r| >= 2 && r[0] == '{' && r[|r| - 1] == '}'
  {
    match fname
    case None => ""
    case Some(name) =>
      "{" + name + (if conv != "" then "!" + conv else "") + (if fspec != "" then ":" + fspec else "") + "}"
  }

  /** Index of the first character of `s` in `stops`, or `|s|`. */
  function IndexOfAny(s: string, stops: string): (r: nat)
    ensures r <= |s|
    ensures forall i :: 0 <= i < r ==> s[i] !in stops
    ensures r < |s| ==> s[r] in stops
  {
    if |s| == 0 then 0
    else if s[0] in stops then 0
    else 1 + IndexOfAny(s[1..], stops)
  }

  /** Reads a replacement field back into `(fname, fspec, conv)`: the name runs to the
      first '!' or ':', a conversion after '!' runs to the first ':', the spec is the
      rest. */
  function ParseField(t: string): Option<(string, string, string)> {
    if |t| < 2 || t[0] != '{' || t[|t| - 1] != '}' then None
    else Some(ParseInner(t[1..|t| - 1]))
  }

  function ParseInner(inner: string): (string, string, string) {
    var a := IndexOfAny(inner, "!:");
    var name := inner[..a];
    if a == |inner| then (name, "", "")
    else if inner[a] == ':' then (name, inner[a + 1..], "")
    else
      var rest := inner[a + 1..];
      var b := IndexOfAny(rest, ":");
      (name, if b < |rest| then rest[b + 1..] else "", rest[..b])
  }

  lemma IndexOfAnyIs(s: string, stops: string, k: nat)
    requires k <= |s| && (forall i :: 0 <= i < k ==> s[i] !in stops) && (k < |s| ==> s[k] in stops)
    ensures IndexOfAny(s, stops) == k
  {
  }

  predicate Avoids(s: string, stops: string) {
    forall i :: 0 <= i < |s| ==> s[i] !in stops
  }

  lemma IndexOfAnyAfter(a: string, b: string, stops: string)
    requires Avoids(a, stops) && |b| > 0 && b[0] in stops
    ensures IndexOfAny(a + b, stops) == |a| && (a + b)[..|a|] == a
  {
    IndexOfAnyIs(a + b, stops, |a|);
  }

  lemma IndexOfAnyNone(a: string, stops: string)
    requires Avoids(a, stops)
    ensures IndexOfAny(a, stops) == |a|
  {
    IndexOfAnyIs(a, stops, |a|);
  }

  /** A field built from a name without '!' or ':' and a conversion without ':' reads
      back as the parts it was built from. */
  lemma FieldRoundTrip(fname: string, fspec: string, conv: string)
    requires Avoids(fname, "!:") && Avoids(conv, ":")
    ensures ParseField(ConstructFieldStr(Some(fname), fspec, conv)) == Some((fname, fspec, conv))
  {
    ParseConstructed(fname, fspec, conv);
    ParseTail(fname, fspec, conv);
  }

  /** The parts after the name: `'!' + conv` and `':' + fspec` when present. */
  function FieldTail(fspec: string, conv: string): string {
    (if conv != "" then "!" + conv else "") + (if fspec != "" then ":" + fspec else "")
  }

  lemma ParseConstructed(fname: string, fspec: string, conv: string)
    ensures ParseField(ConstructFieldStr(Some(fname), fspec, conv)) == Some(ParseInner(fname + FieldTail(fspec, conv)))
  {
    var t := ConstructFieldStr(Some(fname), fspec, conv);
    var inner := fname + FieldTail(fspec, conv);
    assert t == "{" + inner + "}";
    assert t[1..|t| - 1] == inner;
  }

  lemma ParseTail(fname: string, fspec: string, conv: string)
    requires Avoids(fname, "!:") && Avoids(conv, ":")
    ensures ParseInner(fname + FieldTail(fspec, conv)) == (fname, fspec, conv)
  {
    var tail := FieldTail(fspec, conv);
    if tail == "" {
      IndexOfAnyNone(fname, "!:");
      assert fname + tail == fname;
      assert fname[..|fname|] == fname;
    } else if conv == "" {
      assert tail == ":" + fspec;
      InnerSpec(fname, fspec);
    } else if fspec == "" {
      assert tail == "!" + conv;
      InnerConv(fname, conv);
    } else {
      assert tail == "!" + conv + (":" + fspec);
      InnerBoth(fname, fspec, conv);
    }
  }

  lemma InnerSpec(fname: string, fspec: string)
    requires Avoids(fname, "!:") && fspec != ""
    ensures ParseInner(fname + (":" + fspec)) == (fname, fspec, "")
  {
    IndexOfAnyAfter(fname, ":" + fspec, "!:");
    assert (fname + (":" + fspec))[|fname| + 1..] == fspec;
  }

  lemma InnerConv(fname: string, conv: string)
    requires Avoids(fname, "!:") && Avoids(conv, ":") && conv != ""
    ensures ParseInner(fname + ("!" + conv)) == (fname, "", conv)
  {
    IndexOfAnyAfter(fname, "!" + conv, "!:");
    assert (fname + ("!" + conv))[|fname| + 1..] == conv;
    IndexOfAnyNone(conv, ":");
    assert conv[..|conv|] == conv;
  }

  lemma InnerBoth(fname: string, fspec: string, conv: string)
    requires Avoids(fname, "!:") && Avoids(conv, ":") && conv != "" && fspec != ""
    ensures ParseInner(fname + ("!" + conv + (":" + fspec))) == (fname, fspec, conv)
  {
    var inner := fname + ("!" + conv + (":" + fspec));
    IndexOfAnyAfter(fname, "!" + conv + (":" + fspec), "!:");
    var rest := inner[|fname| + 1..];
    assert rest == conv + (":" + fspec);
    IndexOfAnyAfter(conv, ":" + fspec, ":");
    assert rest[|conv| + 1..] == fspec;
  }

  /** The characters that, right after '{', make an anonymous positional field. */
  const FieldChars: string := ":!.[}"

  predicate EscapedBrace(a: char, b: char) {
    (a == '{' && b == '{') || (a == '}' && b == '}')
  }

  /** The output of `infer_positional_format_args` for the text still to scan, with
      `n` anonymous fields numbered so far. At each position the alternatives of
      `_pos_farg_re` are tried in order: an escaped brace is copied, an anonymous
      field gets its number, and anything else is copied a character at a time. */
  function Infer(s: string, n: nat): (r: string)
    ensures |r| >= |s|
    decreases |s|
  {
    if |s| == 0 then ""
    else if |s| >= 2 && EscapedBrace(s[0], s[1]) then s[..2] + Infer(s[2..], n)
    else if |s| >= 2 && s[0] == '{' && s[1] in FieldChars then
      DecimalShape(n);
      "{" + Decimal(n) + [s[1]] + Infer(s[2..], n + 1)
    else [s[0]] + Infer(s[1..], n)
  }

  function InferPositionalFormatArgs(fstr: string): string {
    Infer(fstr, 0)
  }

  /** The `finditer` loop: text between matches is copied from `prev_end`, escaped
      braces are copied, and each anonymous field is numbered from `max_anon`. */
  method InferLoop(fstr: string) returns (ret: string)
    ensures ret == InferPositionalFormatArgs(fstr)
  {
    ret := "";
    var maxAnon := 0;
    var prevEnd := 0;
    var i := 0;
    while i < |fstr|
      invariant 0 <= prevEnd <= i <= |fstr|
      invariant ret + fstr[prevEnd..i] + Infer(fstr[i..], maxAnon) == Infer(fstr, 0)
      decreases |fstr| - i
    {
      if i + 1 < |fstr| && EscapedBrace(fstr[i], fstr[i + 1]) {
        StepEscape(fstr, ret, prevEnd, i, maxAnon);
        ret := ret + fstr[prevEnd..i] + fstr[i..i + 2];
        prevEnd, i := i + 2, i + 2;
      } else if i + 1 < |fstr| && fstr[i] == '{' && fstr[i + 1] in FieldChars {
        StepField(fstr, ret, prevEnd, i, maxAnon);
        ret := ret + fstr[prevEnd..i] + ("{" + Decimal(maxAnon) + [fstr[i + 1]]);
        maxAnon := maxAnon + 1;
        prevEnd, i := i + 2, i + 2;
      } else {
        StepCopy(fstr, ret, prevEnd, i, maxAnon);
        i := i + 1;
      }
    }
    StepEnd(fstr, ret, prevEnd, maxAnon);
    ret := ret + fstr[prevEnd..];
  }

  /** An escaped brace is copied together with the text before it. */
  lemma StepEscape(fstr: string, ret: string, prevEnd: nat, i: nat, n: nat)
    requires prevEnd <= i && i + 1 < |fstr| && EscapedBrace(fstr[i], fstr[i + 1])
    ensures ret + fstr[prevEnd..i] + Infer(fstr[i..], n)
      == (ret + fstr[prevEnd..i] + fstr[i..i + 2]) + fstr[i + 2..i + 2] + Infer(fstr[i + 2..], n)
  {
    var s := fstr[i..];
    assert s[..2] == fstr[i..i + 2] && s[2..] == fstr[i + 2..];
    InferEscape(s, n);
    assert fstr[i + 2..i + 2] == "";
  }

  /** An anonymous field is numbered and copied together with the text before it. */
  lemma StepField(fstr: string, ret: string, prevEnd: nat, i: nat, n: nat)
    requires prevEnd <= i && i + 1 < |fstr| && fstr[i] == '{' && fstr[i + 1] in FieldChars
    ensures ret + fstr[prevEnd..i] + Infer(fstr[i..], n)
      == (ret + fstr[prevEnd..i] + ("{" + Decimal(n) + [fstr[i + 1]])) + fstr[i + 2..i + 2] + Infer(fstr[i + 2..], n + 1)
  {
    var s := fstr[i..];
    assert s == "{" + [fstr[i + 1]] + fstr[i + 2..];
    InferField(fstr[i + 1], fstr[i + 2..], n);
    assert fstr[i + 2..i + 2] == "";
  }

  /** Any other character stays in the pending text. */
  lemma StepCopy(fstr: string, ret: string, prevEnd: nat, i: nat, n: nat)
    requires prevEnd <= i < |fstr|
    requires !(i + 1 < |fstr| && EscapedBrace(fstr[i], fstr[i + 1]))
    requires !(i + 1 < |fstr| && fstr[i] == '{' && fstr[i + 1] in FieldChars)
    ensures ret + fstr[prevEnd..i] + Infer(fstr[i..], n) == ret + fstr[prevEnd..i + 1] + Infer(fstr[i + 1..], n)
  {
    var s := fstr[i..];
    assert s[1..] == fstr[i + 1..];
    InferCopy(s, n);
    assert fstr[prevEnd..i + 1] == fstr[prevEnd..i] + [fstr[i]];
  }

  /** At the end the pending text is all that is left. */
  lemma StepEnd(fstr: string, ret: string, prevEnd: nat, n: nat)
    requires prevEnd <= |fstr|
    ensures ret + fstr[prevEnd..|fstr|] + Infer(fstr[|fstr|..], n) == ret + fstr[prevEnd..]
  {
    assert fstr[|fstr|..] == "";
    assert fstr[prevEnd..|fstr|] == fstr[prevEnd..];
  }

  /** No '{' directly before a field character. */
  predicate NoFieldStart(s: string) {
    forall i :: 0 <= i < |s| - 1 ==> s[i] == '{' ==> s[i + 1] !in FieldChars
  }

  /** A template without anonymous fields comes back unchanged. */
  lemma {:induction false} InferNoField(s: string, n: nat)
    requires NoFieldStart(s)
    ensures Infer(s, n) == s
    decreases |s|
  {
    if |s| >= 2 && EscapedBrace(s[0], s[1]) {
      assert NoFieldStart(s[2..]) by {
        forall i | 0 <= i < |s[2..]| - 1 && s[2..][i] == '{' ensures s[2..][i + 1] !in FieldChars {
          assert s[i + 2] == '{';
        }
      }
      InferNoField(s[2..], n);
      assert s == s[..2] + s[2..];
    } else if |s| > 0 {
      assert NoFieldStart(s[1..]) by {
        forall i | 0 <= i < |s[1..]| - 1 && s[1..][i] == '{' ensures s[1..][i + 1] !in FieldChars {
          assert s[i + 1] == '{';
        }
      }
      InferNoField(s[1..], n);
      assert s == [s[0]] + s[1..];
    }
  }

  /** One step of the scan: no match at the first character copies it. */
  lemma InferCopy(s: string, n: nat)
    requires |s| > 0
    requires |s| >= 2 ==> !EscapedBrace(s[0], s[1]) && (s[0] != '{' || s[1] !in FieldChars)
    ensures Infer(s, n) == [s[0]] + Infer(s[1..], n)
  {
  }

  lemma InferEscape(s: string, n: nat)
    requires |s| >= 2 && EscapedBrace(s[0], s[1])
    ensures Infer(s, n) == s[..2] + Infer(s[2..], n)
  {
  }

  lemma InferField(c: char, rest: string, n: nat)
    requires c in FieldChars
    ensures Infer("{" + [c] + rest, n) == "{" + Decimal(n) + [c] + Infer(rest, n + 1)
  {
    var s := "{" + [c] + rest;
    assert s[0] == '{' && s[1] == c && s[2..] == rest;
  }

  /** A run of text without '{', before an opening brace or the end, is copied. */
  lemma {:induction false} InferLiteral(lit: string, rest: string, n: nat)
    requires BraceFree(lit)
    requires |rest| == 0 || rest[0] == '{'
    ensures Infer(lit + rest, n) == lit + Infer(rest, n)
    decreases |lit|
  {
    var s := lit + rest;
    if |lit| >= 2 && lit[0] == '}' && lit[1] == '}' {
      assert Infer(s, n) == lit[..2] + Infer(lit[2..] + rest, n) by {
        assert s[..2] == lit[..2] && s[2..] == lit[2..] + rest;
        InferEscape(s, n);
      }
      InferLiteral(lit[2..], rest, n);
      assert lit == lit[..2] + lit[2..];
    } else if |lit| > 0 {
      assert Infer(s, n) == [lit[0]] + Infer(lit[1..] + rest, n) by {
        assert s[0] == lit[0] && s[1..] == lit[1..] + rest;
        InferCopy(s, n);
      }
      InferLiteral(lit[1..], rest, n);
      assert lit == [lit[0]] + lit[1..];
    } else {
      assert s == rest;
    }
  }

  /** A template made of brace-free text with an anonymous field between each two
      pieces: `lits[0] + '{' + cs[0] + lits[1] + ...`. */
  function Template(lits: seq<string>, cs: string): string
    requires |lits| == |cs| + 1
    decreases |cs|
  {
    if |cs| == 0 then lits[0] else lits[0] + "{" + [cs[0]] + Template(lits[1..], cs[1..])
  }

  /** The same template with the fields numbered from `n`: `'{N'` plus the field
      character. */
  function Numbered(lits: seq<string>, cs: string, n: nat): string
    requires |lits| == |cs| + 1
    decreases |cs|
  {
    if |cs| == 0 then lits[0] else lits[0] + "{" + Decimal(n) + [cs[0]] + Numbered(lits[1..], cs[1..], n + 1)
  }

  /** Anonymous fields are numbered 0, 1, 2, ... from left to right and everything else
      is copied. */
  predicate BraceFree(w: string) {
    forall i :: 0 <= i < |w| ==> w[i] != '{'
  }

  lemma {:induction false} InferTemplate(lits: seq<string>, cs: string, n: nat)
    requires |lits| == |cs| + 1
    requires forall k :: 0 <= k < |lits| ==> BraceFree(lits[k])
    requires forall j :: 0 <= j < |cs| ==> cs[j] in FieldChars
    ensures Infer(Template(lits, cs), n) == Numbered(lits, cs, n)
    decreases |cs|
  {
    if |cs| == 0 {
      InferLiteral(lits[0], "", n);
      assert lits[0] + "" == lits[0];
    } else {
      TemplateCons(lits, cs);
      NumberedCons(lits, cs, n);
      InferLiteralField(lits[0], cs[0], Template(lits[1..], cs[1..]), n);
      InferTemplate(lits[1..], cs[1..], n + 1);
    }
  }

  lemma TemplateCons(lits: seq<string>, cs: string)
    requires |lits| == |cs| + 1 && |cs| > 0
    ensures Template(lits, cs) == lits[0] + ("{" + [cs[0]] + Template(lits[1..], cs[1..]))
  {
  }

  lemma NumberedCons(lits: seq<string>, cs: string, n: nat)
    requires |lits| == |cs| + 1 && |cs| > 0
    ensures Numbered(lits, cs, n)
      == lits[0] + ("{" + Decimal(n) + [cs[0]] + Numbered(lits[1..], cs[1..], n + 1))
  {
  }

  /** A literal run followed by an anonymous field. */
  lemma InferLiteralField(lit: string, c: char, tail: string, n: nat)
    requires BraceFree(lit) && c in FieldChars
    ensures Infer(lit + ("{" + [c] + tail), n) == lit + ("{" + Decimal(n) + [c] + Infer(tail, n + 1))
  {
    InferLiteral(lit, "{" + [c] + tail, n);
    InferField(c, tail, n);
  }

  /** The test templates `'{} {} {}'` and `'{:d} {}'` of the module. */
  lemma InferExampleBare()
    ensures InferPositionalFormatArgs("{} {} {}") == "{0} {1} {2}"
  {
    var lits := ["", " ", " ", ""];
    assert forall k :: 0 <= k < |lits| ==> BraceFree(lits[k]);
    InferTemplate(lits, "}}}", 0);
    BareTemplate();
    BareNumbered();
  }

  lemma BareTemplate()
    ensures Template(["", " ", " ", ""], "}}}") == "{} {} {}"
  {
    var lits := ["", " ", " ", ""];
    assert lits[1..][1..][1..] == [""];
    assert Template(lits[1..][1..], "}") == " {}";
    assert Template(lits[1..], "}}") == " {} {}";
  }

  lemma BareNumbered()
    ensures Numbered(["", " ", " ", ""], "}}}", 0) == "{0} {1} {2}"
  {
    var lits := ["", " ", " ", ""];
    assert Decimal(0) == "0" && Decimal(1) == "1" && Decimal(2) == "2";
    assert lits[1..][1..][1..] == [""];
    assert Numbered(lits[1..][1..], "}", 2) == " {2}";
    assert Numbered(lits[1..], "}}", 1) == " {1} {2}";
  }

  lemma InferExampleSpec()
    ensures InferPositionalFormatArgs("{:d} {}") == "{0:d} {1}"
  {
    var lits := ["", "d} ", ""];
    assert forall k :: 0 <= k < |lits| ==> BraceFree(lits[k]);
    InferTemplate(lits, ":}", 0);
    assert Template(lits, ":}") == "{:d} {}";
    assert Decimal(0) == "0" && Decimal(1) == "1";
    assert Numbered(lits, ":}", 0) == "{0:d} {1}";
  }

  /** An escaped brace is matched before a field that would start at its second
      brace, and takes no number. */
  lemma InferEscapeWins()
    ensures InferPositionalFormatArgs("{{}") == "{{}"
  {
    assert InferPositionalFormatArgs("{{}") == "{{" + Infer("}", 0) by {
      InferEscape("{{}", 0);
      assert "{{}"[..2] == "{{" && "{{}"[2..] == "}";
    }
    assert Infer("}", 0) == "}" by {
      InferCopy("}", 0);
      assert "}"[1..] == "";
    }
  }
}
