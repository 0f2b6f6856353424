/** `strip_ansi` of boltons/strutils.py: removal of ANSI escape sequences by a
    two-state scan, and the removal its scan evidently intends. */
module Ansi {
  import opened Text

  /** The last character of an escape sequence, `ANSI_TERMINATORS`. */
  const Terminators: string := "HfABCDRsuJKhlpm"

  /** `t[k:k + 2] == ANSI_ESCAPE_BEGIN`, the two characters ESC and '['. */
  predicate EscapeAt(t: string, k: int) {
    0 <= k && k + 2 <= |t| && t[k] == '\U{1B}' && t[k + 1] == '['
  }

  predicate NoEscapeIn(t: string, lo: int, hi: int) {
    forall m :: lo <= m < hi ==> !EscapeAt(t, m)
  }

  predicate NoTerminatorIn(t: string, lo: int, hi: int)
    requires 0 <= lo && hi <= |t|
  {
    forall m :: lo <= m < hi ==> t[m] !in Terminators
  }

  /** `t.find(ANSI_ESCAPE_BEGIN, i)`: the first escape at or after `i`, or -1. */
  function FindEscape(t: string, i: nat): (r: int)
    requires i <= |t|
    ensures r == -1 || (i <= r && EscapeAt(t, r))
    decreases |t| - i
  {
    if i + 2 > |t| then -1
    else if EscapeAt(t, i) then i
    else FindEscape(t, i + 1)
  }

  /** The first terminator at or after `i`, or -1. */
  function FindTerminator(t: string, i: nat): (r: int)
    requires i <= |t|
    ensures r == -1 || (i <= r < |t| && t[r] in Terminators)
    decreases |t| - i
  {
    if i == |t| then -1
    else if t[i] in Terminators then i
    else FindTerminator(t, i + 1)
  }

  /** The pieces the `strip_ansi` loop collects in `nansi`, from position `i` in the
      given state. Keeping, it takes the text up to the next escape and switches to
      skipping just past the escape's first character; with no escape left it stops,
      leaving what remains uncollected. Skipping, it waits for a terminator. */
  function Scan(t: string, i: nat, keep: bool): seq<string>
    requires i <= |t|
    decreases |t| - i
  {
    if i == |t| then []
    else if !keep && t[i] in Terminators then Scan(t, i + 1, true)
    else if keep then
      var k := FindEscape(t, i);
      if k < 0 then [] else [t[i..k]] + Scan(t, k + 1, false)
    else Scan(t, i + 1, false)
  }

  /** `strip_ansi(text)` as written: the input itself when nothing was collected,
      otherwise the collected pieces joined. */
  function StripAnsi(t: string): string {
    var pieces := Scan(t, 0, true);
    if pieces == [] then t else Concat(pieces)
  }

  /** The loop of `strip_ansi`, step for step. */
  method StripAnsiLoop(text: string) returns (r: string)
    ensures r == StripAnsi(text)
  {
    var nansi: seq<string> := [];
    var keep := true;
    var i := 0;
    while i < |text|
      invariant 0 <= i <= |text|
      invariant nansi + Scan(text, i, keep) == Scan(text, 0, true)
      decreases |text| - i
    {
      if !keep && text[i] in Terminators {
        keep := true;
      } else if keep {
        var k := FindEscape(text, i);
        if k < 0 {
          break;
        }
        nansi := nansi + [text[i..k]];
        i, keep := k, false;
      }
      i := i + 1;
    }
    if nansi == [] {
      return text;
    }
    assert Scan(text, 0, true) == nansi;
    r := Concat(nansi);
  }

  /** Skipping runs to the next terminator and resumes keeping after it. */
  lemma {:induction false} ScanSkip(t: string, i: nat)
    requires i <= |t|
    ensures var j := FindTerminator(t, i);
      Scan(t, i, false) == if j < 0 then [] else Scan(t, j + 1, true)
    decreases |t| - i
  {
    if i < |t| && t[i] !in Terminators {
      ScanSkip(t, i + 1);
    }
  }

  /** Text without an escape sequence comes back unchanged. */
  lemma StripAnsiNoEscape(t: string)
    requires NoEscapeIn(t, 0, |t|)
    ensures StripAnsi(t) == t
  {
    FindEscapeNone(t, 0);
  }

  /** The removal the scan evidently intends: every escape sequence, from its ESC to
      its terminator, goes; the text between and after them stays. An escape that is
      never terminated runs to the end of the text. */
  function StripFrom(t: string, i: nat): (r: string)
    requires i <= |t|
    ensures |r| <= |t| - i
    decreases |t| - i
  {
    var k := FindEscape(t, i);
    if k < 0 then t[i..]
    else
      var j := FindTerminator(t, k + 1);
      if j < 0 then t[i..k] else t[i..k] + StripFrom(t, j + 1)
  }

  function StripAnsiFixed(t: string): (r: string)
    ensures NoEscapeIn(t, 0, |t|) ==> r == t
  {
    StripFrom(t, 0)
  }

  /** The text after the last terminated escape sequence. */
  function Rest(t: string, i: nat): string
    requires i <= |t|
    decreases |t| - i
  {
    var k := FindEscape(t, i);
    if k < 0 then t[i..]
    else
      var j := FindTerminator(t, k + 1);
      if j < 0 then "" else Rest(t, j + 1)
  }

  /** What the scan collects falls short of the intended removal by exactly the text
      after the last terminated escape sequence. */
  lemma {:induction false} ScanMissesRest(t: string, i: nat)
    requires i <= |t|
    ensures Concat(Scan(t, i, true)) + Rest(t, i) == StripFrom(t, i)
    decreases |t| - i, 1
  {
    var k := FindEscape(t, i);
    if k < 0 {
      NoEscapeLeft(t, i);
    } else {
      var j := FindTerminator(t, k + 1);
      if j < 0 {
        Unterminated(t, i, k);
      } else {
        Terminated(t, i, k, j);
      }
    }
  }

  lemma {:induction false} Terminated(t: string, i: nat, k: int, j: int)
    requires i <= |t| && FindEscape(t, i) == k && k >= 0 && FindTerminator(t, k + 1) == j && j >= 0
    ensures Concat(Scan(t, i, true)) + Rest(t, i) == StripFrom(t, i)
    decreases |t| - i, 0
  {
    ScanMissesRest(t, j + 1);
    ScanStep(t, i, k, j);
    ConcatCons(t[i..k], Scan(t, j + 1, true));
    RestStep(t, i, k, j);
    StripFromStep(t, i, k, j);
    Regroup(t[i..k], Concat(Scan(t, j + 1, true)), Rest(t, j + 1), StripFrom(t, j + 1),
      Concat(Scan(t, i, true)), Rest(t, i), StripFrom(t, i));
  }

  lemma NoEscapeLeft(t: string, i: nat)
    requires i <= |t| && FindEscape(t, i) < 0
    ensures Concat(Scan(t, i, true)) + Rest(t, i) == StripFrom(t, i)
  {
    assert Scan(t, i, true) == [];
    assert Rest(t, i) == t[i..] && StripFrom(t, i) == t[i..];
    assert "" + t[i..] == t[i..];
  }

  lemma Unterminated(t: string, i: nat, k: int)
    requires i <= |t| && FindEscape(t, i) == k && k >= 0 && FindTerminator(t, k + 1) < 0
    ensures Concat(Scan(t, i, true)) + Rest(t, i) == StripFrom(t, i)
  {
    ScanSkip(t, k + 1);
    assert Scan(t, i, true) == [t[i..k]];
    assert Concat([t[i..k]]) == t[i..k] + "";
    assert Rest(t, i) == "";
    assert StripFrom(t, i) == t[i..k];
  }

  lemma ScanStep(t: string, i: nat, k: int, j: int)
    requires i <= |t| && FindEscape(t, i) == k && k >= 0 && FindTerminator(t, k + 1) == j && j >= 0
    ensures Scan(t, i, true) == [t[i..k]] + Scan(t, j + 1, true)
  {
    ScanSkip(t, k + 1);
  }

  lemma RestStep(t: string, i: nat, k: int, j: int)
    requires i <= |t| && FindEscape(t, i) == k && k >= 0 && FindTerminator(t, k + 1) == j && j >= 0
    ensures Rest(t, i) == Rest(t, j + 1)
  {
  }

  lemma StripFromStep(t: string, i: nat, k: int, j: int)
    requires i <= |t| && FindEscape(t, i) == k && k >= 0 && FindTerminator(t, k + 1) == j && j >= 0
    ensures StripFrom(t, i) == t[i..k] + StripFrom(t, j + 1)
  {
  }

  lemma Regroup(a: string, b: string, c: string, bc: string, x: string, y: string, z: string)
    requires b + c == bc && x == a + b && y == c && z == a + bc
    ensures x + y == z
  {
  }

  lemma ConcatCons(x: string, s: seq<string>)
    ensures Concat([x] + s) == x + Concat(s)
  {
    assert ([x] + s)[1..] == s;
  }

  /** Whenever anything is collected, `strip_ansi` as written returns the intended
      result without its trailing `Rest`. */
  lemma StripAnsiAgainstFixed(t: string)
    ensures StripAnsi(t) == t || StripAnsi(t) + Rest(t, 0) == StripAnsiFixed(t)
    ensures NoEscapeIn(t, 0, |t|) ==> StripAnsi(t) == StripAnsiFixed(t)
  {
    ScanMissesRest(t, 0);
    if NoEscapeIn(t, 0, |t|) {
      StripAnsiNoEscape(t);
    }
  }

  /** `find` returns the first occurrence: none lies before the one returned. */
  lemma {:induction false} FindEscapeFirst(t: string, i: nat)
    requires i <= |t|
    ensures var r := FindEscape(t, i); NoEscapeIn(t, i, if r < 0 then |t| else r)
    decreases |t| - i
  {
    if i + 2 <= |t| && !EscapeAt(t, i) {
      FindEscapeFirst(t, i + 1);
    }
  }

  lemma {:induction false} FindTerminatorFirst(t: string, i: nat)
    requires i <= |t|
    ensures var r := FindTerminator(t, i); NoTerminatorIn(t, i, if r < 0 then |t| else r)
    decreases |t| - i
  {
    if i < |t| && t[i] !in Terminators {
      FindTerminatorFirst(t, i + 1);
    }
  }

  lemma FindEscapeIs(t: string, i: nat, k: int)
    requires i <= |t| && i <= k && EscapeAt(t, k) && NoEscapeIn(t, i, k)
    ensures FindEscape(t, i) == k
  {
    FindEscapeFirst(t, i);
  }

  lemma FindEscapeNone(t: string, i: nat)
    requires i <= |t| && NoEscapeIn(t, i, |t|)
    ensures FindEscape(t, i) == -1
  {
  }

  lemma FindTerminatorIs(t: string, i: nat, j: int)
    requires i <= j < |t| && t[j] in Terminators && NoTerminatorIn(t, i, j)
    ensures FindTerminator(t, i) == j
  {
    FindTerminatorFirst(t, i);
  }

  /** Text after the last escape sequence is lost: with one escape sequence running
      from `k` to the terminator at `j`, `strip_ansi` keeps only what precedes it,
      while the intended removal also keeps what follows it. */
  lemma StripAnsiDropsTail(t: string, k: nat, j: nat)
    requires EscapeAt(t, k) && NoEscapeIn(t, 0, k)
    requires k + 1 <= j < |t| && t[j] in Terminators && NoTerminatorIn(t, k + 1, j)
    requires NoEscapeIn(t, j + 1, |t|)
    ensures StripAnsi(t) == t[..k]
    ensures StripAnsiFixed(t) == t[..k] + t[j + 1..]
    ensures j + 1 < |t| ==> StripAnsi(t) != StripAnsiFixed(t)
  {
    FindEscapeIs(t, 0, k);
    FindTerminatorIs(t, k + 1, j);
    ScanSkip(t, k + 1);
    FindEscapeNone(t, j + 1);
    if j + 1 < |t| {
      assert Scan(t, j + 1, true) == [];
    }
    assert Scan(t, 0, true) == [t[..k]];
    assert Concat([t[..k]]) == t[..k];
    assert StripFrom(t, j + 1) == t[j + 1..];
    assert StripFrom(t, 0) == t[0..k] + StripFrom(t, j + 1);
  }
}
