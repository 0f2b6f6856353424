/** Sequence vocabulary shared by the container model: reversal, distinctness,
    order-preserving filtering and first-occurrence de-duplication. */
module Seqs {

  function Rev<T>(xs: seq<T>): (r: seq<T>)
    ensures |r| == |xs|
    ensures forall i :: 0 <= i < |xs| ==> r[i] == xs[|xs| - 1 - i]
  {
    if |xs| == 0 then [] else [xs[|xs| - 1]] + Rev(xs[..|xs| - 1])
  }

  function SetOf<T>(xs: seq<T>): set<T> {
    set x | x in xs
  }

  predicate Distinct<T(==)>(xs: seq<T>) {
    forall i, j :: 0 <= i < j < |xs| ==> xs[i] != xs[j]
  }

  lemma {:induction false} DistinctCard<T>(xs: seq<T>)
    requires Distinct(xs)
    ensures |SetOf(xs)| == |xs|
  {
    if |xs| > 0 {
      var init := xs[..|xs| - 1];
      DistinctCard(init);
      assert SetOf(xs) == SetOf(init) + {xs[|xs| - 1]};
      assert xs[|xs| - 1] !in SetOf(init);
    }
  }

  lemma {:induction false} SetCardAtMostLength<T>(xs: seq<T>)
    ensures |SetOf(xs)| <= |xs|
  {
    if |xs| > 0 {
      var init := xs[..|xs| - 1];
      SetCardAtMostLength(init);
      assert SetOf(xs) == SetOf(init) + {xs[|xs| - 1]};
    }
  }

  lemma DistinctSlice<T>(xs: seq<T>, i: nat, j: nat)
    requires Distinct(xs) && i <= j <= |xs|
    ensures Distinct(xs[i..j])
  {
  }

  lemma DistinctRev<T>(xs: seq<T>)
    requires Distinct(xs)
    ensures Distinct(Rev(xs)) && SetOf(Rev(xs)) == SetOf(xs)
  {
    var r := Rev(xs);
    forall x | x in SetOf(xs) ensures x in SetOf(r) {
      var i :| 0 <= i < |xs| && xs[i] == x;
      assert r[|xs| - 1 - i] == x;
    }
  }

  /** Elements of `xs` satisfying `p`, in their original order. */
  function Filter<T>(xs: seq<T>, p: T -> bool): (r: seq<T>)
    ensures |r| <= |xs|
  {
    if |xs| == 0 then []
    else Filter(xs[..|xs| - 1], p) + (if p(xs[|xs| - 1]) then [xs[|xs| - 1]] else [])
  }

  lemma {:induction false} FilterMembers<T>(xs: seq<T>, p: T -> bool)
    ensures forall x :: x in Filter(xs, p) <==> x in xs && p(x)
  {
    if |xs| > 0 {
      FilterMembers(xs[..|xs| - 1], p);
      assert xs == xs[..|xs| - 1] + [xs[|xs| - 1]];
    }
  }

  lemma {:induction false} FilterDistinct<T>(xs: seq<T>, p: T -> bool)
    requires Distinct(xs)
    ensures Distinct(Filter(xs, p))
  {
    if |xs| > 0 {
      var init := xs[..|xs| - 1];
      FilterDistinct(init, p);
      FilterMembers(init, p);
    }
  }

  lemma {:induction false} FilterAll<T>(xs: seq<T>, p: T -> bool)
    requires forall x :: x in xs ==> p(x)
    ensures Filter(xs, p) == xs
  {
    if |xs| > 0 {
      FilterAll(xs[..|xs| - 1], p);
    }
  }

  lemma {:induction false} FilterAppend<T>(a: seq<T>, b: seq<T>, p: T -> bool)
    ensures Filter(a + b, p) == Filter(a, p) + Filter(b, p)
    decreases |b|
  {
    if |b| > 0 {
      assert (a + b)[..|a + b| - 1] == a + b[..|b| - 1];
      FilterAppend(a, b[..|b| - 1], p);
    } else {
      assert a + b == a;
    }
  }

  /** Filtering one more element appends it when it passes. */
  lemma FilterSnoc<T>(xs: seq<T>, x: T, p: T -> bool)
    ensures Filter(xs + [x], p) == Filter(xs, p) + (if p(x) then [x] else [])
  {
    assert (xs + [x])[..|xs|] == xs;
  }

  /** Two filters whose predicates agree on the elements give the same result. */
  lemma {:induction false} FilterCongruent<T>(xs: seq<T>, p: T -> bool, q: T -> bool)
    requires forall x :: x in xs ==> p(x) == q(x)
    ensures Filter(xs, p) == Filter(xs, q)
  {
    if |xs| > 0 {
      FilterCongruent(xs[..|xs| - 1], p, q);
    }
  }

  /** First occurrences of the elements of `xs`, in order: what repeated `add` keeps. */
  function Dedup<T(==)>(xs: seq<T>): (r: seq<T>)
    ensures |r| <= |xs|
  {
    if |xs| == 0 then []
    else
      var d := Dedup(xs[..|xs| - 1]);
      if xs[|xs| - 1] in d then d else d + [xs[|xs| - 1]]
  }

  lemma {:induction false} DedupFacts<T>(xs: seq<T>)
    ensures Distinct(Dedup(xs))
    ensures SetOf(Dedup(xs)) == SetOf(xs)
  {
    if |xs| > 0 {
      var init := xs[..|xs| - 1];
      DedupFacts(init);
      assert SetOf(xs) == SetOf(init) + {xs[|xs| - 1]};
    }
  }

  lemma {:induction false} DedupOfDistinct<T>(xs: seq<T>)
    requires Distinct(xs)
    ensures Dedup(xs) == xs
  {
    if |xs| > 0 {
      var init := xs[..|xs| - 1];
      DedupOfDistinct(init);
    }
  }

  /** De-duplicating a longer input only appends: first occurrences keep their place. */
  lemma {:induction false} DedupPrefix<T>(a: seq<T>, b: seq<T>)
    ensures |Dedup(a)| <= |Dedup(a + b)| && Dedup(a + b)[..|Dedup(a)|] == Dedup(a)
    decreases |b|
  {
    if |b| == 0 {
      assert a + b == a;
    } else {
      assert (a + b)[..|a + b| - 1] == a + b[..|b| - 1];
      DedupPrefix(a, b[..|b| - 1]);
    }
  }

  /** `Filter(Filter(xs, p), q)` keeps what satisfies both. */
  lemma {:induction false} FilterFilter<T>(xs: seq<T>, p: T -> bool, q: T -> bool, both: T -> bool)
    requires forall x :: both(x) == (p(x) && q(x))
    ensures Filter(Filter(xs, p), q) == Filter(xs, both)
  {
    if |xs| > 0 {
      var init, last := xs[..|xs| - 1], xs[|xs| - 1];
      FilterFilter(init, p, q, both);
      var tail := if p(last) then [last] else [];
      FilterAppend(Filter(init, p), tail, q);
      if p(last) {
        assert Filter(tail, q) == (if q(last) then [last] else []) by { assert tail[..0] == []; }
      }
    }
  }

  /** A sequence is its prefix before the `k`-th element, that element, and the rest. */
  lemma AroundIndex<T>(xs: seq<T>, k: nat)
    requires 1 <= k <= |xs|
    ensures xs[..k] == xs[..k - 1] + [xs[k - 1]]
    ensures xs == xs[..k - 1] + [xs[k - 1]] + xs[k..]
  {
  }

  /** The parts of a sequence with one element appended. */
  lemma SnocParts<T>(a: seq<T>, x: T)
    ensures var s := a + [x];
      |s| == |a| + 1 && s[|a|] == x && s[..|a|] == a && s[..|a|] + s[|a| + 1..] == a
  {
    var s := a + [x];
    assert s[|a| + 1..] == [];
  }

  /** A non-empty sequence is its prefix and its last element. */
  lemma LastSplit<T>(xs: seq<T>)
    requires |xs| > 0
    ensures xs == xs[..|xs| - 1] + [xs[|xs| - 1]]
  {
  }

  /** Appending a non-empty sequence is appending its prefix, then its last element. */
  lemma AppendSnoc<T>(a: seq<T>, xs: seq<T>)
    requires |xs| > 0
    ensures a + xs == (a + xs[..|xs| - 1]) + [xs[|xs| - 1]]
  {
    LastSplit(xs);
  }

  /** The middle part of `a + x + b`. */
  lemma SliceMiddle<T>(a: seq<T>, x: seq<T>, b: seq<T>)
    ensures (a + x + b)[|a|..|a| + |x|] == x
  {
  }

  /** The parts of `a + [x] + b`. */
  lemma Parts3<T>(a: seq<T>, x: T, b: seq<T>)
    ensures var s := a + [x] + b;
      |s| == |a| + |b| + 1 && s[|a|] == x && s[..|a|] == a && s[|a| + 1..] == b
  {
    var s := a + [x] + b;
    assert s[..|a|] == a;
    assert s[|a| + 1..] == b;
  }

  lemma DedupSnoc<T>(xs: seq<T>, x: T)
    ensures Dedup(xs + [x]) == if x in Dedup(xs) then Dedup(xs) else Dedup(xs) + [x]
  {
    assert (xs + [x])[..|xs|] == xs;
  }

  predicate Sorted(xs: seq<int>) {
    forall i, j :: 0 <= i < j < |xs| ==> xs[i] <= xs[j]
  }

  function InsertSorted(x: int, xs: seq<int>): (r: seq<int>)
    requires Sorted(xs)
    ensures Sorted(r) && multiset(r) == multiset(xs) + multiset{x}
  {
    if |xs| == 0 then [x]
    else if x <= xs[0] then [x] + xs
    else
      var rest := InsertSorted(x, xs[1..]);
      InsertBehindHead(x, xs, rest);
      [xs[0]] + rest
  }

  /** Putting the head back in front of the tail with `x` inserted. */
  lemma InsertBehindHead(x: int, xs: seq<int>, rest: seq<int>)
    requires Sorted(xs) && |xs| > 0 && xs[0] < x
    requires Sorted(rest) && multiset(rest) == multiset(xs[1..]) + multiset{x}
    ensures Sorted([xs[0]] + rest) && multiset([xs[0]] + rest) == multiset(xs) + multiset{x}
  {
    assert xs == [xs[0]] + xs[1..];
    forall i | 0 <= i < |rest| ensures xs[0] <= rest[i] {
      assert rest[i] in multiset(rest);
    }
  }

  /** `sorted(xs)` on integers: an ascending permutation. */
  function SortSeq(xs: seq<int>): (r: seq<int>)
    ensures Sorted(r) && multiset(r) == multiset(xs)
  {
    if |xs| == 0 then []
    else
      assert xs == xs[..|xs| - 1] + [xs[|xs| - 1]];
      InsertSorted(xs[|xs| - 1], SortSeq(xs[..|xs| - 1]))
  }

  lemma PermutationKeepsDistinct(xs: seq<int>, ys: seq<int>)
    requires Distinct(xs) && multiset(xs) == multiset(ys)
    ensures Distinct(ys) && SetOf(ys) == SetOf(xs)
  {
    forall x ensures x in SetOf(ys) <==> x in SetOf(xs) {
      assert x in ys <==> x in multiset(ys);
      assert x in xs <==> x in multiset(xs);
    }
    forall i, j | 0 <= i < j < |ys| ensures ys[i] != ys[j] {
      if ys[i] == ys[j] {
        assert multiset(ys)[ys[i]] >= 2 by {
          assert ys == ys[..i] + [ys[i]] + ys[i + 1..j] + [ys[j]] + ys[j + 1..];
        }
        DistinctMultiplicity(xs, ys[i]);
        assert false;
      }
    }
  }

  lemma {:induction false} DistinctMultiplicity<T>(xs: seq<T>, x: T)
    requires Distinct(xs)
    ensures multiset(xs)[x] <= 1
  {
    if |xs| > 0 {
      var init := xs[..|xs| - 1];
      DistinctMultiplicity(init, x);
      assert xs == init + [xs[|xs| - 1]];
      if x == xs[|xs| - 1] {
        assert x !in init;
      }
    }
  }
}
