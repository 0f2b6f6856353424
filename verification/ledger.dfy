/** The dead-interval ledger of an IndexedSet (`dead_indices` in
    boltons/setutils.py): sorted `[start, stop)` runs of tombstone slots. */
module Ledger {
  import opened Slots

  datatype Interval = Interval(start: int, stop: int)

  function Width(iv: Interval): int {
    iv.stop - iv.start
  }

  /** Sum of the interval widths. */
  function TotalWidth(d: seq<Interval>): int {
    if |d| == 0 then 0 else TotalWidth(d[..|d| - 1]) + Width(d[|d| - 1])
  }

  predicate Covers(d: seq<Interval>, p: int) {
    exists k :: 0 <= k < |d| && d[k].start <= p < d[k].stop
  }

  /** Non-empty intervals inside `[0, n)`, each ending at or before the next begins. */
  predicate Ordered(d: seq<Interval>, n: int) {
    && (forall k :: 0 <= k < |d| ==> 0 <= d[k].start < d[k].stop <= n)
    && (forall k :: 0 <= k < |d| - 1 ==> d[k].stop <= d[k + 1].start)
  }

  /** No two neighbouring intervals touch: each interval is a maximal tombstone run. */
  predicate Separated(d: seq<Interval>) {
    forall k :: 0 <= k < |d| - 1 ==> d[k].stop < d[k + 1].start
  }

  /** The ledger covers exactly the tombstone slots. */
  predicate Exact<T>(items: seq<Slot<T>>, d: seq<Interval>) {
    forall p :: 0 <= p < |items| ==> (items[p].Tombstone? <==> Covers(d, p))
  }

  lemma {:induction false} OrderedPairwise(d: seq<Interval>, n: int, a: int, b: int)
    requires Ordered(d, n) && 0 <= a < b < |d|
    ensures d[a].stop <= d[b].start
    decreases b - a
  {
    if a + 1 < b {
      OrderedPairwise(d, n, a, b - 1);
    }
  }

  lemma {:induction false} SeparatedPairwise(d: seq<Interval>, n: int, a: int, b: int)
    requires Ordered(d, n) && Separated(d) && 0 <= a < b < |d|
    ensures d[a].stop < d[b].start
    decreases b - a
  {
    if a + 1 < b {
      SeparatedPairwise(d, n, a, b - 1);
    }
  }

  lemma OrderedWiden(d: seq<Interval>, n: int, m: int)
    requires Ordered(d, n) && n <= m
    ensures Ordered(d, m)
  {
  }

  // ---------------------------------------------------------------------------
  // Widths

  lemma {:induction false} TotalWidthAppend(a: seq<Interval>, b: seq<Interval>)
    ensures TotalWidth(a + b) == TotalWidth(a) + TotalWidth(b)
    decreases |b|
  {
    if |b| == 0 {
      assert a + b == a;
    } else {
      assert (a + b)[..|a + b| - 1] == a + b[..|b| - 1];
      TotalWidthAppend(a, b[..|b| - 1]);
    }
  }

  lemma TotalWidthSplice(a: seq<Interval>, iv: Interval, b: seq<Interval>)
    ensures TotalWidth(a + [iv] + b) == TotalWidth(a) + Width(iv) + TotalWidth(b)
  {
    TotalWidthAppend(a + [iv], b);
    TotalWidthAppend(a, [iv]);
    assert [iv][..0] == [];
  }

  lemma TotalWidthInsert(d: seq<Interval>, idx: int, iv: Interval)
    requires 0 <= idx <= |d|
    ensures TotalWidth(d[..idx] + [iv] + d[idx..]) == TotalWidth(d) + Width(iv)
  {
    var pre, post := d[..idx], d[idx..];
    assert d == pre + post;
    TotalWidthAppend(pre, post);
    TotalWidthSplice(pre, iv, post);
  }

  lemma TotalWidthUpdate(d: seq<Interval>, j: int, iv: Interval)
    requires 0 <= j < |d|
    ensures TotalWidth(d[j := iv]) == TotalWidth(d) - Width(d[j]) + Width(iv)
  {
    assert d == d[..j] + [d[j]] + d[j + 1..];
    assert d[j := iv] == d[..j] + [iv] + d[j + 1..];
    TotalWidthSplice(d[..j], d[j], d[j + 1..]);
    TotalWidthSplice(d[..j], iv, d[j + 1..]);
  }

  lemma TotalWidthPair(a: Interval, b: Interval)
    ensures TotalWidth([a, b]) == Width(a) + Width(b)
  {
    var one, two := [a], [a, b];
    assert two[..|two| - 1] == one;
    assert one[..|one| - 1] == [];
    assert TotalWidth(one) == Width(a);
  }

  lemma TotalWidthMerge(d: seq<Interval>, j: int, iv: Interval)
    requires 0 <= j < |d| - 1
    ensures TotalWidth(d[..j] + [iv] + d[j + 2..]) == TotalWidth(d) - Width(d[j]) - Width(d[j + 1]) + Width(iv)
  {
    var pre, pair, post := d[..j], [d[j], d[j + 1]], d[j + 2..];
    assert d == pre + pair + post;
    TotalWidthAppend(pre + pair, post);
    TotalWidthAppend(pre, pair);
    TotalWidthPair(d[j], d[j + 1]);
    TotalWidthSplice(pre, iv, post);
  }

  // ---------------------------------------------------------------------------
  // bisect_left over intervals compared as Python lists [start, stop]

  predicate LexLess(a: Interval, b: Interval) {
    a.start < b.start || (a.start == b.start && a.stop < b.stop)
  }

  /** `bisect.bisect_left(d, x, lo, hi)`: the binary search of the standard library. */
  function BisectLeft(d: seq<Interval>, x: Interval, lo: int, hi: int): (r: int)
    requires 0 <= lo <= hi <= |d|
    ensures lo <= r <= hi
    decreases hi - lo
  {
    if lo < hi then
      var mid := (lo + hi) / 2;
      if LexLess(d[mid], x) then BisectLeft(d, x, mid + 1, hi) else BisectLeft(d, x, lo, mid)
    else lo
  }

  /** On a ledger that does not cover slot `s`, bisecting for `[s, s+1]` finds the
      number of intervals starting before `s`. */
  lemma {:induction false} BisectFindsSlot(d: seq<Interval>, n: int, s: int, lo: int, hi: int)
    requires Ordered(d, n) && !Covers(d, s)
    requires 0 <= lo <= hi <= |d|
    requires forall k :: 0 <= k < lo ==> d[k].start < s
    requires forall k :: hi <= k < |d| ==> d[k].start > s
    ensures var r := BisectLeft(d, Interval(s, s + 1), lo, hi);
      (forall k :: 0 <= k < r ==> d[k].start < s) && (forall k :: r <= k < |d| ==> d[k].start > s)
    decreases hi - lo
  {
    if lo < hi {
      var mid := (lo + hi) / 2;
      assert d[mid].start != s;
      if LexLess(d[mid], Interval(s, s + 1)) {
        StartsBelow(d, n, s, mid);
        BisectFindsSlot(d, n, s, mid + 1, hi);
      } else {
        StartsAbove(d, n, s, mid);
        BisectFindsSlot(d, n, s, lo, mid);
      }
    }
  }

  /** In an ordered ledger, every run up to one starting before `s` starts before `s`. */
  lemma StartsBelow(d: seq<Interval>, n: int, s: int, mid: int)
    requires Ordered(d, n) && 0 <= mid < |d| && d[mid].start < s
    ensures forall k :: 0 <= k < mid + 1 ==> d[k].start < s
  {
    forall k | 0 <= k < mid + 1 ensures d[k].start < s {
      if k < mid { OrderedPairwise(d, n, k, mid); }
    }
  }

  /** In an ordered ledger, every run from one starting after `s` on starts after `s`. */
  lemma StartsAbove(d: seq<Interval>, n: int, s: int, mid: int)
    requires Ordered(d, n) && 0 <= mid < |d| && d[mid].start > s
    ensures forall k :: mid <= k < |d| ==> d[k].start > s
  {
    forall k | mid <= k < |d| ensures d[k].start > s {
      if k > mid { OrderedPairwise(d, n, mid, k); }
    }
  }

  /** The insertion point for slot `s`, with what it says about its neighbours. */
  lemma InsertionPoint(d: seq<Interval>, n: int, s: int) returns (idx: int)
    requires Ordered(d, n) && !Covers(d, s)
    ensures idx == BisectLeft(d, Interval(s, s + 1), 0, |d|)
    ensures 0 <= idx <= |d|
    ensures forall k :: 0 <= k < idx ==> d[k].stop <= s
    ensures forall k :: idx <= k < |d| ==> d[k].start > s
  {
    BisectFindsSlot(d, n, s, 0, |d|);
    idx := BisectLeft(d, Interval(s, s + 1), 0, |d|);
    forall k | 0 <= k < idx ensures d[k].stop <= s {
      assert !(d[k].start <= s < d[k].stop);
    }
  }

  // ---------------------------------------------------------------------------
  // _add_dead

  /** `_add_dead(s)` as written: bisect, then look at `dints[int_idx - 1]` only, which is
      the LAST interval when the insertion point is 0; widen it or insert a new run. */
  function AddDead(d: seq<Interval>, s: int): (r: seq<Interval>)
    ensures |d| <= |r| <= |d| + 1
  {
    var cand := Interval(s, s + 1);
    if |d| == 0 then [cand]
    else
      var idx := BisectLeft(d, cand, 0, |d|);
      var j := if idx == 0 then |d| - 1 else idx - 1;
      var iv := d[j];
      if s <= iv.start <= s + 1 then d[j := Interval(s, iv.stop)]
      else if s <= iv.stop <= s + 1 then d[j := Interval(iv.start, s + 1)]
      else d[..idx] + [cand] + d[idx..]
  }

  /** Given an ordered ledger and an uncovered slot, `_add_dead` keeps the ledger ordered,
      grows its total width by one and afterwards covers exactly one more slot. */
  lemma AddDeadSound(d: seq<Interval>, n: int, s: int)
    requires Ordered(d, n) && 0 <= s < n && !Covers(d, s)
    ensures Ordered(AddDead(d, s), n)
    ensures TotalWidth(AddDead(d, s)) == TotalWidth(d) + 1
    ensures forall p :: Covers(AddDead(d, s), p) <==> Covers(d, p) || p == s
  {
    var r := AddDead(d, s);
    var cand := Interval(s, s + 1);
    if |d| == 0 {
      assert r == [cand];
      assert TotalWidth(r) == 1 by { assert r[..0] == []; }
      assert Covers(r, s) by { assert r[0].start <= s < r[0].stop; }
    } else {
      var idx := InsertionPoint(d, n, s);
      var j := if idx == 0 then |d| - 1 else idx - 1;
      var iv := d[j];
      if idx == 0 && iv.start == s + 1 {
        if |d| > 1 {
          OrderedPairwise(d, n, 0, |d| - 1);
        }
        assert j == 0;
        WidenLeft(d, n, 0, s);
      } else if idx > 0 && iv.stop == s {
        WidenRight(d, n, idx - 1, s);
      } else {
        if idx == 0 {
          if |d| > 1 { OrderedPairwise(d, n, 0, |d| - 1); }
          assert !(s <= iv.start <= s + 1) && !(s <= iv.stop <= s + 1);
        } else {
          assert !(s <= iv.start <= s + 1) && !(s <= iv.stop <= s + 1);
        }
        assert r == d[..idx] + [cand] + d[idx..];
        InsertRun(d, n, idx, s);
      }
    }
  }

  /** Widening interval `j` by the adjacent slot `s` (on its left or its right). */
  lemma CoversWiden(d: seq<Interval>, j: int, iv: Interval, s: int)
    requires 0 <= j < |d| && d[j].start < d[j].stop
    requires (iv == Interval(s, d[j].stop) && d[j].start == s + 1) || (iv == Interval(d[j].start, s + 1) && d[j].stop == s)
    ensures forall p :: Covers(d[j := iv], p) <==> Covers(d, p) || p == s
  {
    var r := d[j := iv];
    forall p ensures Covers(r, p) <==> Covers(d, p) || p == s {
      if Covers(d, p) {
        var k :| 0 <= k < |d| && d[k].start <= p < d[k].stop;
        assert r[k].start <= p < r[k].stop;
      }
      if p == s {
        assert r[j].start <= p < r[j].stop;
      }
      if Covers(r, p) {
        var k :| 0 <= k < |r| && r[k].start <= p < r[k].stop;
        if k != j || p != s {
          assert d[k].start <= p < d[k].stop;
        }
      }
    }
  }

  /** Widening interval `j` to begin at the uncovered slot `s` just before it. */
  lemma WidenLeft(d: seq<Interval>, n: int, j: int, s: int)
    requires Ordered(d, n) && 0 <= j < |d| && 0 <= s && d[j].start == s + 1
    requires j == 0 || d[j - 1].stop <= s
    ensures Ordered(d[j := Interval(s, d[j].stop)], n)
    ensures Separated(d) && (j == 0 || d[j - 1].stop < s) ==> Separated(d[j := Interval(s, d[j].stop)])
    ensures TotalWidth(d[j := Interval(s, d[j].stop)]) == TotalWidth(d) + 1
    ensures forall p :: Covers(d[j := Interval(s, d[j].stop)], p) <==> Covers(d, p) || p == s
  {
    TotalWidthUpdate(d, j, Interval(s, d[j].stop));
    CoversWiden(d, j, Interval(s, d[j].stop), s);
  }

  /** Widening interval `j` to end just after the uncovered slot `s` that follows it. */
  lemma WidenRight(d: seq<Interval>, n: int, j: int, s: int)
    requires Ordered(d, n) && 0 <= j < |d| && s < n && d[j].stop == s
    requires j == |d| - 1 || d[j + 1].start > s
    ensures Ordered(d[j := Interval(d[j].start, s + 1)], n)
    ensures Separated(d) && (j == |d| - 1 || d[j + 1].start > s + 1) ==> Separated(d[j := Interval(d[j].start, s + 1)])
    ensures TotalWidth(d[j := Interval(d[j].start, s + 1)]) == TotalWidth(d) + 1
    ensures forall p :: Covers(d[j := Interval(d[j].start, s + 1)], p) <==> Covers(d, p) || p == s
  {
    TotalWidthUpdate(d, j, Interval(d[j].start, s + 1));
    CoversWiden(d, j, Interval(d[j].start, s + 1), s);
  }

  lemma CoversInsert(d: seq<Interval>, idx: int, s: int)
    requires 0 <= idx <= |d|
    ensures forall p :: Covers(d[..idx] + [Interval(s, s + 1)] + d[idx..], p) <==> Covers(d, p) || p == s
  {
    var r := d[..idx] + [Interval(s, s + 1)] + d[idx..];
    forall p ensures Covers(r, p) <==> Covers(d, p) || p == s {
      if Covers(d, p) {
        var k :| 0 <= k < |d| && d[k].start <= p < d[k].stop;
        if k < idx {
          assert r[k] == d[k];
        } else {
          assert r[k + 1] == d[k];
        }
      }
      if p == s {
        assert r[idx].start <= p < r[idx].stop;
      }
      if Covers(r, p) {
        var k :| 0 <= k < |r| && r[k].start <= p < r[k].stop;
        if k < idx {
          assert r[k] == d[k];
        } else if k > idx {
          assert r[k] == d[k - 1];
        }
      }
    }
  }

  lemma OrderedInsert(d: seq<Interval>, n: int, idx: int, s: int)
    requires Ordered(d, n) && 0 <= idx <= |d| && 0 <= s < n
    requires idx == 0 || d[idx - 1].stop <= s
    requires idx == |d| || d[idx].start >= s + 1
    ensures Ordered(d[..idx] + [Interval(s, s + 1)] + d[idx..], n)
    ensures Separated(d) && (idx == 0 || d[idx - 1].stop < s) && (idx == |d| || d[idx].start > s + 1)
      ==> Separated(d[..idx] + [Interval(s, s + 1)] + d[idx..])
  {
    var r := d[..idx] + [Interval(s, s + 1)] + d[idx..];
    assert |r| == |d| + 1;
    forall k | 0 <= k < |r| ensures r[k] == if k < idx then d[k] else if k == idx then Interval(s, s + 1) else d[k - 1] {
    }
    forall k | 0 <= k < |r| ensures 0 <= r[k].start < r[k].stop <= n {
    }
    forall k | 0 <= k < |r| - 1 ensures r[k].stop <= r[k + 1].start {
      if k + 1 < idx || k > idx {
        assert r[k] == d[k - (if k > idx then 1 else 0)];
      }
    }
    if Separated(d) && (idx == 0 || d[idx - 1].stop < s) && (idx == |d| || d[idx].start > s + 1) {
      forall k | 0 <= k < |r| - 1 ensures r[k].stop < r[k + 1].start {
      }
    }
  }

  /** Inserting the one-slot run `[s, s+1)` at position `idx`. */
  lemma InsertRun(d: seq<Interval>, n: int, idx: int, s: int)
    requires Ordered(d, n) && 0 <= idx <= |d| && 0 <= s < n
    requires idx == 0 || d[idx - 1].stop <= s
    requires idx == |d| || d[idx].start >= s + 1
    ensures Ordered(d[..idx] + [Interval(s, s + 1)] + d[idx..], n)
    ensures Separated(d) && (idx == 0 || d[idx - 1].stop < s) && (idx == |d| || d[idx].start > s + 1)
      ==> Separated(d[..idx] + [Interval(s, s + 1)] + d[idx..])
    ensures TotalWidth(d[..idx] + [Interval(s, s + 1)] + d[idx..]) == TotalWidth(d) + 1
    ensures forall p :: Covers(d[..idx] + [Interval(s, s + 1)] + d[idx..], p) <==> Covers(d, p) || p == s
  {
    TotalWidthInsert(d, idx, Interval(s, s + 1));
    OrderedInsert(d, n, idx, s);
    CoversInsert(d, idx, s);
  }

  lemma CoversJoin(d: seq<Interval>, j: int, s: int)
    requires 0 <= j < |d| - 1 && d[j].stop == s && d[j + 1].start == s + 1
    requires d[j].start < d[j].stop && d[j + 1].start < d[j + 1].stop
    ensures forall p :: Covers(d[..j] + [Interval(d[j].start, d[j + 1].stop)] + d[j + 2..], p) <==> Covers(d, p) || p == s
  {
    var r := d[..j] + [Interval(d[j].start, d[j + 1].stop)] + d[j + 2..];
    forall p ensures Covers(r, p) <==> Covers(d, p) || p == s {
      if Covers(d, p) {
        var k :| 0 <= k < |d| && d[k].start <= p < d[k].stop;
        if k < j {
          assert r[k] == d[k];
        } else if k <= j + 1 {
          assert r[j].start <= p < r[j].stop;
        } else {
          assert r[k - 1] == d[k];
        }
      }
      if p == s {
        assert r[j].start <= p < r[j].stop;
      }
      if Covers(r, p) {
        var k :| 0 <= k < |r| && r[k].start <= p < r[k].stop;
        if k < j {
          assert r[k] == d[k];
        } else if k > j {
          assert r[k] == d[k + 1];
        } else if p < s {
          assert d[j].start <= p < d[j].stop;
        } else if p > s {
          assert d[j + 1].start <= p < d[j + 1].stop;
        }
      }
    }
  }

  lemma OrderedJoin(d: seq<Interval>, n: int, j: int)
    requires Ordered(d, n) && 0 <= j < |d| - 1
    ensures Ordered(d[..j] + [Interval(d[j].start, d[j + 1].stop)] + d[j + 2..], n)
    ensures Separated(d) ==> Separated(d[..j] + [Interval(d[j].start, d[j + 1].stop)] + d[j + 2..])
  {
    var r := d[..j] + [Interval(d[j].start, d[j + 1].stop)] + d[j + 2..];
    assert forall k :: 0 <= k < j ==> r[k] == d[k];
    assert forall k :: j < k < |r| ==> r[k] == d[k + 1];
  }

  /** Replacing the touching pair `j, j+1` by one run that also covers the gap slot `s`. */
  lemma JoinRuns(d: seq<Interval>, n: int, j: int, s: int)
    requires Ordered(d, n) && 0 <= j < |d| - 1 && d[j].stop == s && d[j + 1].start == s + 1
    ensures Ordered(d[..j] + [Interval(d[j].start, d[j + 1].stop)] + d[j + 2..], n)
    ensures Separated(d) ==> Separated(d[..j] + [Interval(d[j].start, d[j + 1].stop)] + d[j + 2..])
    ensures TotalWidth(d[..j] + [Interval(d[j].start, d[j + 1].stop)] + d[j + 2..]) == TotalWidth(d) + 1
    ensures forall p :: Covers(d[..j] + [Interval(d[j].start, d[j + 1].stop)] + d[j + 2..], p) <==> Covers(d, p) || p == s
  {
    TotalWidthMerge(d, j, Interval(d[j].start, d[j + 1].stop));
    OrderedJoin(d, n, j);
    CoversJoin(d, j, s);
  }

  /** `_add_dead` as evidently intended: the new slot is merged with BOTH neighbouring
      runs, so touching runs never appear. */
  function AddDeadMerged(d: seq<Interval>, s: int): (r: seq<Interval>)
  {
    var idx := BisectLeft(d, Interval(s, s + 1), 0, |d|);
    var joinsLeft := idx > 0 && d[idx - 1].stop == s;
    var joinsRight := idx < |d| && d[idx].start == s + 1;
    if joinsLeft && joinsRight then d[..idx - 1] + [Interval(d[idx - 1].start, d[idx].stop)] + d[idx + 1..]
    else if joinsLeft then d[idx - 1 := Interval(d[idx - 1].start, s + 1)]
    else if joinsRight then d[idx := Interval(s, d[idx].stop)]
    else d[..idx] + [Interval(s, s + 1)] + d[idx..]
  }

  /** The merging registration keeps the ledger ordered AND separated, grows its width by
      one and covers exactly one more slot. */
  lemma AddDeadMergedSound(d: seq<Interval>, n: int, s: int)
    requires Ordered(d, n) && Separated(d) && 0 <= s < n && !Covers(d, s)
    ensures Ordered(AddDeadMerged(d, s), n) && Separated(AddDeadMerged(d, s))
    ensures TotalWidth(AddDeadMerged(d, s)) == TotalWidth(d) + 1
    ensures forall p :: Covers(AddDeadMerged(d, s), p) <==> Covers(d, p) || p == s
  {
    var idx := InsertionPoint(d, n, s);
    if idx > 0 && d[idx - 1].stop == s && idx < |d| && d[idx].start == s + 1 {
      MergedJoin(d, n, s, idx);
    } else {
      MergedSingle(d, n, s, idx);
    }
  }

  /** The ledger `r` is `d` with exactly slot `s` added, kept ordered and separated. */
  ghost predicate Registers(d: seq<Interval>, r: seq<Interval>, n: int, s: int) {
    && Ordered(r, n) && Separated(r)
    && TotalWidth(r) == TotalWidth(d) + 1
    && forall p :: Covers(r, p) <==> Covers(d, p) || p == s
  }

  /** A slot between two runs joins them. */
  lemma MergedJoin(d: seq<Interval>, n: int, s: int, idx: int)
    requires Ordered(d, n) && Separated(d) && 0 <= s < n
    requires 0 < idx < |d| && idx == BisectLeft(d, Interval(s, s + 1), 0, |d|)
    requires d[idx - 1].stop == s && d[idx].start == s + 1
    ensures Registers(d, AddDeadMerged(d, s), n, s)
  {
    assert AddDeadMerged(d, s) == d[..idx - 1] + [Interval(d[idx - 1].start, d[idx].stop)] + d[idx - 1 + 2..];
    JoinRuns(d, n, idx - 1, s);
  }

  /** A slot next to at most one run widens it, or becomes a run of its own. */
  lemma MergedSingle(d: seq<Interval>, n: int, s: int, idx: int)
    requires Ordered(d, n) && Separated(d) && 0 <= s < n
    requires 0 <= idx <= |d| && idx == BisectLeft(d, Interval(s, s + 1), 0, |d|)
    requires forall k :: 0 <= k < idx ==> d[k].stop <= s
    requires forall k :: idx <= k < |d| ==> d[k].start > s
    requires !(idx > 0 && d[idx - 1].stop == s && idx < |d| && d[idx].start == s + 1)
    ensures Registers(d, AddDeadMerged(d, s), n, s)
  {
    if idx > 0 && d[idx - 1].stop == s {
      assert idx == |d| || d[idx].start > s + 1;
      WidenRight(d, n, idx - 1, s);
    } else if idx < |d| && d[idx].start == s + 1 {
      assert idx == 0 || d[idx - 1].stop < s;
      WidenLeft(d, n, idx, s);
    } else {
      InsertRun(d, n, idx, s);
    }
  }

  // ---------------------------------------------------------------------------
  // _get_real_index: logical position -> physical slot

  /** The loop of `_get_real_index` from interval `k` on, with running slot `r`:
      every interval starting at or before `r` pushes `r` past its width. */
  function WalkFrom(d: seq<Interval>, k: nat, r: int): int
    decreases |d| - k
  {
    if k >= |d| then r
    else if r < d[k].start then r
    else WalkFrom(d, k + 1, r + Width(d[k]))
  }

  /** The translation `_get_real_index` applies to an already wrapped index. */
  function Translate(d: seq<Interval>, i: int): int {
    if |d| == 0 then i else WalkFrom(d, 0, i)
  }

  function ClipOne(iv: Interval, p: int): int {
    if p <= iv.start then 0 else if p >= iv.stop then Width(iv) else p - iv.start
  }

  /** Number of slots below `p` that the ledger covers. */
  function Clip(d: seq<Interval>, p: int): int {
    if |d| == 0 then 0 else Clip(d[..|d| - 1], p) + ClipOne(d[|d| - 1], p)
  }

  lemma {:induction false} ClipStep(d: seq<Interval>, n: int, p: int)
    requires Ordered(d, n)
    ensures Clip(d, p + 1) == Clip(d, p) + (if Covers(d, p) then 1 else 0)
  {
    if |d| > 0 {
      ClipStep(d[..|d| - 1], n, p);
      CoversSplit(d, n, p);
    }
  }

  /** A slot is covered by an ordered ledger iff it is covered by exactly one of
      the runs before the last and the last run. */
  lemma CoversSplit(d: seq<Interval>, n: int, p: int)
    requires Ordered(d, n) && |d| > 0
    ensures var last := d[|d| - 1];
      && (Covers(d, p) <==> Covers(d[..|d| - 1], p) || last.start <= p < last.stop)
      && !(Covers(d[..|d| - 1], p) && last.start <= p < last.stop)
  {
    var init, last := d[..|d| - 1], d[|d| - 1];
    if Covers(init, p) {
      var k :| 0 <= k < |init| && init[k].start <= p < init[k].stop;
      assert d[k] == init[k];
      OrderedPairwise(d, n, k, |d| - 1);
    }
    if Covers(d, p) && !(last.start <= p < last.stop) {
      var k :| 0 <= k < |d| && d[k].start <= p < d[k].stop;
      assert init[k] == d[k];
    }
  }

  lemma {:induction false} ClipZero(d: seq<Interval>, n: int)
    requires Ordered(d, n)
    ensures Clip(d, 0) == 0
  {
    if |d| > 0 {
      ClipZero(d[..|d| - 1], n);
    }
  }

  /** Under an exact ledger, the slots below `p` that are tombstones are exactly
      the covered ones. */
  lemma {:induction false} DeadBefore<T>(items: seq<Slot<T>>, d: seq<Interval>, p: nat)
    requires Ordered(d, |items|) && Exact(items, d) && p <= |items|
    ensures p - |Elements(items[..p])| == Clip(d, p)
  {
    if p == 0 {
      ClipZero(d, |items|);
    } else {
      DeadBefore(items, d, p - 1);
      ElementsPrefixStep(items, p - 1);
      ClipStep(d, |items|, p - 1);
    }
  }

  lemma {:induction false} ClipUpTo(d: seq<Interval>, n: int, k: int, p: int, m: int)
    requires Ordered(d, n) && 0 <= k <= |d| && 0 <= m <= |d|
    requires forall j :: 0 <= j < k ==> d[j].stop <= p
    requires forall j :: k <= j < |d| ==> d[j].start >= p
    ensures Clip(d[..m], p) == TotalWidth(d[..if m <= k then m else k])
  {
    if m > 0 {
      ClipUpTo(d, n, k, p, m - 1);
      assert d[..m][..m - 1] == d[..m - 1];
    }
  }

  /** Between runs, the covered slots below `p` are the runs before `p`. */
  lemma GapClip(d: seq<Interval>, n: int, k: int, p: int)
    requires Ordered(d, n) && 0 <= k <= |d|
    requires forall j :: 0 <= j < k ==> d[j].stop <= p
    requires forall j :: k <= j < |d| ==> d[j].start >= p
    ensures Clip(d, p) == TotalWidth(d[..k])
  {
    ClipUpTo(d, n, k, p, |d|);
    assert d[..|d|] == d;
  }

  lemma WidthPrefixStep(d: seq<Interval>, k: int)
    requires 0 <= k < |d|
    ensures TotalWidth(d[..k + 1]) == TotalWidth(d[..k]) + Width(d[k])
  {
    assert d[..k + 1][..k] == d[..k];
  }

  /** The walk that starts at logical position `i` stops on the physical slot of the
      i-th live element. */
  lemma {:induction false} WalkToLive<T>(items: seq<Slot<T>>, d: seq<Interval>, p: nat, k: nat)
    requires Ordered(d, |items|) && Exact(items, d)
    requires p < |items| && items[p].Live?
    requires k <= |d| && forall j :: 0 <= j < k ==> d[j].stop <= p
    ensures WalkFrom(d, k, |Elements(items[..p])| + TotalWidth(d[..k])) == p
    decreases |d| - k
  {
    if k == |d| || d[k].start > p {
      WalkStopsHere(items, d, p, k);
    } else {
      WalkPassesRun(items, d, p, k);
      WalkToLive(items, d, p, k + 1);
    }
  }

  /** With no interval left at or below `p`, the walk has reached `p`. */
  lemma WalkStopsHere<T>(items: seq<Slot<T>>, d: seq<Interval>, p: nat, k: nat)
    requires Ordered(d, |items|) && Exact(items, d)
    requires p < |items| && items[p].Live?
    requires k <= |d| && forall j :: 0 <= j < k ==> d[j].stop <= p
    requires k == |d| || d[k].start > p
    ensures |Elements(items[..p])| + TotalWidth(d[..k]) == p
  {
    DeadBefore(items, d, p);
    if k < |d| {
      forall j | k <= j < |d| ensures d[j].start >= p {
        if j > k { OrderedPairwise(d, |items|, k, j); }
      }
    }
    GapClip(d, |items|, k, p);
  }

  /** An interval starting at or below a live `p` ends at or below it, and the walk
      has already reached its start. */
  lemma WalkPassesRun<T>(items: seq<Slot<T>>, d: seq<Interval>, p: nat, k: nat)
    requires Ordered(d, |items|) && Exact(items, d)
    requires p < |items| && items[p].Live?
    requires k < |d| && forall j :: 0 <= j < k ==> d[j].stop <= p
    requires d[k].start <= p
    ensures d[k].stop <= p
    ensures |Elements(items[..p])| + TotalWidth(d[..k]) >= d[k].start
    ensures TotalWidth(d[..k + 1]) == TotalWidth(d[..k]) + Width(d[k])
  {
    assert !(d[k].start <= p < d[k].stop);
    var st := d[k].start;
    forall j | k <= j < |d| ensures d[j].start >= st {
      if j > k { OrderedPairwise(d, |items|, k, j); }
    }
    forall j | 0 <= j < k ensures d[j].stop <= st {
      OrderedPairwise(d, |items|, j, k);
    }
    GapClip(d, |items|, k, st);
    DeadBefore(items, d, st);
    CountMonotone(items, st, p);
    WidthPrefixStep(d, k);
  }

  /** A walk that starts at or beyond the live count ends past every slot. */
  lemma {:induction false} WalkPastEnd<T>(items: seq<Slot<T>>, d: seq<Interval>, i: int, k: nat)
    requires Ordered(d, |items|) && Exact(items, d)
    requires i >= |Elements(items)| && k <= |d|
    ensures WalkFrom(d, k, i + TotalWidth(d[..k])) == i + TotalWidth(d)
    decreases |d| - k
  {
    if k == |d| {
      assert d[..k] == d;
    } else {
      var st := d[k].start;
      forall j | k <= j < |d| ensures d[j].start >= st {
        if j > k { OrderedPairwise(d, |items|, k, j); }
      }
      forall j | 0 <= j < k ensures d[j].stop <= st {
        OrderedPairwise(d, |items|, j, k);
      }
      GapClip(d, |items|, k, st);
      DeadBefore(items, d, st);
      CountMonotone(items, st, |items|);
      assert items[..|items|] == items;
      var r := i + TotalWidth(d[..k]);
      assert st <= r;
      WidthPrefixStep(d, k);
      assert r + Width(d[k]) == i + TotalWidth(d[..k + 1]);
      WalkPastEnd(items, d, i, k + 1);
      assert WalkFrom(d, k, r) == WalkFrom(d, k + 1, r + Width(d[k]));
    }
  }

  /** The ledger's total width is the number of tombstones. */
  lemma WidthIsDeadCount<T>(items: seq<Slot<T>>, d: seq<Interval>)
    requires Ordered(d, |items|) && Exact(items, d)
    ensures TotalWidth(d) == DeadCount(items)
  {
    DeadBefore(items, d, |items|);
    assert items[..|items|] == items;
    GapClip(d, |items|, |d|, |items|);
    assert d[..|d|] == d;
  }

  /** With an exact ledger the translation sends logical position `i` to the slot
      holding the i-th live element, and any position at or past the live count
      beyond the last slot. */
  lemma TranslateSound<T>(items: seq<Slot<T>>, d: seq<Interval>, i: int)
    requires Ordered(d, |items|) && Exact(items, d)
    ensures 0 <= i < |Elements(items)| ==>
      0 <= Translate(d, i) < |items| && items[Translate(d, i)] == Live(Elements(items)[i])
    ensures i >= |Elements(items)| ==> Translate(d, i) == i + DeadCount(items) >= |items|
    ensures i < 0 ==> Translate(d, i) == i
  {
    WidthIsDeadCount(items, d);
    assert d[..0] == [];
    if 0 <= i < |Elements(items)| {
      var p := LiveSlotOf(items, i);
      WalkToLive(items, d, p, 0);
      NthLive(items, p);
    } else if i >= |Elements(items)| {
      WalkPastEnd(items, d, i, 0);
    }
  }

  /** With a separated exact ledger and at least one live slot, a trailing tombstone
      run is exactly the last interval, and the slot before it is live. */
  lemma LastRunAtEnd<T>(items: seq<Slot<T>>, d: seq<Interval>) returns (a: nat)
    requires Ordered(d, |items|) && Separated(d) && Exact(items, d)
    requires |items| > 0 && items[|items| - 1].Tombstone? && |Elements(items)| > 0
    ensures |d| > 0 && d[|d| - 1].stop == |items| && d[|d| - 1].start == a
    ensures 0 < a < |items| && items[a - 1].Live?
    ensures forall i :: a <= i < |items| ==> items[i].Tombstone?
  {
    var n := |items|;
    assert Covers(d, n - 1);
    var k :| 0 <= k < |d| && d[k].start <= n - 1 < d[k].stop;
    var last := |d| - 1;
    if k < last {
      OrderedPairwise(d, n, k, last);
    }
    a := d[last].start;
    forall i | a <= i < n ensures items[i].Tombstone? {
      assert d[last].start <= i < d[last].stop;
    }
    if a == 0 {
      DropDeadTail(items, 0);
      assert false;
    }
    if Covers(d, a - 1) {
      var j :| 0 <= j < |d| && d[j].start <= a - 1 < d[j].stop;
      if j < last {
        SeparatedPairwise(d, n, j, last);
      }
      assert false;
    }
  }

  /** Dropping the last interval together with the trailing run it describes keeps
      the ledger exact for the shortened backing sequence. */
  lemma TrimKeepsExact<T>(items: seq<Slot<T>>, d: seq<Interval>, a: nat)
    requires Ordered(d, |items|) && Separated(d) && Exact(items, d)
    requires |d| > 0 && d[|d| - 1].start == a && a <= |items|
    ensures Ordered(d[..|d| - 1], a) && Separated(d[..|d| - 1]) && Exact(items[..a], d[..|d| - 1])
  {
    var n, last, init := |items|, |d| - 1, d[..|d| - 1];
    forall j | 0 <= j < |init| ensures init[j].stop <= a {
      OrderedPairwise(d, n, j, last);
    }
    forall p | 0 <= p < a ensures (items[..a][p].Tombstone? <==> Covers(init, p)) {
      if Covers(d, p) {
        var j :| 0 <= j < |d| && d[j].start <= p < d[j].stop;
        assert init[j] == d[j];
      }
      if Covers(init, p) {
        var j :| 0 <= j < |init| && init[j].start <= p < init[j].stop;
        assert d[j] == init[j];
      }
    }
  }
}
