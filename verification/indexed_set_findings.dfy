/** Discrepancies between the container's code and its evident intent, each shown on
    a reachable state, next to the corrected behaviour the rest of the model uses. */
module IndexedSetFindings {
  import opened Wrappers
  import opened Seqs
  import opened Slots
  import opened Ledger
  import opened IndexedSets

  // ---------------------------------------------------------------------------
  // A reachable state with a leading tombstone

  /** Tombstoning slot 0 of the compact state of distinct `xs`. */
  lemma KilledFirst<T>(xs: seq<T>)
    requires Distinct(xs) && |xs| >= 2
    ensures var t := Killed(Packed(xs), 0);
      && Consistent(t) && t.dead == [Interval(0, 1)]
      && |t.items| == |xs| && |t.index| == |xs| - 1 && t.items[|xs| - 1].Live?
      && Elems(t) == xs[1..]
      && t.index == PositionsOf(xs) - {xs[0]}
  {
    PackedValid(xs);
    KillConsistent(Packed(xs), 0);
    KilledFirstShape(xs);
  }

  lemma KilledFirstShape<T>(xs: seq<T>)
    requires Distinct(xs) && |xs| >= 2
    ensures var t := Killed(Packed(xs), 0);
      && t.dead == [Interval(0, 1)]
      && |t.items| == |xs| && |t.index| == |xs| - 1 && t.items[|xs| - 1].Live?
      && Elems(t) == xs[1..]
      && t.index == PositionsOf(xs) - {xs[0]}
  {
    var items := Lives(xs);
    var t := Killed(Packed(xs), 0);
    assert t.items == items[0 := Tombstone];
    assert t.index == PositionsOf(xs) - {xs[0]};
    assert t.dead == [Interval(0, 1)];
    assert Elems(t) == xs[1..] by {
      ElementsOfLives(xs);
      KillElems(items, 0);
      assert xs[..0] + xs[1..] == xs[1..];
    }
    assert |t.index| == |xs| - 1 by {
      PositionsOfFacts(xs);
      DistinctCard(xs);
      assert t.index.Keys == SetOf(xs) - {xs[0]};
    }
  }

  /** `IndexedSet(xs)` for distinct `xs` of at least eight elements, after removing
      the first: one dead slot is not more than an eighth of the slots and the last
      slot is live, so nothing is culled and slot 0 stays a tombstone. */
  lemma RemoveFirst<T>(xs: seq<T>)
    requires Distinct(xs) && |xs| >= 8
    ensures Valid(FromSeq(xs)) && FromSeq(xs) == Packed(xs)
    ensures var t := Killed(Packed(xs), 0);
      && Remove(FromSeq(xs), xs[0]) == Ok(t)
      && Valid(t) && t.dead == [Interval(0, 1)]
      && Elems(t) == xs[1..]
      && t.index == PositionsOf(xs) - {xs[0]}
  {
    FromDistinctIsPacked(xs);
    PackedValid(xs);
    PositionsOfFacts(xs);
    KilledFirst(xs);
    var t := Killed(Packed(xs), 0);
    assert DeadIndexCount(t) == 1;
    assert Cull(t) == t;
  }

  /** There `x.index(xs[1])` is 1, yet `x[1]` is `xs[2]`: the slot is not the
      position. The logical index gives 0, and `x[0]` is `xs[1]`. */
  lemma IndexIsSlotCounterexample<T>(xs: seq<T>)
    requires Distinct(xs) && |xs| >= 8
    ensures var t := Killed(Packed(xs), 0);
      && Valid(t)
      && IndexOf(t, xs[1]) == Ok(1)
      && Get(t, 1) == Ok(Live(xs[2])) && xs[2] != xs[1]
      && LogicalIndexOf(t, xs[1]) == Ok(0) && Get(t, 0) == Ok(Live(xs[1]))
  {
    RemoveFirst(xs);
    var t := Killed(Packed(xs), 0);
    PositionsOfFacts(xs);
    assert xs[1] != xs[0] && xs[1] in t.index;
    GetSound(t, 1);
    GetSound(t, 0);
    assert t.items[..1] == [Tombstone];
    assert Elements(t.items[..1]) == [];
  }

  /** There `x[2 - 3*n]` is wrapped by `len == n - 1` twice, to `-n`, and the slot list
      of length `n` read at `-n` is the tombstone in slot 0: the sentinel leaks out.
      The checked lookup raises `IndexError` instead. */
  lemma GetLeaksTombstone<T>(xs: seq<T>)
    requires Distinct(xs) && |xs| >= 8
    ensures Valid(FromSeq(xs))
    ensures var t := Killed(Packed(xs), 0);
      && Remove(FromSeq(xs), xs[0]) == Ok(t)
      && Valid(t) && Len(t) == |xs| - 1
      && Get(t, 2 - 3 * |xs|) == Ok(Tombstone)
      && GetChecked(t, 2 - 3 * |xs|) == Err(IndexError)
  {
    RemoveFirst(xs);
    var t := Killed(Packed(xs), 0);
    assert Len(t) == |xs| - 1 by {
      ConsistentFacts(t);
    }
    GetSound(t, 2 - 3 * |xs|);
    GetCheckedSound(t, 2 - 3 * |xs|);
    assert |t.items| == |xs| && t.items[0] == Tombstone by {
      assert t.items[..1] == [Tombstone];
    }
  }

  /** The walk over a single leading tombstone moves every position up by one. */
  lemma LeadingTombstoneShift(i: int)
    requires i >= 0
    ensures Translate([Interval(0, 1)], i) == i + 1
  {
  }

  /** There `x[1:]` is `xs[3:]`, missing `xs[2]`, while the corrected slice is `xs[2:]`. */
  lemma SliceSkipsCounterexample<T>(xs: seq<T>)
    requires Distinct(xs) && |xs| >= 8
    ensures var t := Killed(Packed(xs), 0);
      && Valid(t)
      && IterSlice(t, Some(1), None, None) == Ok(xs[3..])
      && Elems(GetSliceLogical(t, Some(1), Some(|xs| - 1), None).value) == xs[2..]
  {
    RemoveFirst(xs);
    var t := Killed(Packed(xs), 0);
    assert Len(t) == |xs| - 1 by {
      ConsistentFacts(t);
    }
    SliceFromOne(t, xs);
    LogicalSliceFromOne(t, xs);
  }

  lemma LogicalSliceFromOne<T>(t: IndexedSet<T>, xs: seq<T>)
    requires |xs| >= 8 && Valid(t) && Elems(t) == xs[1..] && Len(t) == |xs| - 1
    ensures Elems(GetSliceLogical(t, Some(1), Some(|xs| - 1), None).value) == xs[2..]
  {
    GetSliceLogicalSound(t, 1, |xs| - 1);
    assert Elems(t)[1..|xs| - 1] == xs[2..];
  }

  lemma SliceFromOne<T>(t: IndexedSet<T>, xs: seq<T>)
    requires |xs| >= 8 && Valid(t) && t.dead == [Interval(0, 1)] && Elems(t) == xs[1..] && Len(t) == |xs| - 1
    ensures IterSlice(t, Some(1), None, None) == Ok(xs[3..])
  {
    LeadingTombstoneShift(1);
    assert RealIndex(t, 1) == 2;
    GetSliceFromSlot(t, 1);
    assert Elems(t)[2..] == xs[3..];
  }

  /** `range(n)` is distinct, so `range(8)` and `range(32)` are inputs of the scenarios. */
  lemma RangeQualifies(n: nat)
    ensures |seq(n, i => i)| == n && Distinct(seq(n, i => i))
  {
  }

  // ---------------------------------------------------------------------------
  // `_add_dead` as written with `_cull`'s trim

  /** `remove` with the unmerged `_add_dead` of the source. */
  function RemoveAsWritten<T(==)>(s: IndexedSet<T>, x: T): Result<IndexedSet<T>>
    requires IndexSound(s)
  {
    if x !in s.index then Err(KeyError)
    else Ok(Cull(KilledAsWritten(s, s.index[x])))
  }

  /** The state right after the tombstoning step of the source's `remove`. */
  function KilledAsWritten<T(==)>(s: IndexedSet<T>, p: int): IndexedSet<T>
    requires 0 <= p < |s.items| && s.items[p].Live?
  {
    IndexedSet(s.items[p := Tombstone], s.index - {s.items[p].e}, AddDead(s.dead, p))
  }

  /** The trailing run that `TrailingDead` counts is made of tombstones only. */
  lemma {:induction false} TrailingDeadTombstones<T>(items: seq<Slot<T>>)
    ensures forall i :: |items| - TrailingDead(items) <= i < |items| ==> items[i].Tombstone?
  {
    if |items| > 0 && items[|items| - 1].Tombstone? {
      var init := items[..|items| - 1];
      TrailingDeadTombstones(init);
      assert forall i :: |items| - TrailingDead(items) <= i < |items| - 1 ==> items[i] == init[i];
    }
  }

  /** Compaction needs only the map and the slots to agree, not an exact ledger. */
  lemma CompactAnyLedger<T>(t: IndexedSet<T>)
    requires IndexSound(t) && IndexComplete(t)
    requires |t.dead| > 0 && DeadIndexCount(t) > 0 && Len(t) > 0
    ensures Compact(t) == Packed(Elems(t))
  {
    ConsistentFacts(t);
    var live := Elements(t.items);
    var written := Lives(live) + t.items[|live|..];
    assert DeadIndexCount(t) == |t.items| - |live|;
    assert DelTail(written, DeadIndexCount(t)) == Lives(live);
    RepointedMap(t.index, live);
  }

  /** Cutting the trailing tombstones needs no ledger either. */
  lemma TrimAnyLedger<T>(t: IndexedSet<T>, d: seq<Interval>)
    requires IndexSound(t) && IndexComplete(t)
    ensures var r := IndexedSet(t.items[..|t.items| - TrailingDead(t.items)], t.index, d);
      && Elems(r) == Elems(t) && IndexSound(r) && IndexComplete(r)
  {
    var m := |t.items| - TrailingDead(t.items);
    TrailingDeadTombstones(t.items);
    DropDeadTail(t.items, m);
    var r := IndexedSet(t.items[..m], t.index, d);
    forall x | x in r.index ensures 0 <= r.index[x] < |r.items| && r.items[r.index[x]] == Live(x) {
      assert t.items[t.index[x]] == Live(x);
    }
  }

  /** What `_cull` keeps over a ledger that may be stale. */
  ghost predicate CullKeepsMap<T>(t: IndexedSet<T>) {
    && Elems(Cull(t)) == Elems(t) && Cull(t).index.Keys == t.index.Keys
    && IndexSound(Cull(t)) && IndexComplete(Cull(t))
  }

  /** `_cull` over a ledger that may be stale, as long as it is empty when no slot is
      dead: the iteration and the keys are kept, and the map still describes the slots. */
  lemma CullAnyLedger<T>(t: IndexedSet<T>)
    requires IndexSound(t) && IndexComplete(t)
    requires |t.dead| > 0 ==> DeadIndexCount(t) > 0
    ensures CullKeepsMap(t)
  {
    if |t.dead| == 0 {
      assert Cull(t) == t;
    } else if Len(t) == 0 {
      CullEmptiedAnyLedger(t);
    } else if |t.dead| > MaxDeadIntervals || DeadIndexCount(t) > |t.items| / CompactionFactor {
      CullCompactAnyLedger(t);
    } else {
      CullTrimAnyLedger(t);
    }
  }

  lemma CullEmptiedAnyLedger<T>(t: IndexedSet<T>)
    requires IndexSound(t) && IndexComplete(t) && |t.dead| > 0 && Len(t) == 0
    ensures CullKeepsMap(t)
  {
    ConsistentFacts(t);
    assert Cull(t) == IndexedSet([], t.index, []);
  }

  lemma CullCompactAnyLedger<T>(t: IndexedSet<T>)
    requires IndexSound(t) && IndexComplete(t) && |t.dead| > 0 && DeadIndexCount(t) > 0 && Len(t) > 0
    requires |t.dead| > MaxDeadIntervals || DeadIndexCount(t) > |t.items| / CompactionFactor
    ensures CullKeepsMap(t)
  {
    assert Cull(t) == Compact(t);
    CompactAnyLedger(t);
    ConsistentFacts(t);
    PackedValid(Elems(t));
    PositionsOfFacts(Elems(t));
  }

  lemma CullTrimAnyLedger<T>(t: IndexedSet<T>)
    requires IndexSound(t) && IndexComplete(t) && |t.dead| > 0 && Len(t) > 0
    requires !(|t.dead| > MaxDeadIntervals || DeadIndexCount(t) > |t.items| / CompactionFactor)
    ensures CullKeepsMap(t)
  {
    var x :| x in t.index;
    assert |t.items| > 0;
    var d := if t.dead[|t.dead| - 1].stop == |t.items| then t.dead[..|t.dead| - 1] else t.dead;
    TrimAnyLedger(t, d);
    if t.items[|t.items| - 1].Tombstone? {
      assert Cull(t) == IndexedSet(t.items[..|t.items| - TrailingDead(t.items)], t.index, d);
    } else {
      assert Cull(t) == t;
    }
  }

  /** The source's `remove`, whatever state its ledger is in: an absent element raises
      `KeyError`; a present one is deleted from the iteration, which otherwise keeps its
      order, and the length drops by one. Validity is not promised: `StaleLedger` shows
      a ledger left past the end. */
  lemma RemoveAsWrittenSound<T>(s: IndexedSet<T>, x: T)
    requires IndexSound(s) && IndexComplete(s)
    ensures !Contains(s, x) ==> RemoveAsWritten(s, x) == Err(KeyError)
    ensures Contains(s, x) ==>
      && RemoveAsWritten(s, x).Ok?
      && IndexSound(RemoveAsWritten(s, x).value) && IndexComplete(RemoveAsWritten(s, x).value)
      && Elems(RemoveAsWritten(s, x).value) == Without(Elems(s), x)
      && Len(RemoveAsWritten(s, x).value) == Len(s) - 1
      && (forall y :: Contains(RemoveAsWritten(s, x).value, y) <==> Contains(s, y) && y != x)
  {
    if x in s.index {
      var p := s.index[x];
      var t := KilledAsWritten(s, p);
      ConsistentFacts(s);
      KillElems(s.items, p);
      assert t.index.Keys == s.index.Keys - {x};
      forall y | y in t.index ensures 0 <= t.index[y] < |t.items| && t.items[t.index[y]] == Live(y) {
        assert s.index[y] != p;
      }
      ConsistentFacts(t);
      CullAnyLedger(t);
      ConsistentFacts(Cull(t));
    }
  }

  /** Widening the left run up to the right one leaves two runs that touch. */
  lemma AddDeadTouches(a: int)
    ensures AddDead([Interval(a, a + 1), Interval(a + 2, a + 3)], a + 1) == [Interval(a, a + 2), Interval(a + 2, a + 3)]
    ensures !Separated(AddDead([Interval(a, a + 1), Interval(a + 2, a + 3)], a + 1))
  {
    var d := [Interval(a, a + 1), Interval(a + 2, a + 3)];
    assert BisectLeft(d, Interval(a + 1, a + 2), 0, 2) == 1;
    var r := AddDead(d, a + 1);
    assert r[0].stop == r[1].start;
  }

  /** The compact state of distinct `xs` with the slots in `gone` removed, the ledger
      left as it is. */
  predicate Scenario<T>(xs: seq<T>, s: IndexedSet<T>, gone: set<int>) {
    && |s.items| == |xs| && |s.index| == |xs| - |gone|
    && (forall i :: 0 <= i < |xs| ==> s.items[i] == if i in gone then Tombstone else Live(xs[i]))
    && (forall i :: 0 <= i < |xs| && i !in gone ==> xs[i] in s.index && s.index[xs[i]] == i)
    && (forall x :: x in s.index ==> 0 <= s.index[x] < |xs| && s.index[x] !in gone && xs[s.index[x]] == x)
  }

  lemma ScenarioStart<T>(xs: seq<T>)
    requires Distinct(xs)
    ensures FromSeq(xs) == Packed(xs) && Scenario(xs, Packed(xs), {}) && Packed(xs).dead == []
  {
    FromDistinctIsPacked(xs);
    PositionsOfFacts(xs);
    DistinctCard(xs);
    var s := Packed(xs);
    forall x | x in s.index ensures 0 <= s.index[x] < |xs| && xs[s.index[x]] == x {
      var i :| 0 <= i < |xs| && xs[i] == x;
    }
  }

  /** One removal of the scenario that neither empties the set, nor cuts the last
      slot, nor reaches a compaction threshold: nothing is culled. */
  lemma ScenarioStep<T>(xs: seq<T>, s: IndexedSet<T>, gone: set<int>, q: int)
    requires Scenario(xs, s, gone) && 0 <= q < |xs| - 1 && q !in gone && |xs| - 1 !in gone
    requires |gone| + 2 <= |xs| && |gone| + 1 <= |xs| / CompactionFactor
    requires |AddDead(s.dead, q)| <= MaxDeadIntervals
    ensures IndexSound(s) && xs[q] in s.index && s.index[xs[q]] == q && s.items[q].Live?
    ensures RemoveAsWritten(s, xs[q]) == Ok(KilledAsWritten(s, q))
    ensures Scenario(xs, KilledAsWritten(s, q), gone + {q})
    ensures KilledAsWritten(s, q).dead == AddDead(s.dead, q)
  {
    var t := KilledAsWritten(s, q);
    assert |gone + {q}| == |gone| + 1;
    assert t.index.Keys == s.index.Keys - {xs[q]};
    assert |t.index| == |s.index| - 1;
    assert s.items[|xs| - 1].Live?;
    assert Cull(t) == t;
  }

  /** Removing slot n-2 of the compact state starts a run `[n-2, n-1)`. */
  lemma StaleStep1<T>(xs: seq<T>) returns (s1: IndexedSet<T>)
    requires Distinct(xs) && |xs| >= 32
    ensures IndexSound(FromSeq(xs)) && RemoveAsWritten(FromSeq(xs), xs[|xs| - 2]) == Ok(s1)
    ensures Scenario(xs, s1, {|xs| - 2}) && s1.dead == [Interval(|xs| - 2, |xs| - 1)]
  {
    var n := |xs|;
    ScenarioStart(xs);
    var s0 := Packed(xs);
    assert AddDead([], n - 2) == [Interval(n - 2, n - 1)];
    ScenarioStep(xs, s0, {}, n - 2);
    s1 := KilledAsWritten(s0, n - 2);
    assert {} + {n - 2} == {n - 2};
  }

  /** Removing slot n-4 inserts a second run `[n-4, n-3)` in front. */
  lemma StaleStep2<T>(xs: seq<T>, s1: IndexedSet<T>) returns (s2: IndexedSet<T>)
    requires |xs| >= 32 && Scenario(xs, s1, {|xs| - 2}) && s1.dead == [Interval(|xs| - 2, |xs| - 1)]
    ensures IndexSound(s1) && RemoveAsWritten(s1, xs[|xs| - 4]) == Ok(s2)
    ensures Scenario(xs, s2, {|xs| - 2, |xs| - 4})
    ensures s2.dead == [Interval(|xs| - 4, |xs| - 3), Interval(|xs| - 2, |xs| - 1)]
  {
    var n := |xs|;
    assert AddDead(s1.dead, n - 4) == [Interval(n - 4, n - 3), Interval(n - 2, n - 1)] by {
      assert BisectLeft(s1.dead, Interval(n - 4, n - 3), 0, 1) == 0;
    }
    ScenarioStep(xs, s1, {n - 2}, n - 4);
    s2 := KilledAsWritten(s1, n - 4);
    assert {n - 2} + {n - 4} == {n - 2, n - 4};
  }

  /** Removing slot n-3 widens `[n-4, n-3)` up to `[n-2, n-1)` without merging them. */
  lemma StaleStep3<T>(xs: seq<T>, s2: IndexedSet<T>) returns (s3: IndexedSet<T>)
    requires |xs| >= 32 && Scenario(xs, s2, {|xs| - 2, |xs| - 4})
    requires s2.dead == [Interval(|xs| - 4, |xs| - 3), Interval(|xs| - 2, |xs| - 1)]
    ensures IndexSound(s2) && RemoveAsWritten(s2, xs[|xs| - 3]) == Ok(s3)
    ensures Scenario(xs, s3, {|xs| - 2, |xs| - 4, |xs| - 3})
    ensures s3.dead == [Interval(|xs| - 4, |xs| - 2), Interval(|xs| - 2, |xs| - 1)]
  {
    var n := |xs|;
    assert AddDead(s2.dead, n - 3) == [Interval(n - 4, n - 2), Interval(n - 2, n - 1)] by {
      assert BisectLeft(s2.dead, Interval(n - 3, n - 2), 0, 2) == 1;
    }
    assert |{n - 2, n - 4}| == 2;
    ScenarioStep(xs, s2, {n - 2, n - 4}, n - 3);
    s3 := KilledAsWritten(s2, n - 3);
    assert {n - 2, n - 4} + {n - 3} == {n - 2, n - 4, n - 3};
  }

  /** Removing the last slot n-1 widens `[n-2, n-1)` to `[n-2, n)`: the ledger now holds
      two touching runs, and the last four slots are tombstones. */
  lemma StaleStep4<T>(xs: seq<T>, s3: IndexedSet<T>) returns (t: IndexedSet<T>)
    requires |xs| >= 32 && Scenario(xs, s3, {|xs| - 2, |xs| - 4, |xs| - 3})
    requires s3.dead == [Interval(|xs| - 4, |xs| - 2), Interval(|xs| - 2, |xs| - 1)]
    ensures IndexSound(s3) && RemoveAsWritten(s3, xs[|xs| - 1]) == Ok(Cull(t))
    ensures t.dead == [Interval(|xs| - 4, |xs| - 2), Interval(|xs| - 2, |xs|)]
    ensures |t.items| == |xs| && |t.index| == |xs| - 4 && xs[|xs| - 1] !in t.index
    ensures t.items[|xs| - 5].Live? && forall i :: |xs| - 4 <= i < |xs| ==> t.items[i].Tombstone?
  {
    var n := |xs|;
    assert |{n - 2, n - 4, n - 3}| == 3;
    assert xs[n - 1] in s3.index && s3.index[xs[n - 1]] == n - 1;
    t := KilledAsWritten(s3, n - 1);
    assert t.dead == [Interval(n - 4, n - 2), Interval(n - 2, n)] by {
      assert BisectLeft(s3.dead, Interval(n - 1, n), 0, 2) == 2;
    }
    assert t.index.Keys == s3.index.Keys - {xs[n - 1]};
    assert |t.index| == n - 4;
  }

  /** The trim then cuts the four trailing tombstones but drops only the last run, so
      the ledger keeps `[n-4, n-2)`, which lies beyond the new end. */
  lemma StaleTrim<T>(t: IndexedSet<T>, n: int)
    requires n >= 32 && |t.items| == n && |t.index| == n - 4
    requires t.dead == [Interval(n - 4, n - 2), Interval(n - 2, n)]
    requires t.items[n - 5].Live? && forall i :: n - 4 <= i < n ==> t.items[i].Tombstone?
    ensures Cull(t) == IndexedSet(t.items[..n - 4], t.index, [Interval(n - 4, n - 2)])
    ensures !Ordered(Cull(t).dead, |Cull(t).items|)
  {
    TrailingDeadRun(t.items, n - 4);
    assert Cull(t).dead[0].stop > n - 4;
  }

  /** `IndexedSet(xs)` for distinct `xs` of at least 32 elements, after removing the
      elements in slots n-2, n-4, n-3 and n-1 with the source's `remove`: the backing
      sequence is cut to n-4 slots while the ledger still claims slots n-4 and n-3. */
  lemma StaleLedger<T>(xs: seq<T>) returns (s1: IndexedSet<T>, s2: IndexedSet<T>, s3: IndexedSet<T>, s4: IndexedSet<T>)
    requires Distinct(xs) && |xs| >= 32
    ensures IndexSound(FromSeq(xs)) && RemoveAsWritten(FromSeq(xs), xs[|xs| - 2]) == Ok(s1)
    ensures IndexSound(s1) && RemoveAsWritten(s1, xs[|xs| - 4]) == Ok(s2)
    ensures IndexSound(s2) && RemoveAsWritten(s2, xs[|xs| - 3]) == Ok(s3)
    ensures IndexSound(s3) && RemoveAsWritten(s3, xs[|xs| - 1]) == Ok(s4)
    ensures |s4.items| == |xs| - 4 && s4.dead == [Interval(|xs| - 4, |xs| - 2)]
    ensures !Ordered(s4.dead, |s4.items|)
    ensures xs[|xs| - 1] !in s4.index && Len(s4) == |xs| - 4
  {
    s1 := StaleStep1(xs);
    s2 := StaleStep2(xs, s1);
    s3 := StaleStep3(xs, s2);
    var t := StaleStep4(xs, s3);
    StaleTrim(t, |xs|);
    s4 := Cull(t);
  }

  /** Re-adding the last removed element then gives a set of length n-3 whose last
      position `x[n-4]` raises `IndexError`: the stale run pushes the walk past the end. */
  lemma StaleLedgerBreaksIndexing<T>(xs: seq<T>, s4: IndexedSet<T>)
    requires |xs| >= 32
    requires |s4.items| == |xs| - 4 && s4.dead == [Interval(|xs| - 4, |xs| - 2)]
    requires xs[|xs| - 1] !in s4.index && Len(s4) == |xs| - 4
    ensures var u := Add(s4, xs[|xs| - 1]);
      && Len(u) == |xs| - 3
      && Get(u, |xs| - 4) == Err(IndexError)
  {
    var n := |xs|;
    var u := Add(s4, xs[n - 1]);
    assert u.dead == [Interval(n - 4, n - 2)];
    assert |u.index| == n - 3;
    assert WalkFrom(u.dead, 1, n - 2) == n - 2;
    assert RealIndex(u, n - 4) == n - 2;
    assert |u.items| == n - 3;
  }

  /** With `_add_dead` merging both neighbours, as evidently intended, the same
      removals keep every invariant, so `x[n-4]` finds the re-added element. */
  lemma MergedLedgerKeepsIndexing<T>(s: IndexedSet<T>, x: T, y: T)
    requires Valid(s) && Contains(s, x) && !Contains(s, y) && y != x
    ensures Remove(s, x).Ok? && Valid(Remove(s, x).value)
    ensures var u := Add(Remove(s, x).value, y);
      && Valid(u) && Len(u) == Len(s)
      && Get(u, Len(u) - 1) == Ok(Live(y))
  {
    RemoveSound(s, x);
    var r := Remove(s, x).value;
    AddSound(r, y);
    var u := Add(r, y);
    ConsistentFacts(u);
    GetSound(u, Len(u) - 1);
  }
}
