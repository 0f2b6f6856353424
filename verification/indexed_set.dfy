/** `IndexedSet` of boltons/setutils.py: an insertion-ordered set that also supports
    list-style indexing. The state is a backing sequence of slots, a map from each
    element to its slot, and a ledger of tombstone runs. */
module IndexedSets {
  import opened Wrappers
  import opened Seqs
  import opened Slots
  import opened Ledger

  /** `_COMPACTION_FACTOR`. */
  const CompactionFactor: int := 8
  /** The ledger length beyond which `_cull` compacts regardless of tombstone count. */
  const MaxDeadIntervals: int := 384

  /** `item_list`, `item_index_map`, `dead_indices`. */
  datatype IndexedSet<T(==)> = IndexedSet(items: seq<Slot<T>>, index: map<T, int>, dead: seq<Interval>)

  // ---------------------------------------------------------------------------
  // Invariants

  /** Every mapped element sits at its recorded slot. */
  predicate IndexSound<T(==)>(s: IndexedSet<T>) {
    forall x :: x in s.index ==> 0 <= s.index[x] < |s.items| && s.items[s.index[x]] == Live(x)
  }

  /** Every live slot is recorded in the map (so no element is live twice). */
  predicate IndexComplete<T(==)>(s: IndexedSet<T>) {
    forall p :: 0 <= p < |s.items| && s.items[p].Live? ==> s.items[p].e in s.index && s.index[s.items[p].e] == p
  }

  /** The invariants that hold between any two steps of an operation. */
  predicate Consistent<T(==)>(s: IndexedSet<T>) {
    && IndexSound(s)
    && IndexComplete(s)
    && Ordered(s.dead, |s.items|)
    && Separated(s.dead)
    && Exact(s.items, s.dead)
  }

  /** The invariants that hold after every public operation: also, the backing
      sequence is empty or ends in a live slot. */
  predicate Valid<T(==)>(s: IndexedSet<T>) {
    Consistent(s) && (|s.items| == 0 || s.items[|s.items| - 1].Live?)
  }

  // ---------------------------------------------------------------------------
  // Observers

  /** `__iter__`. */
  function Elems<T(==)>(s: IndexedSet<T>): seq<T> {
    Elements(s.items)
  }

  /** `__len__`: the size of the map, not of the backing sequence. */
  function Len<T(==)>(s: IndexedSet<T>): int {
    |s.index|
  }

  /** `__contains__`. */
  function Contains<T(==)>(s: IndexedSet<T>, x: T): bool {
    x in s.index
  }

  /** `_dead_index_count`. */
  function DeadIndexCount<T(==)>(s: IndexedSet<T>): int {
    |s.items| - |s.index|
  }

  lemma {:induction false} UniqueLiveDistinct<T>(s: IndexedSet<T>, m: nat)
    requires IndexComplete(s) && m <= |s.items|
    ensures Distinct(Elements(s.items[..m]))
  {
    if m > 0 {
      UniqueLiveDistinct(s, m - 1);
      var pre := s.items[..m - 1];
      assert s.items[..m][..m - 1] == pre;
      if s.items[m - 1].Live? {
        var x := s.items[m - 1].e;
        ElementsMembers(pre, x);
        assert x !in Elements(pre);
      }
    }
  }

  /** The map, the live slots and the iteration describe the same elements, each once. */
  lemma ConsistentFacts<T>(s: IndexedSet<T>)
    requires IndexSound(s) && IndexComplete(s)
    ensures Distinct(Elems(s))
    ensures s.index.Keys == SetOf(Elems(s))
    ensures Len(s) == |Elems(s)|
    ensures forall x :: Contains(s, x) <==> x in Elems(s)
  {
    UniqueLiveDistinct(s, |s.items|);
    assert s.items[..|s.items|] == s.items;
    forall x ensures x in s.index <==> x in Elems(s) {
      ElementsMembers(s.items, x);
      if x in Elems(s) {
        var p :| 0 <= p < |s.items| && s.items[p] == Live(x);
      }
    }
    assert s.index.Keys == SetOf(Elems(s));
    DistinctCard(Elems(s));
  }

  // ---------------------------------------------------------------------------
  // Building from a duplicate-free sequence

  /** Slot of each element of `xs`, as `enumerate` assigns them. */
  function PositionsOf<T(==)>(xs: seq<T>): map<T, int> {
    if |xs| == 0 then map[] else PositionsOf(xs[..|xs| - 1])[xs[|xs| - 1] := |xs| - 1]
  }

  lemma {:induction false} PositionsOfFacts<T>(xs: seq<T>)
    requires Distinct(xs)
    ensures PositionsOf(xs).Keys == SetOf(xs)
    ensures forall i :: 0 <= i < |xs| ==> PositionsOf(xs)[xs[i]] == i
  {
    if |xs| > 0 {
      var init := xs[..|xs| - 1];
      PositionsOfFacts(init);
      assert SetOf(xs) == SetOf(init) + {xs[|xs| - 1]};
    }
  }

  /** The compact state holding `xs`. */
  function Packed<T(==)>(xs: seq<T>): IndexedSet<T> {
    IndexedSet(Lives(xs), PositionsOf(xs), [])
  }

  lemma PackedIndex<T>(xs: seq<T>)
    requires Distinct(xs)
    ensures IndexSound(Packed(xs)) && IndexComplete(Packed(xs))
  {
    PositionsOfFacts(xs);
    var s := Packed(xs);
    forall x | x in s.index ensures 0 <= s.index[x] < |s.items| && s.items[s.index[x]] == Live(x) {
      var i :| 0 <= i < |xs| && xs[i] == x;
    }
  }

  /** The compact state is valid, iterates as `xs` and has no tombstone. */
  lemma PackedValid<T>(xs: seq<T>)
    requires Distinct(xs)
    ensures Valid(Packed(xs)) && Elems(Packed(xs)) == xs && NoTombstones(Packed(xs).items)
  {
    PackedIndex(xs);
    ElementsOfLives(xs);
    var s := Packed(xs);
    forall p | 0 <= p < |s.items| ensures (s.items[p].Tombstone? <==> Covers(s.dead, p)) {
    }
  }

  /** A map updated at every key it already has, with the same positions, equals the positions. */
  lemma RepointedMap<T>(m: map<T, int>, xs: seq<T>)
    requires Distinct(xs) && m.Keys == SetOf(xs)
    ensures m + PositionsOf(xs) == PositionsOf(xs)
  {
    PositionsOfFacts(xs);
  }

  // ---------------------------------------------------------------------------
  // Construction and insertion

  function Empty<T(==)>(): (r: IndexedSet<T>)
    ensures Valid(r) && Elems(r) == [] && Len(r) == 0
  {
    IndexedSet([], map[], [])
  }

  /** `add`: a no-op when present, otherwise append at slot `len(item_list)`. */
  function Add<T(==)>(s: IndexedSet<T>, x: T): IndexedSet<T> {
    if x in s.index then s
    else IndexedSet(s.items + [Live(x)], s.index[x := |s.items|], s.dead)
  }

  lemma AddSound<T>(s: IndexedSet<T>, x: T)
    requires Valid(s)
    ensures Valid(Add(s, x))
    ensures Contains(s, x) ==> Add(s, x) == s
    ensures !Contains(s, x) ==> Elems(Add(s, x)) == Elems(s) + [x] && Len(Add(s, x)) == Len(s) + 1
    ensures !Contains(s, x) ==> Add(s, x).index[x] == |s.items|
    ensures forall y :: Contains(Add(s, x), y) <==> Contains(s, y) || y == x
  {
    if x !in s.index {
      AddFreshIndex(s, x);
      AddFreshLedger(s, x);
      AddFreshElems(s, x);
    }
  }

  lemma AddFreshIndex<T>(s: IndexedSet<T>, x: T)
    requires Valid(s) && x !in s.index
    ensures IndexSound(Add(s, x)) && IndexComplete(Add(s, x))
  {
  }

  lemma AddFreshLedger<T>(s: IndexedSet<T>, x: T)
    requires Valid(s) && x !in s.index
    ensures Ordered(Add(s, x).dead, |Add(s, x).items|) && Separated(Add(s, x).dead)
    ensures Exact(Add(s, x).items, Add(s, x).dead)
  {
    var r := Add(s, x);
    var n := |s.items|;
    OrderedWiden(s.dead, n, n + 1);
    forall p | 0 <= p < |r.items| ensures (r.items[p].Tombstone? <==> Covers(r.dead, p)) {
      if p == n {
        assert !Covers(r.dead, p);
      }
    }
  }

  lemma AddFreshElems<T>(s: IndexedSet<T>, x: T)
    requires x !in s.index
    ensures Elems(Add(s, x)) == Elems(s) + [x]
  {
    assert (s.items + [Live(x)])[..|s.items|] == s.items;
  }

  /** Repeated `add`: the body of `update` with a single iterable and of the constructor. */
  function AddAll<T(==)>(s: IndexedSet<T>, xs: seq<T>): IndexedSet<T> {
    if |xs| == 0 then s else Add(AddAll(s, xs[..|xs| - 1]), xs[|xs| - 1])
  }

  lemma {:induction false} AddAllValid<T>(s: IndexedSet<T>, xs: seq<T>)
    requires Valid(s)
    ensures Valid(AddAll(s, xs))
  {
    if |xs| > 0 {
      AddAllValid(s, xs[..|xs| - 1]);
      AddSound(AddAll(s, xs[..|xs| - 1]), xs[|xs| - 1]);
    }
  }

  /** Adding a sequence keeps the state valid and appends, in order, the first
      occurrence of every element not yet present. */
  lemma {:induction false} AddAllSound<T>(s: IndexedSet<T>, xs: seq<T>)
    requires Valid(s)
    ensures Valid(AddAll(s, xs))
    ensures Elems(AddAll(s, xs)) == Dedup(Elems(s) + xs)
  {
    AddAllValid(s, xs);
    AddAllElems(s, xs);
  }

  lemma {:induction false} AddAllElems<T>(s: IndexedSet<T>, xs: seq<T>)
    requires Valid(s)
    ensures Elems(AddAll(s, xs)) == Dedup(Elems(s) + xs)
  {
    if |xs| == 0 {
      ElemsDistinct(s);
      DedupOfDistinct(Elems(s));
      assert Elems(s) + xs == Elems(s);
    } else {
      var init, last := xs[..|xs| - 1], xs[|xs| - 1];
      AddAllElems(s, init);
      AddAllValid(s, init);
      AddElemsDedup(AddAll(s, init), Elems(s) + init, last);
      AppendSnoc(Elems(s), xs);
    }
  }

  /** Adding to a set that holds the first occurrences of `w` gives those of `w + [x]`. */
  lemma AddElemsDedup<T>(t: IndexedSet<T>, w: seq<T>, x: T)
    requires Valid(t) && Elems(t) == Dedup(w)
    ensures Elems(Add(t, x)) == Dedup(w + [x])
  {
    AddElems(t, x);
    DedupSnoc(w, x);
  }

  lemma ElemsDistinct<T>(s: IndexedSet<T>)
    requires Valid(s)
    ensures Distinct(Elems(s))
  {
    ConsistentFacts(s);
  }

  lemma ContainsIsElem<T>(s: IndexedSet<T>)
    requires Valid(s)
    ensures forall x :: Contains(s, x) <==> x in Elems(s)
  {
    ConsistentFacts(s);
  }

  lemma LenIsElems<T>(s: IndexedSet<T>)
    requires Valid(s)
    ensures Len(s) == |Elems(s)|
  {
    ConsistentFacts(s);
  }

  /** One `add` in terms of the iteration: the de-duplicating step. */
  lemma AddElems<T>(t: IndexedSet<T>, x: T)
    requires Valid(t)
    ensures Elems(Add(t, x)) == if x in Elems(t) then Elems(t) else Elems(t) + [x]
  {
    AddSound(t, x);
    ConsistentFacts(t);
  }

  /** `IndexedSet(other)` / `from_iterable`. */
  function FromSeq<T(==)>(xs: seq<T>): IndexedSet<T> {
    AddAll(Empty(), xs)
  }

  /** Construction keeps first occurrences in insertion order. */
  lemma FromSeqSound<T>(xs: seq<T>)
    ensures Valid(FromSeq(xs)) && Elems(FromSeq(xs)) == Dedup(xs)
    ensures Len(FromSeq(xs)) == |Dedup(xs)|
    ensures forall x :: Contains(FromSeq(xs), x) <==> x in xs
  {
    AddAllSound(Empty<T>(), xs);
    assert [] + xs == xs;
    ConsistentFacts(FromSeq(xs));
    DedupFacts(xs);
  }

  /** Building from a duplicate-free sequence gives the compact state, with no ledger. */
  lemma {:induction false} FromDistinctIsPacked<T>(xs: seq<T>)
    requires Distinct(xs)
    ensures FromSeq(xs) == Packed(xs)
  {
    if |xs| > 0 {
      var init, last := xs[..|xs| - 1], xs[|xs| - 1];
      DistinctSlice(xs, 0, |xs| - 1);
      FromDistinctIsPacked(init);
      assert FromSeq(xs) == Add(FromSeq(init), last);
      PackedSnoc(xs);
    }
  }

  /** Adding the last element of a duplicate-free sequence to the packed state of the
      others gives the packed state of all. */
  lemma PackedSnoc<T>(xs: seq<T>)
    requires Distinct(xs) && |xs| > 0
    ensures Add(Packed(xs[..|xs| - 1]), xs[|xs| - 1]) == Packed(xs)
  {
    var init, last := xs[..|xs| - 1], xs[|xs| - 1];
    DistinctSlice(xs, 0, |xs| - 1);
    PositionsOfFacts(init);
    DistinctAround(xs, |xs| - 1);
    assert last !in Packed(init).index;
    assert Lives(init) + [Live(last)] == Lives(xs);
  }

  /** `count`: 0 or 1, by uniqueness. */
  function Count<T(==)>(s: IndexedSet<T>, x: T): (r: int)
    ensures 0 <= r <= 1
    ensures r == 1 <==> Contains(s, x)
  {
    if x in s.index then 1 else 0
  }

  lemma CountMatchesIteration<T>(s: IndexedSet<T>, x: T)
    requires Valid(s)
    ensures Count(s, x) == multiset(Elems(s))[x]
  {
    ConsistentFacts(s);
    DistinctMultiplicity(Elems(s), x);
    assert x in Elems(s) <==> x in multiset(Elems(s));
  }

  // ---------------------------------------------------------------------------
  // Removal: tombstone, ledger, cull

  /** Python's `del xs[-k:]`; note that `-0` is `0`, so `k == 0` deletes everything. */
  function DelTail<T>(xs: seq<T>, k: int): (r: seq<T>)
    ensures |r| <= |xs|
  {
    if k == 0 then []
    else if k > 0 then (if k >= |xs| then [] else xs[..|xs| - k])
    else (if -k >= |xs| then xs else xs[..-k])
  }

  /** `_compact`: rewrite the live elements to the front, re-point the map, cut the
      backing sequence by the dead-index count and clear the ledger. */
  function Compact<T(==)>(s: IndexedSet<T>): IndexedSet<T> {
    if |s.dead| == 0 then s
    else
      var live := Elements(s.items);
      var written := Lives(live) + s.items[|live|..];
      IndexedSet(DelTail(written, DeadIndexCount(s)), s.index + PositionsOf(live), [])
  }

  lemma LedgerEmptyWithoutTombstones<T>(s: IndexedSet<T>)
    requires Consistent(s) && NoTombstones(s.items)
    ensures s.dead == []
  {
    if |s.dead| > 0 {
      TombstoneWhenLedger(s);
      NoTombstonesIsLives(s.items);
    }
  }

  lemma TombstoneWhenLedger<T>(s: IndexedSet<T>)
    requires Consistent(s) && |s.dead| > 0
    ensures |Elems(s)| < |s.items|
  {
    var p := s.dead[0].start;
    assert Covers(s.dead, p);
    if |Elems(s)| == |s.items| {
      FullCountNoTombstones(s.items);
    }
  }

  lemma CompactIsPacked<T>(s: IndexedSet<T>)
    requires Consistent(s) && |s.dead| > 0
    ensures Compact(s) == Packed(Elems(s))
  {
    ConsistentFacts(s);
    TombstoneWhenLedger(s);
    var live := Elements(s.items);
    var written := Lives(live) + s.items[|live|..];
    assert DeadIndexCount(s) == |s.items| - |live|;
    assert DelTail(written, DeadIndexCount(s)) == Lives(live);
    RepointedMap(s.index, live);
  }

  /** Compaction leaves no tombstone and no ledger, keeps iteration order, and every
      map entry points at the element's new slot; a second call changes nothing. */
  lemma CompactSound<T>(s: IndexedSet<T>)
    requires Consistent(s)
    ensures Valid(Compact(s)) || s.dead == []
    ensures Elems(Compact(s)) == Elems(s) && Compact(s).index.Keys == s.index.Keys
    ensures |s.dead| > 0 ==> Compact(s) == Packed(Elems(s)) && NoTombstones(Compact(s).items)
    ensures Compact(Compact(s)) == Compact(s)
  {
    if |s.dead| > 0 {
      CompactIsPacked(s);
      ConsistentFacts(s);
      PackedValid(Elems(s));
      PositionsOfFacts(Elems(s));
    }
  }

  /** `_cull`: after a removal, reset an emptied set, compact when the ledger is long
      or tombstones exceed an eighth of the backing sequence (Python 2 integer
      division), and otherwise cut a trailing tombstone run. */
  function Cull<T(==)>(t: IndexedSet<T>): IndexedSet<T> {
    if |t.dead| == 0 then t
    else if |t.index| == 0 then IndexedSet([], t.index, [])
    else if |t.dead| > MaxDeadIntervals then Compact(t)
    else if DeadIndexCount(t) > |t.items| / CompactionFactor then Compact(t)
    else if |t.items| > 0 && t.items[|t.items| - 1].Tombstone? then
      var numDead := TrailingDead(t.items);
      var d := if t.dead[|t.dead| - 1].stop == |t.items| then t.dead[..|t.dead| - 1] else t.dead;
      IndexedSet(t.items[..|t.items| - numDead], t.index, d)
    else t
  }

  /** The trimming branch of `_cull`: the trailing run and its interval go. */
  lemma CullTrim<T>(t: IndexedSet<T>)
    requires Consistent(t) && |t.dead| > 0 && |t.items| > 0 && t.items[|t.items| - 1].Tombstone? && Len(t) > 0
    ensures var r := IndexedSet(t.items[..|t.items| - TrailingDead(t.items)], t.index, t.dead[..|t.dead| - 1]);
      && t.dead[|t.dead| - 1].stop == |t.items|
      && Valid(r) && Elems(r) == Elems(t)
  {
    ConsistentFacts(t);
    var a := LastRunAtEnd(t.items, t.dead);
    TrailingDeadRun(t.items, a);
    TrimKeepsExact(t.items, t.dead, a);
    DropDeadTail(t.items, a);
    var r := IndexedSet(t.items[..a], t.index, t.dead[..|t.dead| - 1]);
    forall x | x in r.index ensures 0 <= r.index[x] < |r.items| && r.items[r.index[x]] == Live(x) {
    }
  }

  /** `_cull` with nothing to do: the ledger is empty or no tombstone trails. */
  lemma CullNoop<T>(t: IndexedSet<T>)
    requires Consistent(t) && Len(t) > 0
    requires |t.dead| == 0 || (|t.items| > 0 && t.items[|t.items| - 1].Live?)
    ensures Valid(t)
  {
    if |t.items| > 0 && t.items[|t.items| - 1].Tombstone? {
      assert Covers(t.dead, |t.items| - 1);
    }
  }

  /** `_cull` on an emptied set resets it. */
  lemma CullEmptied<T>(t: IndexedSet<T>)
    requires Consistent(t) && Len(t) == 0
    ensures Elems(t) == [] && (|t.dead| == 0 ==> t.items == [])
  {
    ConsistentFacts(t);
    if |t.dead| == 0 && |t.items| > 0 {
      assert false;
    }
  }

  lemma CullSound<T>(t: IndexedSet<T>)
    requires Consistent(t)
    ensures Valid(Cull(t))
    ensures Elems(Cull(t)) == Elems(t)
    ensures Cull(t).index.Keys == t.index.Keys
  {
    if Len(t) == 0 {
      CullEmptiedKeeps(t);
    } else if |t.dead| == 0 {
      CullNoopKeeps(t);
    } else if |t.dead| > MaxDeadIntervals || DeadIndexCount(t) > |t.items| / CompactionFactor {
      CullCompactKeeps(t);
    } else if t.items[|t.items| - 1].Tombstone? {
      CullTrimKeeps(t);
    } else {
      CullNoopKeeps(t);
    }
  }

  /** What `_cull` keeps: validity restored, the elements, their order and the map's keys. */
  ghost predicate CullKeeps<T>(t: IndexedSet<T>) {
    Valid(Cull(t)) && Elems(Cull(t)) == Elems(t) && Cull(t).index.Keys == t.index.Keys
  }

  lemma CullEmptiedKeeps<T>(t: IndexedSet<T>)
    requires Consistent(t) && Len(t) == 0
    ensures CullKeeps(t)
  {
    CullEmptied(t);
    if |t.dead| > 0 {
      assert t.index == map[];
      assert Cull(t) == IndexedSet([], t.index, []);
    }
  }

  lemma CullNoopKeeps<T>(t: IndexedSet<T>)
    requires Consistent(t) && Len(t) > 0
    requires |t.dead| == 0 || (
      && |t.dead| <= MaxDeadIntervals && DeadIndexCount(t) <= |t.items| / CompactionFactor
      && |t.items| > 0 && t.items[|t.items| - 1].Live?)
    ensures CullKeeps(t)
  {
    CullNoop(t);
    assert Cull(t) == t;
  }

  lemma CullCompactKeeps<T>(t: IndexedSet<T>)
    requires Consistent(t) && Len(t) > 0 && |t.dead| > 0
    requires |t.dead| > MaxDeadIntervals || DeadIndexCount(t) > |t.items| / CompactionFactor
    ensures CullKeeps(t)
  {
    CompactSound(t);
    assert Cull(t) == Compact(t);
  }

  lemma CullTrimKeeps<T>(t: IndexedSet<T>)
    requires Consistent(t) && Len(t) > 0 && |t.dead| > 0
    requires |t.dead| <= MaxDeadIntervals && DeadIndexCount(t) <= |t.items| / CompactionFactor
    requires |t.items| > 0 && t.items[|t.items| - 1].Tombstone?
    ensures CullKeeps(t)
  {
    CullTrim(t);
    assert Cull(t) == IndexedSet(t.items[..|t.items| - TrailingDead(t.items)], t.index, t.dead[..|t.dead| - 1]);
  }

  /** Which branch of `_cull` acts: an emptied set is reset, a long ledger or too many
      tombstones trigger compaction, and otherwise only the trailing run is cut. */
  lemma CullShape<T>(t: IndexedSet<T>)
    requires Consistent(t)
    ensures Len(t) == 0 ==> Cull(t).items == [] && Cull(t).dead == []
    ensures Len(t) > 0 && |t.dead| > 0 && (|t.dead| > MaxDeadIntervals || DeadIndexCount(t) > |t.items| / CompactionFactor)
      ==> NoTombstones(Cull(t).items) && Cull(t).dead == []
    ensures Len(t) > 0 && |t.dead| <= MaxDeadIntervals && DeadIndexCount(t) <= |t.items| / CompactionFactor
      ==> Cull(t).items == t.items[..|t.items| - TrailingDead(t.items)]
  {
    if Len(t) == 0 {
      CullEmptied(t);
    } else if |t.dead| == 0 {
      assert TrailingDead(t.items) == 0 by { CullNoop(t); }
      assert t.items[..|t.items|] == t.items;
    } else if |t.dead| > MaxDeadIntervals || DeadIndexCount(t) > |t.items| / CompactionFactor {
      CompactSound(t);
    } else if t.items[|t.items| - 1].Tombstone? {
      CullTrim(t);
    } else {
      assert t.items[..|t.items|] == t.items;
    }
  }

  /** `remove`: `KeyError` for an absent element; otherwise tombstone its slot, record
      it in the ledger, and cull. */
  function Remove<T(==)>(s: IndexedSet<T>, x: T): Result<IndexedSet<T>>
    requires Valid(s)
  {
    if x !in s.index then Err(KeyError)
    else
      Ok(Cull(Killed(s, s.index[x])))
  }

  /** The state right after a slot is tombstoned and registered, before culling. */
  function Killed<T(==)>(s: IndexedSet<T>, p: int): IndexedSet<T>
    requires 0 <= p < |s.items| && s.items[p].Live?
  {
    IndexedSet(s.items[p := Tombstone], s.index - {s.items[p].e}, AddDeadMerged(s.dead, p))
  }

  /** Tombstoning a live slot and registering it keeps every invariant but the
      trailing-slot one. */
  lemma KillConsistent<T>(s: IndexedSet<T>, p: int)
    requires Valid(s) && 0 <= p < |s.items| && s.items[p].Live?
    ensures Consistent(Killed(s, p))
  {
    var x := s.items[p].e;
    var t := Killed(s, p);
    assert !Covers(s.dead, p);
    AddDeadMergedSound(s.dead, |s.items|, p);
    assert s.index[x] == p;
    forall y | y in t.index ensures 0 <= t.index[y] < |t.items| && t.items[t.index[y]] == Live(y) {
      assert s.index[y] != p;
    }
  }

  /** Tombstoning slot `p` drops exactly its element from the iteration, which sits at
      the position given by the live slots before `p`. */
  lemma KillElems<T>(items: seq<Slot<T>>, p: int)
    requires 0 <= p < |items| && items[p].Live? && Distinct(Elements(items))
    ensures var i := |Elements(items[..p])|;
      && i < |Elements(items)|
      && Elements(items)[i] == items[p].e
      && Elements(items[p := Tombstone]) == Elements(items)[..i] + Elements(items)[i + 1..]
      && Elements(items[p := Tombstone]) == Without(Elements(items), items[p].e)
  {
    KillSlot(items, p);
    Parts3(Elements(items[..p]), items[p].e, Elements(items[p + 1..]));
    WithoutDistinct(Elements(items), |Elements(items[..p])|);
  }

  /** `xs` without the element `x`. */
  function Without<T(==)>(xs: seq<T>, x: T): (r: seq<T>)
    ensures |r| <= |xs|
  {
    if |xs| == 0 then []
    else Without(xs[..|xs| - 1], x) + (if xs[|xs| - 1] == x then [] else [xs[|xs| - 1]])
  }

  lemma {:induction false} WithoutAbsent<T>(xs: seq<T>, x: T)
    requires x !in xs
    ensures Without(xs, x) == xs
  {
    if |xs| > 0 {
      WithoutAbsent(xs[..|xs| - 1], x);
    }
  }

  lemma {:induction false} WithoutAppend<T>(a: seq<T>, b: seq<T>, x: T)
    ensures Without(a + b, x) == Without(a, x) + Without(b, x)
    decreases |b|
  {
    if |b| == 0 {
      assert a + b == a;
    } else {
      assert (a + b)[..|a + b| - 1] == a + b[..|b| - 1];
      WithoutAppend(a, b[..|b| - 1], x);
    }
  }

  lemma WithoutDistinct<T>(xs: seq<T>, i: int)
    requires Distinct(xs) && 0 <= i < |xs|
    ensures Without(xs, xs[i]) == xs[..i] + xs[i + 1..]
  {
    var x := xs[i];
    AroundIndex(xs, i + 1);
    DistinctAround(xs, i);
    WithoutAppend(xs[..i] + [x], xs[i + 1..], x);
    WithoutSnoc(xs[..i], x);
    WithoutAbsent(xs[i + 1..], x);
  }

  /** Removing an element from a sequence that has it once, at the end. */
  lemma WithoutSnoc<T>(a: seq<T>, x: T)
    requires x !in a
    ensures Without(a + [x], x) == a
  {
    assert (a + [x])[..|a|] == a;
    WithoutAbsent(a, x);
  }

  lemma DistinctAround<T>(xs: seq<T>, i: int)
    requires Distinct(xs) && 0 <= i < |xs|
    ensures xs[i] !in xs[..i] && xs[i] !in xs[i + 1..]
  {
    assert forall j :: 0 <= j < i ==> xs[..i][j] != xs[i];
    var b := xs[i + 1..];
    assert forall j :: 0 <= j < |b| ==> b[j] != xs[i];
  }

  /** `remove` of a present element: it leaves the map, the length drops by one and
      the other elements keep their order; an absent element raises `KeyError`. */
  lemma RemoveSound<T>(s: IndexedSet<T>, x: T)
    requires Valid(s)
    ensures !Contains(s, x) ==> Remove(s, x) == Err(KeyError)
    ensures Contains(s, x) ==>
      && Remove(s, x).Ok?
      && Valid(Remove(s, x).value)
      && !Contains(Remove(s, x).value, x)
      && Len(Remove(s, x).value) == Len(s) - 1
      && Elems(Remove(s, x).value) == Without(Elems(s), x)
      && (forall y :: Contains(Remove(s, x).value, y) <==> Contains(s, y) && y != x)
  {
    if x in s.index {
      var p := s.index[x];
      var t := Killed(s, p);
      KillConsistent(s, p);
      ConsistentFacts(s);
      KillElems(s.items, p);
      CullSound(t);
      ConsistentFacts(Cull(t));
      assert |t.index| == |s.index| - 1 by {
        assert t.index.Keys == s.index.Keys - {x};
      }
    }
  }

  /** `discard`: `remove` with the `KeyError` swallowed. */
  function Discard<T(==)>(s: IndexedSet<T>, x: T): IndexedSet<T>
    requires Valid(s)
  {
    match Remove(s, x)
    case Ok(t) => t
    case Err(_) => s
  }

  lemma DiscardSound<T>(s: IndexedSet<T>, x: T)
    requires Valid(s)
    ensures Valid(Discard(s, x))
    ensures Elems(Discard(s, x)) == Without(Elems(s), x)
    ensures forall y :: Contains(Discard(s, x), y) <==> Contains(s, y) && y != x
  {
    RemoveSound(s, x);
    if !Contains(s, x) {
      ConsistentFacts(s);
      WithoutAbsent(Elems(s), x);
    }
  }

  /** `clear`. */
  function Clear<T(==)>(s: IndexedSet<T>): (r: IndexedSet<T>)
    ensures Valid(r) && Elems(r) == [] && Len(r) == 0
  {
    Empty()
  }

  // ---------------------------------------------------------------------------
  // Positional access

  /** `_get_real_index`: wrap a negative index once by the length, then walk the ledger. */
  function RealIndex<T(==)>(s: IndexedSet<T>, index: int): int {
    var i := if index < 0 then index + Len(s) else index;
    Translate(s.dead, i)
  }

  /** Python list indexing `items[r]`, negative `r` counting from the end. */
  function PyIndex<T>(items: seq<Slot<T>>, r: int): Result<Slot<T>> {
    if -|items| <= r < |items| then Ok(items[if r < 0 then r + |items| else r]) else Err(IndexError)
  }

  /** `__getitem__` with an integer: the index is wrapped here and again inside
      `_get_real_index`. The slot itself is returned, so a leaked sentinel is visible. */
  function Get<T(==)>(s: IndexedSet<T>, index: int): Result<Slot<T>> {
    var i := if index < 0 then index + Len(s) else index;
    PyIndex(s.items, RealIndex(s, i))
  }

  lemma RealIndexSound<T>(s: IndexedSet<T>, index: int)
    requires Valid(s)
    ensures |Elems(s)| == Len(s)
    ensures var i := if index < 0 then index + Len(s) else index;
      && (0 <= i < Len(s) ==> 0 <= RealIndex(s, index) < |s.items| && s.items[RealIndex(s, index)] == Live(Elems(s)[i]))
      && (i >= Len(s) ==> RealIndex(s, index) >= |s.items|)
      && (i < 0 ==> RealIndex(s, index) == i)
  {
    LenIsElems(s);
    var i := if index < 0 then index + Len(s) else index;
    TranslateSound(s.items, s.dead, i);
  }

  /** `x[i]` is the i-th live element for `0 <= i < len`, counts from the end for
      `-len <= i < 0`, raises `IndexError` from `len` on, and, because of the double
      wrap, still finds an element for `-2*len <= i < -len`. Below `-2*len` the real
      index stays negative and the raw slot list is indexed from its end, so a
      tombstone can come back. */
  lemma GetSound<T>(s: IndexedSet<T>, index: int)
    requires Valid(s)
    ensures |Elems(s)| == Len(s)
    ensures 0 <= index < Len(s) ==> Get(s, index) == Ok(Live(Elems(s)[index]))
    ensures -Len(s) <= index < 0 ==> Get(s, index) == Ok(Live(Elems(s)[index + Len(s)]))
    ensures index >= Len(s) ==> Get(s, index) == Err(IndexError)
    ensures -2 * Len(s) <= index < -Len(s) ==> Get(s, index) == Ok(Live(Elems(s)[index + 2 * Len(s)]))
    ensures index < -2 * Len(s) ==> Get(s, index) == PyIndex(s.items, index + 2 * Len(s))
  {
    var i := if index < 0 then index + Len(s) else index;
    RealIndexSound(s, i);
  }

  /** `__getitem__` as evidently intended: a negative index is wrapped once, and an
      index outside `[-len, len)` raises `IndexError`. */
  function GetChecked<T(==)>(s: IndexedSet<T>, index: int): Result<Slot<T>> {
    var i := if index < 0 then index + Len(s) else index;
    if 0 <= i < Len(s) then PyIndex(s.items, Translate(s.dead, i)) else Err(IndexError)
  }

  /** The checked lookup succeeds exactly on `[-len, len)`, where it gives the element
      at that position counted as a Python list would; it never yields a tombstone. */
  lemma GetCheckedSound<T>(s: IndexedSet<T>, index: int)
    requires Valid(s)
    ensures |Elems(s)| == Len(s)
    ensures GetChecked(s, index).Ok? <==> -Len(s) <= index < Len(s)
    ensures GetChecked(s, index).Err? ==> GetChecked(s, index).error == IndexError
    ensures 0 <= index < Len(s) ==> GetChecked(s, index) == Ok(Live(Elems(s)[index]))
    ensures -Len(s) <= index < 0 ==> GetChecked(s, index) == Ok(Live(Elems(s)[index + Len(s)]))
  {
    RealIndexSound(s, index);
  }

  /** `index`: the element's SLOT in the backing sequence, `ValueError` when absent. */
  function IndexOf<T(==)>(s: IndexedSet<T>, x: T): Result<int> {
    if x in s.index then Ok(s.index[x]) else Err(ValueError)
  }

  lemma IndexOfSound<T>(s: IndexedSet<T>, x: T)
    requires Valid(s)
    ensures IndexOf(s, x).Ok? <==> Contains(s, x)
    ensures IndexOf(s, x).Ok? ==> 0 <= IndexOf(s, x).value < |s.items| && s.items[IndexOf(s, x).value] == Live(x)
    ensures IndexOf(s, x).Err? ==> IndexOf(s, x).error == ValueError
  {
  }

  /** `pop(index)`: the last element (no index, -1 or len-1) is cut off the backing
      sequence; any other position is tombstoned through the ledger. Both paths cull. */
  function Pop<T(==)>(s: IndexedSet<T>, index: Option<int>): Result<(T, IndexedSet<T>)> {
    var n := Len(s);
    if index.None? || index.value == -1 || index.value == n - 1 then
      if |s.items| == 0 then Err(IndexError)
      else match s.items[|s.items| - 1]
        case Tombstone => Err(KeyError)
        case Live(x) => Ok((x, Cull(IndexedSet(s.items[..|s.items| - 1], s.index - {x}, s.dead))))
    else
      var r := RealIndex(s, index.value);
      if r < -|s.items| || r >= |s.items| then Err(IndexError)
      else
        var p := if r < 0 then r + |s.items| else r;
        match s.items[p]
        case Tombstone => Err(KeyError)
        case Live(x) => Ok((x, Cull(IndexedSet(s.items[p := Tombstone], s.index - {x}, AddDeadMerged(s.dead, r)))))
  }

  /** The logical position `pop` targets. */
  function PopTarget<T(==)>(s: IndexedSet<T>, index: Option<int>): int {
    if index.None? then Len(s) - 1 else if index.value < 0 then index.value + Len(s) else index.value
  }

  /** Cutting the live last slot off keeps the invariants other than the trailing one. */
  lemma PopLastConsistent<T>(s: IndexedSet<T>)
    requires Valid(s) && |s.items| > 0
    ensures var x := s.items[|s.items| - 1].e;
      var t := IndexedSet(s.items[..|s.items| - 1], s.index - {x}, s.dead);
      && Consistent(t)
      && Elems(s) == Elems(t) + [x]
      && t.index.Keys == s.index.Keys - {x}
  {
    var n := |s.items|;
    var x := s.items[n - 1].e;
    var t := IndexedSet(s.items[..n - 1], s.index - {x}, s.dead);
    assert !Covers(s.dead, n - 1);
    forall k | 0 <= k < |s.dead| ensures s.dead[k].stop <= n - 1 {
      assert !(s.dead[k].start <= n - 1 < s.dead[k].stop);
    }
    forall y | y in t.index ensures 0 <= t.index[y] < |t.items| && t.items[t.index[y]] == Live(y) {
      assert s.index[y] != n - 1;
    }
  }

  lemma EmptyHasNoSlots<T>(s: IndexedSet<T>)
    requires Valid(s) && Len(s) == 0
    ensures s.items == []
  {
    if |s.items| > 0 {
      assert false;
    }
  }

  /** The map loses exactly one key. */
  lemma LenAfterDelete<T>(s: IndexedSet<T>, t: IndexedSet<T>, x: T)
    requires x in s.index && t.index.Keys == s.index.Keys - {x}
    ensures Len(t) == Len(s) - 1
  {
    assert |t.index.Keys| == |s.index.Keys| - 1;
  }

  /** Popping the last element: it is returned and the rest keep their order. */
  lemma PopLastSound<T>(s: IndexedSet<T>, index: Option<int>)
    requires Valid(s) && Len(s) > 0
    requires index.None? || index.value == -1 || index.value == Len(s) - 1
    ensures |Elems(s)| == Len(s)
    ensures Pop(s, index).Ok?
    ensures Pop(s, index).value.0 == Elems(s)[Len(s) - 1]
    ensures Valid(Pop(s, index).value.1)
    ensures Elems(Pop(s, index).value.1) == Elems(s)[..Len(s) - 1] + Elems(s)[Len(s)..]
    ensures Len(Pop(s, index).value.1) == Len(s) - 1
  {
    var x, u := PopLastResult(s, index);
    SnocParts(Elems(u), x);
  }

  /** The element and the set that popping the last element leaves. */
  lemma PopLastResult<T>(s: IndexedSet<T>, index: Option<int>) returns (x: T, u: IndexedSet<T>)
    requires Valid(s) && Len(s) > 0
    requires index.None? || index.value == -1 || index.value == Len(s) - 1
    ensures Pop(s, index) == Ok((x, u))
    ensures Valid(u) && Len(u) == Len(s) - 1 && |Elems(s)| == Len(s)
    ensures Elems(s) == Elems(u) + [x]
  {
    var n := |s.items|;
    x := s.items[n - 1].e;
    var t := IndexedSet(s.items[..n - 1], s.index - {x}, s.dead);
    u := Cull(t);
    PopLastIs(s, index);
    PopLastConsistent(s);
    CullSound(t);
    LenAfterDelete(s, u, x);
    ConsistentFacts(s);
  }

  lemma PopLastIs<T>(s: IndexedSet<T>, index: Option<int>)
    requires Valid(s) && |s.items| > 0
    requires index.None? || index.value == -1 || index.value == Len(s) - 1
    ensures var x := s.items[|s.items| - 1].e;
      Pop(s, index) == Ok((x, Cull(IndexedSet(s.items[..|s.items| - 1], s.index - {x}, s.dead))))
  {
  }

  /** Popping from an empty set raises `IndexError`. */
  lemma PopEmpty<T>(s: IndexedSet<T>, index: Option<int>)
    requires Valid(s) && Len(s) == 0
    requires index.None? || index.value >= 0
    ensures Pop(s, index) == Err(IndexError)
  {
    EmptyHasNoSlots(s);
  }

  /** Popping a position at or past the end raises `IndexError`. */
  lemma PopPastEnd<T>(s: IndexedSet<T>, index: int)
    requires Valid(s) && Len(s) > 0 && index != -1 && index != Len(s) - 1
    requires index >= Len(s)
    ensures Pop(s, Some(index)) == Err(IndexError)
  {
    RealIndexSound(s, index);
  }

  /** Popping an interior position tombstones its slot through the ledger. */
  lemma PopInnerSound<T>(s: IndexedSet<T>, index: int)
    requires Valid(s) && -Len(s) <= index && index != -1 && index != Len(s) - 1
    requires var i := if index < 0 then index + Len(s) else index; 0 <= i < Len(s)
    ensures |Elems(s)| == Len(s)
    ensures var i := if index < 0 then index + Len(s) else index;
      && Pop(s, Some(index)).Ok?
      && Pop(s, Some(index)).value.0 == Elems(s)[i]
      && Valid(Pop(s, Some(index)).value.1)
      && Elems(Pop(s, Some(index)).value.1) == Elems(s)[..i] + Elems(s)[i + 1..]
      && Len(Pop(s, Some(index)).value.1) == Len(s) - 1
  {
    var i := if index < 0 then index + Len(s) else index;
    RealIndexSound(s, index);
    var x := Elems(s)[i];
    PopInnerIsRemove(s, index);
    RemoveSound(s, x);
    ElemsDistinct(s);
    WithoutDistinct(Elems(s), i);
  }

  /** Popping an interior position is removing the element found there. */
  lemma PopInnerIsRemove<T>(s: IndexedSet<T>, index: int)
    requires Valid(s) && index != -1 && index != Len(s) - 1
    requires 0 <= RealIndex(s, index) < |s.items| && s.items[RealIndex(s, index)].Live?
    ensures var x := s.items[RealIndex(s, index)].e;
      Contains(s, x) && Remove(s, x).Ok? && Pop(s, Some(index)) == Ok((x, Remove(s, x).value))
  {
    var p := RealIndex(s, index);
    var x := s.items[p].e;
    assert s.index[x] == p;
  }

  /** `pop`: `IndexError` on an empty set or a position past the end; otherwise the
      element at the targeted logical position is returned and removed, the others
      keeping their order. */
  lemma PopSound<T>(s: IndexedSet<T>, index: Option<int>)
    requires Valid(s)
    requires index.None? || index.value >= -Len(s)
    ensures |Elems(s)| == Len(s)
    ensures Len(s) == 0 ==> Pop(s, index) == Err(IndexError)
    ensures PopTarget(s, index) >= Len(s) ==> Pop(s, index) == Err(IndexError)
    ensures 0 <= PopTarget(s, index) < Len(s) ==>
      var i := PopTarget(s, index);
      && Pop(s, index).Ok?
      && Pop(s, index).value.0 == Elems(s)[i]
      && Valid(Pop(s, index).value.1)
      && Elems(Pop(s, index).value.1) == Elems(s)[..i] + Elems(s)[i + 1..]
      && Len(Pop(s, index).value.1) == Len(s) - 1
  {
    LenIsElems(s);
    var n := Len(s);
    if n == 0 {
      PopEmpty(s, index);
    } else if index.None? || index.value == -1 || index.value == n - 1 {
      PopLastAt(s, index);
    } else if PopTarget(s, index) < n {
      PopInnerAt(s, index, index.value);
    } else {
      PopPastEnd(s, index.value);
    }
  }

  /** Popping logical position `i` returns its element and leaves the others in order. */
  ghost predicate PopsAt<T>(s: IndexedSet<T>, index: Option<int>, i: int) {
    && 0 <= i < |Elems(s)|
    && Pop(s, index).Ok?
    && Pop(s, index).value.0 == Elems(s)[i]
    && Valid(Pop(s, index).value.1)
    && Elems(Pop(s, index).value.1) == Elems(s)[..i] + Elems(s)[i + 1..]
    && Len(Pop(s, index).value.1) == Len(s) - 1
  }

  lemma PopLastAt<T>(s: IndexedSet<T>, index: Option<int>)
    requires Valid(s) && Len(s) > 0
    requires index.None? || index.value == -1 || index.value == Len(s) - 1
    ensures PopTarget(s, index) == Len(s) - 1 && PopsAt(s, index, Len(s) - 1)
  {
    PopLastSound(s, index);
  }

  lemma PopInnerAt<T>(s: IndexedSet<T>, index: Option<int>, j: int)
    requires Valid(s) && index == Some(j) && -Len(s) <= j && j != -1 && j != Len(s) - 1
    requires 0 <= PopTarget(s, index) < Len(s)
    ensures PopsAt(s, index, PopTarget(s, index))
  {
    PopInnerSound(s, j);
  }

  lemma DistinctIndex<T>(xs: seq<T>, i: int, j: int)
    requires Distinct(xs) && 0 <= i < |xs| && 0 <= j < |xs| && xs[i] == xs[j]
    ensures i == j
  {
  }

  // ---------------------------------------------------------------------------
  // Reordering

  /** `reverse`: rebuild the backing sequence in reverse live order and clear the ledger. */
  function Reverse<T(==)>(s: IndexedSet<T>): IndexedSet<T> {
    var reversed := Backward(s.items);
    IndexedSet(Lives(reversed), s.index + PositionsOf(reversed), [])
  }

  lemma ReverseSound<T>(s: IndexedSet<T>)
    requires Valid(s)
    ensures Valid(Reverse(s)) && Elems(Reverse(s)) == Rev(Elems(s))
    ensures Reverse(s).dead == [] && NoTombstones(Reverse(s).items)
  {
    ConsistentFacts(s);
    BackwardIsRev(s.items);
    DistinctRev(Elems(s));
    RepointedMap(s.index, Rev(Elems(s)));
    PackedValid(Rev(Elems(s)));
  }

  /** `sort`: nothing changes when the backing sequence is already the sorted live
      sequence; otherwise rebuild it sorted and clear the ledger. */
  function Sort(s: IndexedSet<int>): IndexedSet<int> {
    var sorted := SortSeq(Elems(s));
    if Lives(sorted) == s.items then s
    else IndexedSet(Lives(sorted), s.index + PositionsOf(sorted), [])
  }

  lemma SortSound(s: IndexedSet<int>)
    requires Valid(s)
    ensures Valid(Sort(s)) && Sorted(Elems(Sort(s))) && multiset(Elems(Sort(s))) == multiset(Elems(s))
    ensures Sort(s).dead == [] && NoTombstones(Sort(s).items)
  {
    ConsistentFacts(s);
    var sorted := SortSeq(Elems(s));
    PermutationKeepsDistinct(Elems(s), sorted);
    PackedValid(sorted);
    if Lives(sorted) == s.items {
      ElementsOfLives(sorted);
      LedgerEmptyWithoutTombstones(s);
    } else {
      RepointedMap(s.index, sorted);
    }
  }

  // ---------------------------------------------------------------------------
  // Equality

  /** `__eq__` against another IndexedSet: same length and same order. */
  function Equal<T(==)>(a: IndexedSet<T>, b: IndexedSet<T>): bool {
    Len(a) == Len(b) && Elems(a) == Elems(b)
  }

  /** `__eq__` against any other container: set equality. */
  function EqualAsSet<T(==)>(a: IndexedSet<T>, other: seq<T>): bool {
    SetOf(Elems(a)) == SetOf(other)
  }

  lemma EqualIsOrderedEquality<T>(a: IndexedSet<T>, b: IndexedSet<T>)
    requires Valid(a) && Valid(b)
    ensures Equal(a, b) <==> Elems(a) == Elems(b)
    ensures Equal(a, b) ==> EqualAsSet(a, Elems(b))
  {
    ConsistentFacts(a);
    ConsistentFacts(b);
  }

  // ---------------------------------------------------------------------------
  // Slicing

  /** Every `step`-th element of `xs` from position `i` up to (excluding) `end`. */
  function Strided<T>(xs: seq<T>, i: nat, end: int, step: nat): (r: seq<T>)
    requires step > 0
    decreases end - i
  {
    if i >= end || i >= |xs| then [] else [xs[i]] + Strided(xs, i + step, end, step)
  }

  /** The k-th element taken is `xs[i + k * step]`. */
  lemma {:induction false} StridedAt<T>(xs: seq<T>, i: nat, end: int, step: nat)
    requires step > 0
    ensures forall k :: 0 <= k < |Strided(xs, i, end, step)| ==>
      i + k * step < |xs| && i + k * step < end && Strided(xs, i, end, step)[k] == xs[i + k * step]
    decreases end - i
  {
    if !(i >= end || i >= |xs|) {
      StridedAt(xs, i + step, end, step);
      var r := Strided(xs, i, end, step);
      var rest := Strided(xs, i + step, end, step);
      forall k | 0 <= k < |r| ensures i + k * step < |xs| && i + k * step < end && r[k] == xs[i + k * step] {
        if k > 0 {
          assert r[k] == rest[k - 1];
          assert i + k * step == (i + step) + (k - 1) * step;
        }
      }
    }
  }

  /** Every position `i + k * step` below both bounds is taken. */
  lemma {:induction false} StridedComplete<T>(xs: seq<T>, i: nat, end: int, step: nat, k: nat)
    requires step > 0 && i + k * step < end && i + k * step < |xs|
    ensures k < |Strided(xs, i, end, step)|
    decreases k
  {
    if k > 0 {
      assert (i + step) + (k - 1) * step == i + k * step;
      StridedComplete(xs, i + step, end, step, k - 1);
    }
  }

  /** With step 1 the stride is the contiguous sub-sequence, clamped to the input. */
  lemma {:induction false} StridedContiguous<T>(xs: seq<T>, i: nat, end: nat)
    requires i <= end <= |xs|
    ensures Strided(xs, i, end, 1) == xs[i..end]
    decreases end - i
  {
    if i < end {
      StridedContiguous(xs, i + 1, end);
    }
  }

  /** `itertools.islice(it, start, stop, step)`: `ValueError` for a negative start or
      stop or a non-positive step; `None` start means 0, `None` stop means the end. */
  function ISlice<T>(xs: seq<T>, start: Option<int>, stop: Option<int>, step: Option<int>): (r: Result<seq<T>>)
    ensures r.Err? ==> r.error == ValueError
  {
    var a := if start.Some? then start.value else 0;
    var b := if stop.Some? then stop.value else |xs|;
    var st := if step.Some? then step.value else 1;
    if a < 0 || b < 0 || st <= 0 then Err(ValueError)
    else Ok(Strided(xs, a, b, st))
  }

  /** With step 1 `islice` is the contiguous sub-sequence, clamped to the input. */
  lemma ISliceContiguous<T>(xs: seq<T>, a: nat, b: nat)
    ensures var e := if b < |xs| then b else |xs|;
      ISlice(xs, Some(a), Some(b), None) == Ok(if a < e then xs[a..e] else [])
  {
    var e := if b < |xs| then b else |xs|;
    if a < e {
      StridedContiguous(xs, a, e);
      StridedClamp(xs, a, b);
    }
  }

  /** Stopping beyond the input is stopping at its end. */
  lemma {:induction false} StridedClamp<T>(xs: seq<T>, i: nat, end: int)
    ensures Strided(xs, i, end, 1) == Strided(xs, i, if end < |xs| then end else |xs|, 1)
    decreases end - i
  {
    if !(i >= end || i >= |xs|) {
      StridedClamp(xs, i + 1, end);
    }
  }

  /** `iter_slice`: start and stop go through `_get_real_index`, so they become SLOT
      numbers, yet they are applied to the live iteration; a negative step walks the
      reversed live sequence with the step's magnitude. */
  function IterSlice<T(==)>(s: IndexedSet<T>, start: Option<int>, stop: Option<int>, step: Option<int>): Result<seq<T>> {
    var a := if start.Some? then Some(RealIndex(s, start.value)) else None;
    var b := if stop.Some? then Some(RealIndex(s, stop.value)) else None;
    if step.Some? && step.value < 0 then ISlice(Backward(s.items), a, b, Some(-step.value))
    else ISlice(Elems(s), a, b, step)
  }

  /** `__getitem__` with a slice: a new IndexedSet of the sliced elements. */
  function GetSlice<T(==)>(s: IndexedSet<T>, start: Option<int>, stop: Option<int>, step: Option<int>): Result<IndexedSet<T>> {
    match IterSlice(s, start, stop, step)
    case Ok(xs) => Ok(FromSeq(xs))
    case Err(e) => Err(e)
  }

  /** The slot of logical position `i` has exactly `i` live slots before it. */
  lemma SlotOfPosition<T>(s: IndexedSet<T>, i: int)
    requires Valid(s) && 0 <= i < Len(s)
    ensures |Elems(s)| == Len(s)
    ensures 0 <= RealIndex(s, i) < |s.items| && |Elements(s.items[..RealIndex(s, i)])| == i
  {
    RealIndexSound(s, i);
    var p := RealIndex(s, i);
    NthLive(s.items, p);
    ElemsDistinct(s);
    DistinctIndex(Elems(s), i, |Elements(s.items[..p])|);
  }

  /** As written, `s[i:]` starts at the element whose logical position is the i-th
      live element's SLOT; once a tombstone precedes that slot this skips elements. */
  lemma GetSliceFromSlot<T>(s: IndexedSet<T>, i: int)
    requires Valid(s) && 0 <= i < Len(s)
    ensures |Elems(s)| == Len(s) && i <= RealIndex(s, i) < |s.items|
    ensures RealIndex(s, i) == i + DeadCount(s.items[..RealIndex(s, i)])
    ensures var p := RealIndex(s, i);
      IterSlice(s, Some(i), None, None) == Ok(if p < Len(s) then Elems(s)[p..] else [])
  {
    SlotOfPosition(s, i);
    var p := RealIndex(s, i);
    var e := Elems(s);
    assert IterSlice(s, Some(i), None, None) == ISlice(e, Some(p), None, None);
    assert ISlice(e, Some(p), None, None) == ISlice(e, Some(p), Some(|e|), None);
    ISliceContiguous(e, p, |e|);
    if p < |e| {
      assert e[p..|e|] == e[p..];
    }
  }

  /** The slice as evidently intended: start and stop are logical positions, wrapped
      once by the length like list indices, and not translated to slots. */
  function GetSliceLogical<T(==)>(s: IndexedSet<T>, start: Option<int>, stop: Option<int>, step: Option<int>): Result<IndexedSet<T>> {
    var a := if start.Some? then Some(if start.value < 0 then start.value + Len(s) else start.value) else None;
    var b := if stop.Some? then Some(if stop.value < 0 then stop.value + Len(s) else stop.value) else None;
    var r := if step.Some? && step.value < 0 then ISlice(Rev(Elems(s)), a, b, Some(-step.value)) else ISlice(Elems(s), a, b, step);
    match r
    case Ok(xs) => Ok(FromSeq(xs))
    case Err(e) => Err(e)
  }

  /** The corrected slice agrees with slicing the iteration, whatever tombstones lie before. */
  lemma GetSliceLogicalSound<T>(s: IndexedSet<T>, i: int, j: int)
    requires Valid(s) && 0 <= i <= j <= Len(s)
    ensures |Elems(s)| == Len(s)
    ensures GetSliceLogical(s, Some(i), Some(j), None) == Ok(FromSeq(Elems(s)[i..j]))
    ensures Elems(GetSliceLogical(s, Some(i), Some(j), None).value) == Elems(s)[i..j]
  {
    ElemsDistinct(s);
    LenIsElems(s);
    ISliceContiguous(Elems(s), i, j);
    var e := Elems(s)[i..j];
    DistinctSlice(Elems(s), i, j);
    FromSeqSound(e);
    DedupOfDistinct(e);
  }

  // ---------------------------------------------------------------------------
  // Logical position of an element

  /** `index` as evidently intended: the element's logical position. */
  function LogicalIndexOf<T(==)>(s: IndexedSet<T>, x: T): Result<int>
    requires IndexSound(s)
  {
    if x in s.index then Ok(|Elements(s.items[..s.index[x]])|) else Err(ValueError)
  }

  /** The round trip `s[s.index(x)] == x` holds for the logical position. */
  lemma LogicalIndexRoundTrip<T>(s: IndexedSet<T>, x: T)
    requires Valid(s)
    ensures LogicalIndexOf(s, x).Ok? <==> Contains(s, x)
    ensures Contains(s, x) ==>
      && 0 <= LogicalIndexOf(s, x).value < Len(s)
      && Get(s, LogicalIndexOf(s, x).value) == Ok(Live(x))
  {
    if x in s.index {
      var p := s.index[x];
      NthLive(s.items, p);
      ConsistentFacts(s);
      GetSound(s, LogicalIndexOf(s, x).value);
    }
  }
}
