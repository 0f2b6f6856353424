/** The set operations of `IndexedSet` (boltons/setutils.py), out-of-place and in-place.
    An "other" operand is any iterable with membership, modelled by the sequence of
    what it yields; an IndexedSet operand is passed as `Elems`, except for
    `difference_update`, whose `self in others` test compares IndexedSet operands in
    order and so keeps them apart (`Arg`). */
module SetAlgebra {
  import opened Wrappers
  import opened Seqs
  import opened Slots
  import opened IndexedSets

  /** Everything the operands yield, one after the other: `chain(*others)`. */
  function Flatten<T>(others: seq<seq<T>>): (r: seq<T>) {
    if |others| == 0 then [] else Flatten(others[..|others| - 1]) + others[|others| - 1]
  }

  /** `x` is in every operand (true when there are none). */
  predicate InAll<T(==)>(others: seq<seq<T>>, x: T) {
    forall i :: 0 <= i < |others| ==> x in others[i]
  }

  /** `x` is in some operand. */
  predicate InAny<T(==)>(others: seq<seq<T>>, x: T) {
    exists i :: 0 <= i < |others| && x in others[i]
  }

  lemma {:induction false} FlattenMembers<T>(others: seq<seq<T>>)
    ensures forall x :: x in Flatten(others) <==> InAny(others, x)
  {
    if |others| > 0 {
      var init := others[..|others| - 1];
      FlattenMembers(init);
      forall x ensures x in Flatten(others) <==> InAny(others, x) {
        if InAny(init, x) {
          var i :| 0 <= i < |init| && x in init[i];
          assert others[i] == init[i];
        }
        if InAny(others, x) {
          var i :| 0 <= i < |others| && x in others[i];
          if i < |init| {
            assert init[i] == others[i];
          }
        }
      }
    }
  }

  // ---------------------------------------------------------------------------
  // Comparisons

  /** `isdisjoint`: scan `other`, stop at the first member of the set. */
  method IsDisjoint<T(==)>(s: IndexedSet<T>, other: seq<T>) returns (r: bool)
    ensures r <==> forall k :: k in other ==> !Contains(s, k)
  {
    var i := 0;
    while i < |other|
      invariant 0 <= i <= |other|
      invariant forall j :: 0 <= j < i ==> !Contains(s, other[j])
    {
      if other[i] in s.index {
        assert other[i] in other;
        return false;
      }
      i := i + 1;
    }
    return true;
  }

  /** `issubset`: a shorter `other` fails at once; otherwise every element must be in it. */
  method IsSubset<T(==)>(s: IndexedSet<T>, other: seq<T>) returns (r: bool)
    requires Valid(s)
    ensures r <==> |other| >= Len(s) && forall k :: Contains(s, k) ==> k in other
  {
    if |other| < |s.index| {
      return false;
    }
    ConsistentFacts(s);
    var e := Elems(s);
    var i := 0;
    while i < |e|
      invariant 0 <= i <= |e|
      invariant forall j :: 0 <= j < i ==> e[j] in other
    {
      if e[i] !in other {
        assert Contains(s, e[i]);
        return false;
      }
      i := i + 1;
    }
    forall k | Contains(s, k) ensures k in other {
      var j :| 0 <= j < |e| && e[j] == k;
    }
    return true;
  }

  /** `issuperset`: a longer `other` fails at once; otherwise everything in it must be
      in the set. */
  method IsSuperset<T(==)>(s: IndexedSet<T>, other: seq<T>) returns (r: bool)
    ensures r <==> |other| <= Len(s) && forall k :: k in other ==> Contains(s, k)
  {
    if |other| > |s.index| {
      return false;
    }
    var i := 0;
    while i < |other|
      invariant 0 <= i <= |other|
      invariant forall j :: 0 <= j < i ==> Contains(s, other[j])
    {
      if other[i] !in s.index {
        assert other[i] in other && !Contains(s, other[i]);
        return false;
      }
      i := i + 1;
    }
    return true;
  }

  /** Against a duplicate-free `other` the length test of `issubset` is implied by
      inclusion, so the answer is plain set inclusion. */
  lemma SubsetLengthImplied<T>(s: IndexedSet<T>, other: seq<T>)
    requires Valid(s) && Distinct(other)
    requires forall k :: Contains(s, k) ==> k in other
    ensures |other| >= Len(s)
  {
    ConsistentFacts(s);
    assert s.index.Keys <= SetOf(other);
    DistinctCard(other);
    SubsetCard(s.index.Keys, SetOf(other));
  }

  lemma SubsetCard<T>(a: set<T>, b: set<T>)
    requires a <= b
    ensures |a| <= |b|
  {
    assert b == a + (b - a);
  }

  /** Against another valid IndexedSet, `a.issubset(b)` and `b.issuperset(a)` ask the
      same question: inclusion of the element sets. */
  lemma SubsetSupersetDual<T>(a: IndexedSet<T>, b: IndexedSet<T>)
    requires Valid(a) && Valid(b)
    ensures (|Elems(b)| >= Len(a) && forall k :: Contains(a, k) ==> k in Elems(b))
        <==> SetOf(Elems(a)) <= SetOf(Elems(b))
    ensures (|Elems(a)| <= Len(b) && forall k :: k in Elems(a) ==> Contains(b, k))
        <==> SetOf(Elems(a)) <= SetOf(Elems(b))
  {
    ConsistentFacts(a);
    ConsistentFacts(b);
    if SetOf(Elems(a)) <= SetOf(Elems(b)) {
      SubsetLengthImplied(a, Elems(b));
    }
  }

  // ---------------------------------------------------------------------------
  // Out-of-place operations

  /** `union`: the set's elements, then each operand's, first occurrences kept. */
  function Union<T(==)>(s: IndexedSet<T>, others: seq<seq<T>>): IndexedSet<T> {
    FromSeq(Elems(s) + Flatten(others))
  }

  lemma UnionSound<T>(s: IndexedSet<T>, others: seq<seq<T>>)
    requires Valid(s)
    ensures Valid(Union(s, others))
    ensures forall x :: Contains(Union(s, others), x) <==> Contains(s, x) || InAny(others, x)
    ensures |Elems(s)| <= |Elems(Union(s, others))| && Elems(Union(s, others))[..|Elems(s)|] == Elems(s)
  {
    FromSeqSound(Elems(s) + Flatten(others));
    FlattenMembers(others);
    ConsistentFacts(s);
    DedupPrefix(Elems(s), Flatten(others));
    DedupOfDistinct(Elems(s));
  }

  /** `intersection`: one operand takes the fast path, several go through
      `iter_intersection`; either way the order is the set's. */
  function Intersection<T(==)>(s: IndexedSet<T>, others: seq<seq<T>>): IndexedSet<T> {
    if |others| == 1 then FromSeq(Filter(Elems(s), k => k in others[0]))
    else FromSeq(Filter(Elems(s), k => InAll(others, k)))
  }

  /** `difference`: the fast path for one operand and `iter_difference` otherwise. */
  function Difference<T(==)>(s: IndexedSet<T>, others: seq<seq<T>>): IndexedSet<T> {
    if |others| == 1 then FromSeq(Filter(Elems(s), k => k !in others[0]))
    else FromSeq(Filter(Elems(s), k => !InAny(others, k)))
  }

  /** A filtered iteration of a valid set is already duplicate-free. */
  lemma FromFiltered<T>(s: IndexedSet<T>, p: T -> bool)
    requires Valid(s)
    ensures Valid(FromSeq(Filter(Elems(s), p))) && Elems(FromSeq(Filter(Elems(s), p))) == Filter(Elems(s), p)
    ensures forall x :: Contains(FromSeq(Filter(Elems(s), p)), x) <==> Contains(s, x) && p(x)
  {
    ConsistentFacts(s);
    FilterDistinct(Elems(s), p);
    FilterMembers(Elems(s), p);
    FromSeqSound(Filter(Elems(s), p));
    DedupOfDistinct(Filter(Elems(s), p));
  }

  /** Both paths of `intersection` keep, in order, the elements found in every operand. */
  lemma IntersectionSound<T>(s: IndexedSet<T>, others: seq<seq<T>>)
    requires Valid(s)
    ensures Valid(Intersection(s, others))
    ensures Elems(Intersection(s, others)) == Filter(Elems(s), k => InAll(others, k))
    ensures forall x :: Contains(Intersection(s, others), x) <==> Contains(s, x) && InAll(others, x)
  {
    if |others| == 1 {
      FilterCongruent(Elems(s), k => k in others[0], k => InAll(others, k));
    }
    FromFiltered(s, k => InAll(others, k));
  }

  /** Both paths of `difference` keep, in order, the elements found in no operand. */
  lemma DifferenceSound<T>(s: IndexedSet<T>, others: seq<seq<T>>)
    requires Valid(s)
    ensures Valid(Difference(s, others))
    ensures Elems(Difference(s, others)) == Filter(Elems(s), k => !InAny(others, k))
    ensures forall x :: Contains(Difference(s, others), x) <==> Contains(s, x) && !InAny(others, x)
  {
    if |others| == 1 {
      FilterCongruent(Elems(s), k => k !in others[0], k => !InAny(others, k));
    }
    FromFiltered(s, k => !InAny(others, k));
  }

  /** `symmetric_difference`: the union minus the intersection. */
  function SymmetricDifference<T(==)>(s: IndexedSet<T>, others: seq<seq<T>>): IndexedSet<T> {
    Difference(Union(s, others), [Elems(Intersection(s, others))])
  }

  /** Membership in the symmetric difference: in the set or an operand, but not in the
      set and every operand at once; with one operand, exactly one side. */
  lemma SymmetricDifferenceSound<T>(s: IndexedSet<T>, others: seq<seq<T>>)
    requires Valid(s)
    ensures Valid(SymmetricDifference(s, others))
    ensures forall x :: Contains(SymmetricDifference(s, others), x) <==>
      (Contains(s, x) || InAny(others, x)) && !(Contains(s, x) && InAll(others, x))
    ensures |others| == 1 ==> forall x :: Contains(SymmetricDifference(s, others), x) <==>
      (Contains(s, x) != (x in others[0]))
  {
    SymmetricDifferenceMembers(s, others);
    if |others| == 1 {
      InAnyOne(others[0]);
      assert others == [others[0]];
    }
  }

  lemma SymmetricDifferenceMembers<T>(s: IndexedSet<T>, others: seq<seq<T>>)
    requires Valid(s)
    ensures Valid(SymmetricDifference(s, others))
    ensures forall x :: Contains(SymmetricDifference(s, others), x) <==>
      (Contains(s, x) || InAny(others, x)) && !(Contains(s, x) && InAll(others, x))
  {
    UnionSound(s, others);
    IntersectionSound(s, others);
    var i := Intersection(s, others);
    ContainsIsElem(i);
    DifferenceSound(Union(s, others), [Elems(i)]);
    InAnyOne(Elems(i));
  }

  /** With one operand, being in some operand is being in it. */
  lemma InAnyOne<T>(w: seq<T>)
    ensures forall x :: InAny([w], x) <==> x in w
  {
    forall x | InAny([w], x) ensures x in w {
      var j :| 0 <= j < 1 && x in [w][j];
    }
    assert [w][0] == w;
  }

  // ---------------------------------------------------------------------------
  // In-place operations

  /** Repeated `discard`. */
  function DiscardAll<T(==)>(s: IndexedSet<T>, xs: seq<T>): (r: IndexedSet<T>)
    requires Valid(s)
    ensures Valid(r)
  {
    if |xs| == 0 then s
    else
      var t := DiscardAll(s, xs[..|xs| - 1]);
      DiscardSound(t, xs[|xs| - 1]);
      Discard(t, xs[|xs| - 1])
  }

  lemma {:induction false} WithoutIsFilter<T>(xs: seq<T>, y: T)
    ensures Without(xs, y) == Filter(xs, z => z != y)
  {
    if |xs| > 0 {
      WithoutIsFilter(xs[..|xs| - 1], y);
    }
  }

  /** Discarding a sequence of values removes exactly those values, in place. */
  lemma {:induction false} DiscardAllSound<T>(s: IndexedSet<T>, xs: seq<T>)
    requires Valid(s)
    ensures Elems(DiscardAll(s, xs)) == Filter(Elems(s), z => z !in xs)
  {
    if |xs| == 0 {
      FilterAll(Elems(s), z => z !in xs);
    } else {
      var init, y := xs[..|xs| - 1], xs[|xs| - 1];
      var t := DiscardAll(s, init);
      DiscardAllSound(s, init);
      DiscardSound(t, y);
      WithoutIsFilter(Elems(t), y);
      FilterFilter(Elems(s), z => z !in init, z => z != y, z => z !in xs);
    }
  }

  /** `update`: with one operand its elements are added; with several, `chain(others)`
      yields the operands THEMSELVES, which `embed` turns into the values added. */
  function Update<T(==)>(s: IndexedSet<T>, others: seq<seq<T>>, embed: seq<T> -> T): IndexedSet<T> {
    if |others| == 0 then s
    else if |others| == 1 then AddAll(s, others[0])
    else AddAll(s, seq(|others|, i requires 0 <= i < |others| => embed(others[i])))
  }

  /** `update` as evidently intended: every operand's elements are added. */
  function UpdateFlat<T(==)>(s: IndexedSet<T>, others: seq<seq<T>>): IndexedSet<T> {
    AddAll(s, Flatten(others))
  }

  /** The corrected update leaves the set as `union` would build it. */
  lemma UpdateFlatIsUnion<T>(s: IndexedSet<T>, others: seq<seq<T>>)
    requires Valid(s)
    ensures Valid(UpdateFlat(s, others))
    ensures Elems(UpdateFlat(s, others)) == Elems(Union(s, others))
  {
    AddAllSound(s, Flatten(others));
    FromSeqSound(Elems(s) + Flatten(others));
  }

  /** With one operand the source's update is the corrected one; with two, it adds the
      embedded operands instead of their elements. */
  lemma UpdateAsWritten<T>(s: IndexedSet<T>, others: seq<seq<T>>, embed: seq<T> -> T)
    requires Valid(s)
    ensures |others| == 1 ==> Update(s, others, embed) == UpdateFlat(s, others)
    ensures |others| >= 2 ==>
      Elems(Update(s, others, embed)) == Dedup(Elems(s) + seq(|others|, i requires 0 <= i < |others| => embed(others[i])))
  {
    if |others| == 1 {
      assert Flatten(others) == others[0] by {
        assert others[..0] == [];
      }
    }
    if |others| >= 2 {
      AddAllSound(s, seq(|others|, i requires 0 <= i < |others| => embed(others[i])));
    }
  }

  /** `intersection_update`: discard whatever `difference` returns. */
  function IntersectionUpdate<T(==)>(s: IndexedSet<T>, others: seq<seq<T>>): (r: IndexedSet<T>)
    requires Valid(s)
    ensures Valid(r)
  {
    DiscardAll(s, Elems(Difference(s, others)))
  }

  /** As written, what is left is the elements found in SOME operand, which is the
      intersection only for a single operand. */
  lemma IntersectionUpdateAsWritten<T>(s: IndexedSet<T>, others: seq<seq<T>>)
    requires Valid(s)
    ensures Elems(IntersectionUpdate(s, others)) == Filter(Elems(s), k => InAny(others, k))
  {
    var e := Elems(s);
    var gone := Elems(Difference(s, others));
    DifferenceSound(s, others);
    DiscardAllSound(s, gone);
    KeepComplement(e, others, gone, false);
  }

  /** Discarding the elements of `e` that do (`inAll`) or do not (`!inAll`) satisfy the
      operand test keeps the others. */
  lemma KeepComplement<T>(e: seq<T>, others: seq<seq<T>>, gone: seq<T>, inAll: bool)
    requires inAll ==> gone == Filter(e, k => InAll(others, k))
    requires !inAll ==> gone == Filter(e, k => !InAny(others, k))
    ensures inAll ==> Filter(e, z => z !in gone) == Filter(e, k => !InAll(others, k))
    ensures !inAll ==> Filter(e, z => z !in gone) == Filter(e, k => InAny(others, k))
  {
    if inAll {
      FilterMembers(e, k => InAll(others, k));
      assert forall x :: x in e ==> (x !in gone) == !InAll(others, x);
      FilterCongruent(e, z => z !in gone, k => !InAll(others, k));
    } else {
      FilterMembers(e, k => !InAny(others, k));
      assert forall x :: x in e ==> (x !in gone) == InAny(others, x);
      FilterCongruent(e, z => z !in gone, k => InAny(others, k));
    }
  }

  /** `intersection_update` as evidently intended: discard what is missing from some operand. */
  function IntersectionUpdateFixed<T(==)>(s: IndexedSet<T>, others: seq<seq<T>>): (r: IndexedSet<T>)
    requires Valid(s)
    ensures Valid(r)
  {
    DiscardAll(s, Filter(Elems(s), k => !InAll(others, k)))
  }

  lemma IntersectionUpdateFixedSound<T>(s: IndexedSet<T>, others: seq<seq<T>>)
    requires Valid(s)
    ensures Valid(IntersectionUpdateFixed(s, others))
    ensures Elems(IntersectionUpdateFixed(s, others)) == Elems(Intersection(s, others))
  {
    var gone := Filter(Elems(s), k => !InAll(others, k));
    DiscardAllSound(s, gone);
    FilterMembers(Elems(s), k => !InAll(others, k));
    FilterCongruent(Elems(s), z => z !in gone, k => InAll(others, k));
    IntersectionSound(s, others);
  }

  /** An operand of `difference_update`, kept apart by how `self in others` compares it
      with the set: another IndexedSet through `__eq__`'s ordered test, any other
      container through set equality. */
  datatype Arg<T(==)> = IndexedArg(other: IndexedSet<T>) | PlainArg(xs: seq<T>)

  /** What an operand yields and holds. */
  function ArgItems<T(==)>(a: Arg<T>): seq<T> {
    match a
    case IndexedArg(o) => Elems(o)
    case PlainArg(xs) => xs
  }

  function Items<T(==)>(args: seq<Arg<T>>): (r: seq<seq<T>>)
    ensures |r| == |args| && forall i :: 0 <= i < |args| ==> r[i] == ArgItems(args[i])
  {
    seq(|args|, i requires 0 <= i < |args| => ArgItems(args[i]))
  }

  /** `self == operand`: same elements in the same order for an IndexedSet operand,
      the same elements in any order for anything else. */
  predicate EqualsSelf<T(==)>(s: IndexedSet<T>, a: Arg<T>) {
    match a
    case IndexedArg(o) => Equal(o, s)
    case PlainArg(xs) => EqualAsSet(s, xs)
  }

  /** `self in others`. */
  predicate SelfAmong<T(==)>(s: IndexedSet<T>, args: seq<Arg<T>>) {
    exists i :: 0 <= i < |args| && EqualsSelf(s, args[i])
  }

  /** `difference_update`: clear when the set is among the operands, then discard
      whatever `intersection` returns. */
  function DifferenceUpdate<T(==)>(s: IndexedSet<T>, args: seq<Arg<T>>): (r: IndexedSet<T>)
    requires Valid(s)
    ensures Valid(r)
  {
    var t := if SelfAmong(s, args) then Clear(s) else s;
    DiscardAll(t, Elems(Intersection(t, Items(args))))
  }

  /** As written, what is left is the elements missing from SOME operand, which is the
      difference only for a single operand; an operand equal to the set empties it. */
  lemma DifferenceUpdateAsWritten<T>(s: IndexedSet<T>, args: seq<Arg<T>>)
    requires Valid(s)
    ensures SelfAmong(s, args) ==> Elems(DifferenceUpdate(s, args)) == []
    ensures !SelfAmong(s, args) ==>
      Elems(DifferenceUpdate(s, args)) == Filter(Elems(s), k => !InAll(Items(args), k))
  {
    var others := Items(args);
    var t := if SelfAmong(s, args) then Clear(s) else s;
    var gone := Elems(Intersection(t, others));
    IntersectionSound(t, others);
    DiscardAllSound(t, gone);
    KeepComplement(Elems(t), others, gone, true);
    if SelfAmong(s, args) {
      assert Elems(t) == [];
    }
  }

  /** Which operands empty the set: a valid IndexedSet operand only with the set's own
      order, a plain one with the set's elements in any order. */
  lemma EqualsSelfMeans<T>(s: IndexedSet<T>, a: Arg<T>)
    requires Valid(s) && (a.IndexedArg? ==> Valid(a.other))
    ensures a.IndexedArg? ==> (EqualsSelf(s, a) <==> Elems(a.other) == Elems(s))
    ensures a.PlainArg? ==> (EqualsSelf(s, a) <==> SetOf(a.xs) == SetOf(Elems(s)))
  {
    if a.IndexedArg? {
      EqualIsOrderedEquality(a.other, s);
    }
  }

  /** `x.difference_update(o, [c])` with `x` holding `a, b` and the IndexedSet `o`
      holding `b, a`: `o` is not equal to `x`, nothing is in both operands, and `x` is
      left as it was; a plain `[b, a]` in place of `o` is equal to `x` and clears it. */
  lemma DifferenceUpdateOperandOrder<T>(s: IndexedSet<T>, o: IndexedSet<T>, a: T, b: T, c: T)
    requires Valid(s) && Valid(o) && Elems(s) == [a, b] && Elems(o) == [b, a]
    requires a != b && c != a && c != b
    ensures Elems(DifferenceUpdate(s, [IndexedArg(o), PlainArg([c])])) == [a, b]
    ensures Elems(DifferenceUpdate(s, [PlainArg([b, a]), PlainArg([c])])) == []
  {
    ReorderedNotSelf(s, o, a, b, c);
    var args := [IndexedArg(o), PlainArg([c])];
    DifferenceUpdateAsWritten(s, args);
    NoneInAll(s, args, c);
    PlainReorderedIsSelf(s, a, b, c);
    DifferenceUpdateAsWritten(s, [PlainArg([b, a]), PlainArg([c])]);
  }

  lemma ReorderedNotSelf<T>(s: IndexedSet<T>, o: IndexedSet<T>, a: T, b: T, c: T)
    requires Valid(s) && Valid(o) && Elems(s) == [a, b] && Elems(o) == [b, a]
    requires a != b && c != a && c != b
    ensures !SelfAmong(s, [IndexedArg(o), PlainArg([c])])
  {
    var args := [IndexedArg(o), PlainArg([c])];
    EqualsSelfMeans(s, args[0]);
    assert [b, a][0] != [a, b][0];
    assert a in SetOf(Elems(s)) && a !in SetOf([c]);
    assert !EqualsSelf(s, args[1]);
  }

  /** When the last operand is `[c]` and the set does not hold `c`, no member is in
      every operand, so the filter keeps everything. */
  lemma NoneInAll<T>(s: IndexedSet<T>, args: seq<Arg<T>>, c: T)
    requires |args| > 0 && args[|args| - 1] == PlainArg([c]) && c !in Elems(s)
    ensures Filter(Elems(s), k => !InAll(Items(args), k)) == Elems(s)
  {
    forall k | k in Elems(s) ensures !InAll(Items(args), k) {
      assert k !in Items(args)[|args| - 1];
    }
    FilterAll(Elems(s), k => !InAll(Items(args), k));
  }

  lemma PlainReorderedIsSelf<T>(s: IndexedSet<T>, a: T, b: T, c: T)
    requires Elems(s) == [a, b]
    ensures SelfAmong(s, [PlainArg([b, a]), PlainArg([c])])
  {
    var plain := [PlainArg([b, a]), PlainArg([c])];
    assert SetOf([b, a]) == SetOf(Elems(s));
    assert EqualsSelf(s, plain[0]);
  }

  /** `difference_update` as evidently intended: discard what is in some operand. */
  function DifferenceUpdateFixed<T(==)>(s: IndexedSet<T>, others: seq<seq<T>>): (r: IndexedSet<T>)
    requires Valid(s)
    ensures Valid(r)
  {
    DiscardAll(s, Filter(Elems(s), k => InAny(others, k)))
  }

  lemma DifferenceUpdateFixedSound<T>(s: IndexedSet<T>, others: seq<seq<T>>)
    requires Valid(s)
    ensures Valid(DifferenceUpdateFixed(s, others))
    ensures Elems(DifferenceUpdateFixed(s, others)) == Elems(Difference(s, others))
  {
    var gone := Filter(Elems(s), k => InAny(others, k));
    DiscardAllSound(s, gone);
    FilterMembers(Elems(s), k => InAny(others, k));
    FilterCongruent(Elems(s), z => z !in gone, k => !InAny(others, k));
    DifferenceSound(s, others);
  }

  /** The single operand of `symmetric_difference_update`: the set itself (`self is
      other`) or some other iterable. */
  datatype Operand<T> = ItSelf | Items(xs: seq<T>)

  /** Toggle each value in turn: discard if present, add otherwise. */
  function Toggle<T(==)>(s: IndexedSet<T>, xs: seq<T>): (r: IndexedSet<T>)
    requires Valid(s)
    ensures Valid(r)
  {
    if |xs| == 0 then s
    else
      var t := Toggle(s, xs[..|xs| - 1]);
      var x := xs[|xs| - 1];
      DiscardSound(t, x);
      AddSound(t, x);
      if x in t.index then Discard(t, x) else Add(t, x)
  }

  /** `symmetric_difference_update`. */
  function SymmetricDifferenceUpdate<T(==)>(s: IndexedSet<T>, other: Operand<T>): IndexedSet<T>
    requires Valid(s)
  {
    match other
    case ItSelf => Clear(s)
    case Items(xs) => Toggle(s, xs)
  }

  /** `x` occurs an odd number of times in `xs`. */
  predicate OddIn<T(==)>(xs: seq<T>, x: T) {
    multiset(xs)[x] % 2 == 1
  }

  /** Toggling leaves a value present exactly when it was present or occurs an odd
      number of times in the operand, but not both. */
  lemma {:induction false} ToggleSound<T>(s: IndexedSet<T>, xs: seq<T>)
    requires Valid(s)
    ensures forall x :: Contains(Toggle(s, xs), x) <==> (Contains(s, x) != OddIn(xs, x))
  {
    if |xs| > 0 {
      var init, y := xs[..|xs| - 1], xs[|xs| - 1];
      ToggleSound(s, init);
      ToggleStep(s, Toggle(s, init), init, y);
      assert xs == init + [y];
    }
  }

  lemma ToggleStep<T>(s: IndexedSet<T>, t: IndexedSet<T>, init: seq<T>, y: T)
    requires Valid(t)
    requires forall x :: Contains(t, x) <==> (Contains(s, x) != OddIn(init, x))
    ensures var u := if y in t.index then Discard(t, y) else Add(t, y);
      forall x :: Contains(u, x) <==> (Contains(s, x) != OddIn(init + [y], x))
  {
    OddSnoc(init, y);
    if y in t.index {
      DiscardSound(t, y);
    } else {
      AddSound(t, y);
    }
  }

  /** Appending `y` flips the parity of `y` and of nothing else. */
  lemma OddSnoc<T>(init: seq<T>, y: T)
    ensures forall x :: OddIn(init + [y], x) <==> (OddIn(init, x) != (x == y))
  {
    assert multiset(init + [y]) == multiset(init) + multiset{y};
  }

  /** A duplicate-free sequence holds each of its members an odd number (once) of times. */
  lemma OddInDistinct<T>(xs: seq<T>)
    requires Distinct(xs)
    ensures forall x :: OddIn(xs, x) <==> x in xs
  {
    forall x ensures OddIn(xs, x) <==> x in xs {
      DistinctMultiplicity(xs, x);
      assert x in xs <==> x in multiset(xs);
    }
  }

  /** With a duplicate-free operand that is not the set itself, the result holds the
      values in exactly one of the two; with the set itself, nothing. */
  lemma SymmetricDifferenceUpdateSound<T>(s: IndexedSet<T>, other: Operand<T>)
    requires Valid(s)
    requires other.Items? ==> Distinct(other.xs)
    ensures other.ItSelf? ==> Elems(SymmetricDifferenceUpdate(s, other)) == []
    ensures other.Items? ==> forall x :: Contains(SymmetricDifferenceUpdate(s, other), x) <==>
      (Contains(s, x) != (x in other.xs))
  {
    if other.Items? {
      ToggleSound(s, other.xs);
      OddInDistinct(other.xs);
    }
  }

  // ---------------------------------------------------------------------------
  // The multi-operand in-place updates on a small input

  /** `s.intersection_update([a], [b])` keeps `a` although `b`'s operand lacks it; the
      corrected update drops it. */
  lemma IntersectionUpdateKeepsEither<T>(s: IndexedSet<T>, a: T, b: T)
    requires Valid(s) && Contains(s, a) && a != b
    ensures Contains(IntersectionUpdate(s, [[a], [b]]), a)
    ensures !Contains(IntersectionUpdateFixed(s, [[a], [b]]), a)
  {
    var others := [[a], [b]];
    IntersectionUpdateAsWritten(s, others);
    IntersectionUpdateFixedSound(s, others);
    IntersectionSound(s, others);
    ConsistentFacts(s);
    ConsistentFacts(IntersectionUpdate(s, others));
    ConsistentFacts(IntersectionUpdateFixed(s, others));
    FilterMembers(Elems(s), k => InAny(others, k));
    FilterMembers(Elems(s), k => InAll(others, k));
    assert a in others[0];
    assert a !in others[1];
  }

  /** A set holding two different values is not equal to either one-value operand. */
  lemma NotSelfAmong<T>(s: IndexedSet<T>, a: T, b: T)
    requires Valid(s) && Contains(s, a) && Contains(s, b) && a != b
    ensures !SelfAmong(s, [PlainArg([a]), PlainArg([b])])
  {
    ConsistentFacts(s);
    assert a in SetOf(Elems(s)) && b in SetOf(Elems(s));
    assert b !in SetOf([a]) && a !in SetOf([b]);
  }

  /** The membership reading of the difference update as written: a value stays
      unless EVERY operand holds it. */
  lemma DifferenceUpdateMembers<T>(s: IndexedSet<T>, args: seq<Arg<T>>)
    requires Valid(s) && !SelfAmong(s, args)
    ensures forall x :: Contains(DifferenceUpdate(s, args), x) <==> Contains(s, x) && !InAll(Items(args), x)
  {
    var u := DifferenceUpdate(s, args);
    DifferenceUpdateAsWritten(s, args);
    ConsistentFacts(s);
    ConsistentFacts(u);
    FilterMembers(Elems(s), k => !InAll(Items(args), k));
  }

  /** The membership reading of the corrected difference update: a value stays unless
      SOME operand holds it. */
  lemma DifferenceUpdateFixedMembers<T>(s: IndexedSet<T>, others: seq<seq<T>>)
    requires Valid(s)
    ensures forall x :: Contains(DifferenceUpdateFixed(s, others), x) <==> Contains(s, x) && !InAny(others, x)
  {
    var v := DifferenceUpdateFixed(s, others);
    DifferenceUpdateFixedSound(s, others);
    DifferenceSound(s, others);
    ConsistentFacts(s);
    ConsistentFacts(v);
    ConsistentFacts(Difference(s, others));
  }

  /** `s.difference_update([a], [b])` keeps `a` although its operand holds it; the
      corrected update drops it. */
  lemma DifferenceUpdateKeepsAll<T>(s: IndexedSet<T>, a: T, b: T)
    requires Valid(s) && Contains(s, a) && Contains(s, b) && a != b
    ensures Contains(DifferenceUpdate(s, [PlainArg([a]), PlainArg([b])]), a)
    ensures !Contains(DifferenceUpdateFixed(s, [[a], [b]]), a)
  {
    var others := [[a], [b]];
    var args := [PlainArg([a]), PlainArg([b])];
    assert Items(args) == others;
    NotSelfAmong(s, a, b);
    DifferenceUpdateMembers(s, args);
    DifferenceUpdateFixedMembers(s, others);
    assert a in others[0];
    assert !InAll(others, a) by {
      assert a !in others[1];
    }
  }

  /** Adding a sequence adds exactly its values. */
  lemma AddAllMembers<T>(s: IndexedSet<T>, xs: seq<T>)
    requires Valid(s)
    ensures forall x :: Contains(AddAll(s, xs), x) <==> Contains(s, x) || x in xs
  {
    AddAllSound(s, xs);
    ConsistentFacts(s);
    ConsistentFacts(AddAll(s, xs));
    DedupFacts(Elems(s) + xs);
    assert forall x :: x in SetOf(Elems(s) + xs) <==> x in Elems(s) || x in xs;
  }

  /** `s.update([a], [b])` never adds `a` when no operand embeds as `a`; the corrected
      update does. */
  lemma UpdateAddsOperands<T>(s: IndexedSet<T>, a: T, b: T, embed: seq<T> -> T)
    requires Valid(s) && !Contains(s, a)
    requires forall xs :: embed(xs) != a
    ensures !Contains(Update(s, [[a], [b]], embed), a)
    ensures Contains(UpdateFlat(s, [[a], [b]]), a)
  {
    var others := [[a], [b]];
    var added := seq(|others|, i requires 0 <= i < |others| => embed(others[i]));
    assert Update(s, others, embed) == AddAll(s, added);
    AddAllMembers(s, added);
    assert a !in added;
    AddAllMembers(s, Flatten(others));
    FlattenMembers(others);
    assert a in others[0];
  }
}
