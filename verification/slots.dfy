/** The backing sequence of an IndexedSet: a slot holds a live element or the
    removal sentinel (`_MISSING` in boltons/setutils.py). */
module Slots {
  import opened Seqs

  datatype Slot<T> = Live(e: T) | Tombstone

  /** `__iter__`: the live elements, left to right, skipping tombstones. */
  function Elements<T>(items: seq<Slot<T>>): (r: seq<T>)
    ensures |r| <= |items|
  {
    if |items| == 0 then []
    else Elements(items[..|items| - 1]) + (match items[|items| - 1] case Live(e) => [e] case Tombstone => [])
  }

  /** `__reversed__`: the live elements, right to left. */
  function Backward<T>(items: seq<Slot<T>>): seq<T> {
    if |items| == 0 then []
    else (match items[|items| - 1] case Live(e) => [e] case Tombstone => []) + Backward(items[..|items| - 1])
  }

  /** A backing sequence without tombstones holding `xs`. */
  function Lives<T>(xs: seq<T>): (r: seq<Slot<T>>)
    ensures |r| == |xs|
    ensures forall i :: 0 <= i < |xs| ==> r[i] == Live(xs[i])
  {
    seq(|xs|, i requires 0 <= i < |xs| => Live(xs[i]))
  }

  predicate NoTombstones<T>(items: seq<Slot<T>>) {
    forall i :: 0 <= i < |items| ==> items[i].Live?
  }

  /** Number of tombstones among the slots. */
  function DeadCount<T>(items: seq<Slot<T>>): nat {
    |items| - |Elements(items)|
  }

  lemma {:induction false} ElementsAppend<T>(a: seq<Slot<T>>, b: seq<Slot<T>>)
    ensures Elements(a + b) == Elements(a) + Elements(b)
    decreases |b|
  {
    if |b| == 0 {
      assert a + b == a;
    } else {
      assert (a + b)[..|a + b| - 1] == a + b[..|b| - 1];
      ElementsAppend(a, b[..|b| - 1]);
    }
  }

  lemma ElementsSplit<T>(items: seq<Slot<T>>, m: nat)
    requires m <= |items|
    ensures Elements(items) == Elements(items[..m]) + Elements(items[m..])
  {
    assert items == items[..m] + items[m..];
    ElementsAppend(items[..m], items[m..]);
  }

  lemma {:induction false} ElementsOfLives<T>(xs: seq<T>)
    ensures Elements(Lives(xs)) == xs
  {
    if |xs| > 0 {
      assert Lives(xs)[..|xs| - 1] == Lives(xs[..|xs| - 1]);
      ElementsOfLives(xs[..|xs| - 1]);
    }
  }

  /** Without tombstones the backing sequence is exactly the live elements. */
  lemma {:induction false} NoTombstonesIsLives<T>(items: seq<Slot<T>>)
    requires NoTombstones(items)
    ensures items == Lives(Elements(items)) && |Elements(items)| == |items|
  {
    if |items| > 0 {
      NoTombstonesIsLives(items[..|items| - 1]);
    }
  }

  /** A full-length element sequence means no slot is a tombstone. */
  lemma {:induction false} FullCountNoTombstones<T>(items: seq<Slot<T>>)
    requires |Elements(items)| == |items|
    ensures NoTombstones(items)
  {
    if |items| > 0 {
      FullCountNoTombstones(items[..|items| - 1]);
    }
  }

  /** The live slot at physical position `p` holds the element at logical position
      "number of live slots before p". */
  lemma NthLive<T>(items: seq<Slot<T>>, p: nat)
    requires p < |items| && items[p].Live?
    ensures |Elements(items[..p])| < |Elements(items)|
    ensures Elements(items)[|Elements(items[..p])|] == items[p].e
  {
    ElementsSplit(items, p + 1);
    assert items[..p + 1][..p] == items[..p];
  }

  /** Every logical position has a live physical slot. */
  lemma {:induction false} LiveSlotOf<T>(items: seq<Slot<T>>, i: nat) returns (p: nat)
    requires i < |Elements(items)|
    ensures p < |items| && items[p].Live? && |Elements(items[..p])| == i
  {
    var n := |items|;
    var init := items[..n - 1];
    if i < |Elements(init)| {
      p := LiveSlotOf(init, i);
      assert init[..p] == items[..p];
    } else {
      p := n - 1;
    }
  }

  lemma {:induction false} CountMonotone<T>(items: seq<Slot<T>>, a: nat, b: nat)
    requires a <= b <= |items|
    ensures |Elements(items[..a])| <= |Elements(items[..b])|
  {
    ElementsSplit(items[..b], a);
    assert items[..b][..a] == items[..a];
  }

  lemma ElementsPrefixStep<T>(items: seq<Slot<T>>, p: nat)
    requires p < |items|
    ensures |Elements(items[..p + 1])| == |Elements(items[..p])| + (if items[p].Live? then 1 else 0)
  {
    assert items[..p + 1][..p] == items[..p];
  }

  /** An element is iterated exactly when some slot holds it. */
  lemma {:induction false} ElementsMembers<T>(items: seq<Slot<T>>, x: T)
    ensures x in Elements(items) <==> exists p :: 0 <= p < |items| && items[p] == Live(x)
  {
    if |items| > 0 {
      var init := items[..|items| - 1];
      ElementsMembers(init, x);
      if x in Elements(items) && x !in Elements(init) {
        assert items[|items| - 1] == Live(x);
      }
      if exists p :: 0 <= p < |items| && items[p] == Live(x) {
        var p :| 0 <= p < |items| && items[p] == Live(x);
        if p < |items| - 1 {
          assert init[p] == Live(x);
        }
      }
    }
  }

  /** Tombstoning a live slot removes exactly that element from the iteration. */
  lemma KillSlot<T>(items: seq<Slot<T>>, p: nat)
    requires p < |items| && items[p].Live?
    ensures Elements(items[p := Tombstone]) == Elements(items[..p]) + Elements(items[p + 1..])
    ensures Elements(items) == Elements(items[..p]) + [items[p].e] + Elements(items[p + 1..])
  {
    var k := items[p := Tombstone];
    assert k == k[..p] + [Tombstone] + k[p + 1..];
    assert k[..p] == items[..p] && k[p + 1..] == items[p + 1..];
    ElementsAppend(k[..p] + [Tombstone], k[p + 1..]);
    ElementsAppend(k[..p], [Tombstone]);
    var dead: seq<Slot<T>> := [Tombstone];
    assert Elements(dead) == [] by { assert dead[..0] == []; }
    assert items == items[..p] + [items[p]] + items[p + 1..];
    ElementsAppend(items[..p] + [items[p]], items[p + 1..]);
    ElementsAppend(items[..p], [items[p]]);
    assert Elements([items[p]]) == [items[p].e] by { assert [items[p]][..0] == []; }
  }

  /** Dropping trailing tombstones leaves the iteration unchanged. */
  lemma {:induction false} DropDeadTail<T>(items: seq<Slot<T>>, m: nat)
    requires m <= |items|
    requires forall i :: m <= i < |items| ==> items[i].Tombstone?
    ensures Elements(items[..m]) == Elements(items)
    decreases |items| - m
  {
    if m < |items| {
      var init := items[..|items| - 1];
      DropDeadTail(init, m);
      assert init[..m] == items[..m];
      assert items[|items| - 1].Tombstone?;
      assert Elements(items) == Elements(init);
    } else {
      assert items[..m] == items;
    }
  }

  /** `__reversed__` yields `__iter__` backwards. */
  lemma {:induction false} BackwardIsRev<T>(items: seq<Slot<T>>)
    ensures Backward(items) == Rev(Elements(items))
  {
    if |items| > 0 {
      var init := items[..|items| - 1];
      BackwardIsRev(init);
      var tail: seq<T> := match items[|items| - 1] case Live(e) => [e] case Tombstone => [];
      RevAppend(Elements(init), tail);
    }
  }

  lemma RevAppend<T>(a: seq<T>, b: seq<T>)
    requires |b| <= 1
    ensures Rev(a + b) == Rev(b) + Rev(a)
  {
  }

  /** Length of the run of tombstones at the end of the backing sequence. */
  function TrailingDead<T>(items: seq<Slot<T>>): (r: nat)
    ensures r <= |items|
  {
    if |items| == 0 || items[|items| - 1].Live? then 0 else 1 + TrailingDead(items[..|items| - 1])
  }

  lemma {:induction false} TrailingDeadRun<T>(items: seq<Slot<T>>, a: nat)
    requires a <= |items|
    requires a == 0 || items[a - 1].Live?
    requires forall i :: a <= i < |items| ==> items[i].Tombstone?
    ensures TrailingDead(items) == |items| - a
    decreases |items|
  {
    if |items| > a {
      TrailingDeadRun(items[..|items| - 1], a);
    }
  }
}
