/** A binary-heap priority queue with an injected ordering (priority_queue.go).

    The heap lives in a 1-indexed slice `items`: slot 0 always holds `Nil`, the entries occupy
    slots 1..itemCount, and the parent of slot k is slot k / 2. The comparator says when its
    left argument is worse than its right one (`Maximum` is `<`, `Minimum` is `>`), so the heap
    order is: no parent is worse than its child. The `swim` and `sink` loops are proved against
    the recursive functions `Swim` and `Sink`, whose heap-repair properties are proved as
    lemmas. */
module PriorityQueues {

  /** A slot of `items`: `Nil` (slot 0) or a reference to a (value, priority) entry. */
  datatype Slot<T, P> = Nil | Item(value: T, priority: P)

  /** What heap correctness needs of the comparator. */
  ghost predicate StrictTotalOrder<P(!new)>(cmp: (P, P) -> bool)
  {
    && (forall x :: !cmp(x, x))
    && (forall x, y, z :: cmp(x, y) && cmp(y, z) ==> cmp(x, z))
    && (forall x, y :: x != y ==> cmp(x, y) || cmp(y, x))
  }

  lemma Asymmetric<P(!new)>(cmp: (P, P) -> bool, a: P, b: P)
    requires StrictTotalOrder(cmp) && cmp(a, b)
    ensures !cmp(b, a)
  {
  }

  /** "Not worse than" is transitive for a strict total order. */
  lemma NotWorseTransitive<P(!new)>(cmp: (P, P) -> bool, a: P, b: P, c: P)
    requires StrictTotalOrder(cmp) && !cmp(a, b) && !cmp(b, c)
    ensures !cmp(a, c)
  {
  }

  /** `Minimum`: the root holds the least priority; an entry is worse than another when its
      priority is greater. */
  function Minimum(lhs: int, rhs: int): (worse: bool)
    ensures worse ==> lhs != rhs
    ensures lhs != rhs ==> worse || rhs > lhs
    ensures rhs > lhs ==> !worse
  {
    lhs > rhs
  }

  /** `Maximum`: the root holds the greatest priority; it is `Minimum` with its arguments
      swapped. */
  function Maximum(lhs: int, rhs: int): (worse: bool)
    ensures worse == Minimum(rhs, lhs)
  {
    lhs < rhs
  }

  lemma MaximumIsStrictTotalOrder()
    ensures StrictTotalOrder(Maximum)
  {
  }

  lemma MinimumIsStrictTotalOrder()
    ensures StrictTotalOrder(Minimum)
  {
  }

  /** The slot layout: `Nil` at 0, an entry everywhere else. */
  ghost predicate WellFormed<T, P>(s: seq<Slot<T, P>>)
  {
    |s| >= 1 && s[0].Nil? && forall k :: 1 <= k < |s| ==> s[k].Item?
  }

  /** No parent is worse than its child. */
  ghost predicate HeapOrdered<T, P>(cmp: (P, P) -> bool, s: seq<Slot<T, P>>)
    requires WellFormed(s)
  {
    forall k :: 2 <= k < |s| ==> !cmp(s[k / 2].priority, s[k].priority)
  }

  /** The state `swim` works on: ordered except possibly between k and its parent, and k's
      parent is not worse than k's children. */
  ghost predicate HeapExceptUp<T, P>(cmp: (P, P) -> bool, s: seq<Slot<T, P>>, k: nat)
    requires WellFormed(s) && 1 <= k < |s|
  {
    && (forall j :: 2 <= j < |s| && j != k ==> !cmp(s[j / 2].priority, s[j].priority))
    && (k > 1 ==> forall j :: 2 <= j < |s| && j / 2 == k ==> !cmp(s[k / 2].priority, s[j].priority))
  }

  /** The state `sink` works on: ordered except possibly between k and its children, and k's
      parent is not worse than k's children. */
  ghost predicate HeapExceptDown<T, P>(cmp: (P, P) -> bool, s: seq<Slot<T, P>>, k: nat)
    requires WellFormed(s) && 1 <= k
  {
    && (forall j :: 2 <= j < |s| && j / 2 != k ==> !cmp(s[j / 2].priority, s[j].priority))
    && (1 < k < |s| ==> forall j :: 2 <= j < |s| && j / 2 == k ==> !cmp(s[k / 2].priority, s[j].priority))
  }

  /** `exch`: the entries at i and j trade places; nothing else moves. */
  function Exch<T, P>(s: seq<Slot<T, P>>, i: nat, j: nat): (r: seq<Slot<T, P>>)
    requires i < |s| && j < |s|
    ensures |r| == |s| && r[i] == s[j] && r[j] == s[i]
    ensures forall k :: 0 <= k < |s| && k != i && k != j ==> r[k] == s[k]
  {
    s[i := s[j]][j := s[i]]
  }

  /** An exchange only permutes the slots. */
  lemma ExchPermutes<T, P>(s: seq<Slot<T, P>>, i: nat, j: nat)
    requires i < |s| && j < |s|
    ensures multiset(Exch(s, i, j)) == multiset(s)
  {
    var t := s[i := s[j]];
    assert multiset(t) == multiset(s) - multiset{s[i]} + multiset{s[j]};
  }

  /** `swim`: while k is below the root and its parent is worse, swap them and go up. */
  ghost function Swim<T, P>(cmp: (P, P) -> bool, s: seq<Slot<T, P>>, k: nat): (r: seq<Slot<T, P>>)
    requires WellFormed(s) && 1 <= k < |s|
    decreases k
  {
    if k > 1 && cmp(s[k / 2].priority, s[k].priority) then Swim(cmp, Exch(s, k / 2, k), k / 2)
    else s
  }

  /** The child `sink` compares k with: the right child only when it is strictly better. */
  ghost function BetterChild<T, P>(cmp: (P, P) -> bool, s: seq<Slot<T, P>>, k: nat): (j: nat)
    requires WellFormed(s) && 1 <= k && 2 * k < |s|
    ensures j == 2 * k || j == 2 * k + 1
    ensures j < |s|
  {
    if 2 * k + 1 < |s| && cmp(s[2 * k].priority, s[2 * k + 1].priority) then 2 * k + 1 else 2 * k
  }

  /** `sink`: while k has a child and the better child beats it, swap them and go down. */
  ghost function Sink<T, P>(cmp: (P, P) -> bool, s: seq<Slot<T, P>>, k: nat): (r: seq<Slot<T, P>>)
    requires WellFormed(s) && 1 <= k
    decreases |s| - k
  {
    if 2 * k < |s| then
      var j := BetterChild(cmp, s, k);
      if cmp(s[k].priority, s[j].priority) then Sink(cmp, Exch(s, k, j), j) else s
    else s
  }

  /** The slots after Push: the entry appended, then swum up from the last slot. */
  ghost function PushSpec<T, P>(cmp: (P, P) -> bool, s: seq<Slot<T, P>>, value: T, priority: P): (r: seq<Slot<T, P>>)
    requires WellFormed(s)
  {
    Swim(cmp, s + [Item(value, priority)], |s|)
  }

  /** The slots after a Pop of a non-empty heap: root and last entry exchanged, the slice
      truncated by one, then the new root sunk. */
  ghost function PopSpec<T, P>(cmp: (P, P) -> bool, s: seq<Slot<T, P>>): (r: seq<Slot<T, P>>)
    requires WellFormed(s) && |s| >= 2
  {
    Sink(cmp, Exch(s, 1, |s| - 1)[..|s| - 1], 1)
  }

  /** Swimming only permutes the slots: slot 0 stays `Nil` and the entries are the same. */
  lemma {:induction false} SwimPermutes<T, P>(cmp: (P, P) -> bool, s: seq<Slot<T, P>>, k: nat)
    requires WellFormed(s) && 1 <= k < |s|
    ensures WellFormed(Swim(cmp, s, k)) && |Swim(cmp, s, k)| == |s|
    ensures multiset(Swim(cmp, s, k)) == multiset(s)
    decreases k
  {
    if k > 1 && cmp(s[k / 2].priority, s[k].priority) {
      ExchPermutes(s, k / 2, k);
      SwimPermutes(cmp, Exch(s, k / 2, k), k / 2);
    }
  }

  /** Sinking only permutes the slots: slot 0 stays `Nil` and the entries are the same. */
  lemma {:induction false} SinkPermutes<T, P>(cmp: (P, P) -> bool, s: seq<Slot<T, P>>, k: nat)
    requires WellFormed(s) && 1 <= k
    ensures WellFormed(Sink(cmp, s, k)) && |Sink(cmp, s, k)| == |s|
    ensures multiset(Sink(cmp, s, k)) == multiset(s)
    decreases |s| - k
  {
    if 2 * k < |s| {
      var j := BetterChild(cmp, s, k);
      if cmp(s[k].priority, s[j].priority) {
        ExchPermutes(s, k, j);
        SinkPermutes(cmp, Exch(s, k, j), j);
      }
    }
  }

  /** Swimming from k repairs a heap whose only fault is between k and its parent. */
  lemma {:induction false} SwimRestoresOrder<T, P(!new)>(cmp: (P, P) -> bool, s: seq<Slot<T, P>>, k: nat)
    requires WellFormed(s) && 1 <= k < |s| && StrictTotalOrder(cmp)
    requires HeapExceptUp(cmp, s, k)
    ensures WellFormed(Swim(cmp, s, k)) && HeapOrdered(cmp, Swim(cmp, s, k))
    decreases k
  {
    SwimPermutes(cmp, s, k);
    if k > 1 && cmp(s[k / 2].priority, s[k].priority) {
      var p := k / 2;
      var s' := Exch(s, p, k);
      forall j | 2 <= j < |s'| && j != p
        ensures !cmp(s'[j / 2].priority, s'[j].priority)
      {
        if j == k {
          Asymmetric(cmp, s[p].priority, s[k].priority);
        }
      }
      if p > 1 {
        forall j | 2 <= j < |s'| && j / 2 == p
          ensures !cmp(s'[p / 2].priority, s'[j].priority)
        {
          if j != k {
            NotWorseTransitive(cmp, s[p / 2].priority, s[p].priority, s[j].priority);
          }
        }
      }
      SwimRestoresOrder(cmp, s', p);
    }
  }

  /** The child `sink` picks is not worse than any child of k. */
  lemma BetterChildWins<T, P(!new)>(cmp: (P, P) -> bool, s: seq<Slot<T, P>>, k: nat, j: nat)
    requires WellFormed(s) && 1 <= k && 2 * k < |s| && StrictTotalOrder(cmp)
    requires j == BetterChild(cmp, s, k)
    ensures forall o :: 2 <= o < |s| && o / 2 == k ==> !cmp(s[j].priority, s[o].priority)
  {
    forall o | 2 <= o < |s| && o / 2 == k
      ensures !cmp(s[j].priority, s[o].priority)
    {
      if o != j && j == 2 * k + 1 {
        Asymmetric(cmp, s[2 * k].priority, s[2 * k + 1].priority);
      }
    }
  }

  /** Exchanging k with its better child when that child beats it moves the only fault
      down to the child's slot. */
  lemma SinkStepMovesFault<T, P(!new)>(cmp: (P, P) -> bool, s: seq<Slot<T, P>>, k: nat, j: nat)
    requires WellFormed(s) && 1 <= k && StrictTotalOrder(cmp) && HeapExceptDown(cmp, s, k)
    requires 2 * k < |s| && j == BetterChild(cmp, s, k) && cmp(s[k].priority, s[j].priority)
    requires forall o :: 2 <= o < |s| && o / 2 == k ==> !cmp(s[j].priority, s[o].priority)
    ensures WellFormed(Exch(s, k, j)) && HeapExceptDown(cmp, Exch(s, k, j), j)
  {
    var s' := Exch(s, k, j);
    forall i | 2 <= i < |s'| && i / 2 != j
      ensures !cmp(s'[i / 2].priority, s'[i].priority)
    {
      if i == j {
        Asymmetric(cmp, s[k].priority, s[j].priority);
      }
    }
    forall i | 2 <= i < |s'| && i / 2 == j
      ensures !cmp(s'[j / 2].priority, s'[i].priority)
    {
    }
  }

  /** When no child beats k, the only possible fault is absent. */
  lemma SinkStopIsOrdered<T, P(!new)>(cmp: (P, P) -> bool, s: seq<Slot<T, P>>, k: nat, j: nat)
    requires WellFormed(s) && 1 <= k && StrictTotalOrder(cmp) && HeapExceptDown(cmp, s, k)
    requires 2 * k <= j < |s| && !cmp(s[k].priority, s[j].priority)
    requires forall o :: 2 <= o < |s| && o / 2 == k ==> !cmp(s[j].priority, s[o].priority)
    ensures HeapOrdered(cmp, s)
  {
    forall o | 2 <= o < |s| && o / 2 == k
      ensures !cmp(s[k].priority, s[o].priority)
    {
      NotWorseTransitive(cmp, s[k].priority, s[j].priority, s[o].priority);
    }
  }

  /** Sinking from k repairs a heap whose only fault is between k and its children. */
  lemma {:induction false} SinkRestoresOrder<T, P(!new)>(cmp: (P, P) -> bool, s: seq<Slot<T, P>>, k: nat)
    requires WellFormed(s) && 1 <= k && StrictTotalOrder(cmp)
    requires HeapExceptDown(cmp, s, k)
    ensures WellFormed(Sink(cmp, s, k)) && HeapOrdered(cmp, Sink(cmp, s, k))
    decreases |s| - k
  {
    SinkPermutes(cmp, s, k);
    if 2 * k < |s| {
      var j := BetterChild(cmp, s, k);
      BetterChildWins(cmp, s, k, j);
      if cmp(s[k].priority, s[j].priority) {
        SinkStepMovesFault(cmp, s, k, j);
        SinkRestoresOrder(cmp, Exch(s, k, j), j);
      } else {
        SinkStopIsOrdered(cmp, s, k, j);
      }
    }
  }

  /** In a heap no entry beats the root: the root is the greatest entry under `Maximum` and the
      least under `Minimum`. */
  lemma {:induction false} RootIsExtremal<T, P(!new)>(cmp: (P, P) -> bool, s: seq<Slot<T, P>>, k: nat)
    requires WellFormed(s) && StrictTotalOrder(cmp) && HeapOrdered(cmp, s) && 1 <= k < |s|
    ensures !cmp(s[1].priority, s[k].priority)
    decreases k
  {
    if k > 1 {
      RootIsExtremal(cmp, s, k / 2);
      NotWorseTransitive(cmp, s[1].priority, s[k / 2].priority, s[k].priority);
    }
  }

  /** Push keeps the heap order and adds exactly the new entry. */
  lemma PushKeepsHeap<T, P(!new)>(cmp: (P, P) -> bool, s: seq<Slot<T, P>>, value: T, priority: P)
    requires WellFormed(s) && StrictTotalOrder(cmp) && HeapOrdered(cmp, s)
    ensures WellFormed(PushSpec(cmp, s, value, priority))
    ensures HeapOrdered(cmp, PushSpec(cmp, s, value, priority))
    ensures |PushSpec(cmp, s, value, priority)| == |s| + 1
    ensures multiset(PushSpec(cmp, s, value, priority)) == multiset(s) + multiset{Item(value, priority)}
  {
    SwimRestoresOrder(cmp, s + [Item(value, priority)], |s|);
    SwimPermutes(cmp, s + [Item(value, priority)], |s|);
  }

  /** Pop keeps the heap order and removes exactly the root entry, which no remaining entry
      beats. */
  lemma PopKeepsHeap<T, P(!new)>(cmp: (P, P) -> bool, s: seq<Slot<T, P>>)
    requires WellFormed(s) && |s| >= 2 && StrictTotalOrder(cmp) && HeapOrdered(cmp, s)
    ensures WellFormed(PopSpec(cmp, s)) && HeapOrdered(cmp, PopSpec(cmp, s))
    ensures |PopSpec(cmp, s)| == |s| - 1
    ensures multiset(PopSpec(cmp, s)) + multiset{s[1]} == multiset(s)
    ensures forall k :: 1 <= k < |s| - 1 ==> !cmp(s[1].priority, PopSpec(cmp, s)[k].priority)
  {
    var n := |s| - 1;
    var t := Exch(s, 1, n);
    assert t == t[..n] + [t[n]];
    ExchPermutes(s, 1, n);
    SinkRestoresOrder(cmp, t[..n], 1);
    SinkPermutes(cmp, t[..n], 1);
    var r := PopSpec(cmp, s);
    forall k | 1 <= k < n
      ensures !cmp(s[1].priority, r[k].priority)
    {
      assert r[k] in multiset(r);
      var m :| 0 <= m < |s| && s[m] == r[k];
      RootIsExtremal(cmp, s, m);
    }
  }

  class PriorityQueue<T(0), P(0, !new)> {
    var items: seq<Slot<T, P>>
    var itemCount: nat
    const comparator: (P, P) -> bool
    /** Go's zero values of `T` and `P`: what Pop and Head return on an empty queue. */
    const zeroValue: T
    const zeroPriority: P

    ghost predicate Valid()
      reads this
    {
      && WellFormed(items) && |items| == itemCount + 1
      && StrictTotalOrder(comparator) && HeapOrdered(comparator, items)
    }

    /** NewPriorityQueue: only the unused slot 0, no entries. */
    constructor (heuristic: (P, P) -> bool)
      requires StrictTotalOrder(heuristic)
      ensures Valid() && items == [Nil] && itemCount == 0 && comparator == heuristic
    {
      var v: T := *;
      var p: P := *;
      items, itemCount, comparator := [Nil], 0, heuristic;
      zeroValue, zeroPriority := v, p;
    }

    /** `less`: whether the entry at `lhs` is worse than the one at `rhs`. */
    function less(lhs: nat, rhs: nat): (worse: bool)
      reads this
      requires WellFormed(items) && 1 <= lhs < |items| && 1 <= rhs < |items|
      ensures HeapOrdered(comparator, items) && 2 <= rhs && lhs == rhs / 2 ==> !worse
      ensures StrictTotalOrder(comparator) && worse ==> !comparator(items[rhs].priority, items[lhs].priority)
    {
      comparator(items[lhs].priority, items[rhs].priority)
    }

    /** `exch`: swaps two slots and nothing else. */
    method exch(lhs: nat, rhs: nat)
      requires lhs < |items| && rhs < |items|
      modifies this
      ensures items == Exch(old(items), lhs, rhs) && itemCount == old(itemCount)
    {
      items := items[lhs := items[rhs]][rhs := items[lhs]];
    }

    method swim(k0: nat)
      requires WellFormed(items) && 1 <= k0 < |items|
      modifies this
      ensures items == Swim(comparator, old(items), k0) && itemCount == old(itemCount)
    {
      var k := k0;
      while k > 1 && less(k / 2, k)
        invariant WellFormed(items) && 1 <= k < |items| && itemCount == old(itemCount)
        invariant Swim(comparator, items, k) == Swim(comparator, old(items), k0)
        decreases k
      {
        exch(k / 2, k);
        k := k / 2;
      }
    }

    method sink(k0: nat)
      requires WellFormed(items) && |items| == itemCount + 1 && 1 <= k0
      modifies this
      ensures items == Sink(comparator, old(items), k0) && itemCount == old(itemCount)
    {
      var k := k0;
      ghost var target := Sink(comparator, items, k0);
      while 2 * k <= itemCount
        invariant WellFormed(items) && |items| == itemCount + 1 && 1 <= k
        invariant itemCount == old(itemCount)
        invariant Sink(comparator, items, k) == target
        decreases itemCount - k
      {
        var j := 2 * k;
        ghost var better := BetterChild(comparator, items, k);
        if j < itemCount && less(j, j + 1) {
          j := j + 1;
          assert better == j;
        } else {
          assert better == j;
        }
        if !less(k, j) {
          assert Sink(comparator, items, k) == items;
          break;
        }
        assert Sink(comparator, items, k) == Sink(comparator, Exch(items, k, j), j);
        exch(k, j);
        k := j;
      }
      assert 2 * k < |items| || Sink(comparator, items, k) == items;
    }

    /** Push: appends the entry and swims it up. */
    method Push(value: T, priority: P)
      requires Valid()
      modifies this
      ensures Valid()
      ensures items == PushSpec(comparator, old(items), value, priority)
      ensures itemCount == old(itemCount) + 1
      ensures multiset(items) == multiset(old(items)) + multiset{Item(value, priority)}
    {
      PushKeepsHeap(comparator, items, value, priority);
      items := items + [Item(value, priority)];
      itemCount := itemCount + 1;
      swim(itemCount);
    }

    /** Pop: fails on an empty queue; otherwise removes and returns the root entry. */
    method Pop() returns (value: T, priority: P, ok: bool)
      requires Valid()
      modifies this
      ensures Valid()
      ensures ok <==> old(itemCount) > 0
      ensures !ok ==> value == zeroValue && priority == zeroPriority
                      && items == old(items) && itemCount == old(itemCount)
      ensures ok ==> old(items)[1] == Item(value, priority)
                     && items == PopSpec(comparator, old(items))
                     && itemCount == old(itemCount) - 1
      ensures ok ==> multiset(items) + multiset{Item(value, priority)} == multiset(old(items))
      ensures ok ==> forall k :: 1 <= k < |items| ==> !comparator(priority, items[k].priority)
    {
      if itemCount < 1 {
        return zeroValue, zeroPriority, false;
      }
      PopKeepsHeap(comparator, items);
      var max := items[1];
      exch(1, itemCount);
      items := items[0..itemCount];
      itemCount := itemCount - 1;
      sink(1);
      value, priority, ok := max.value, max.priority, true;
    }

    /** Head: what Pop would return, without changing anything. */
    method Head() returns (value: T, priority: P, ok: bool)
      requires Valid()
      ensures ok <==> itemCount > 0
      ensures !ok ==> value == zeroValue && priority == zeroPriority
      ensures ok ==> items[1] == Item(value, priority)
      ensures ok ==> forall k :: 1 <= k < |items| ==> !comparator(priority, items[k].priority)
    {
      if itemCount < 1 {
        return zeroValue, zeroPriority, false;
      }
      forall k | 1 <= k < |items|
        ensures !comparator(items[1].priority, items[k].priority)
      {
        RootIsExtremal(comparator, items, k);
      }
      value, priority, ok := items[1].value, items[1].priority, true;
    }

    /** Size: the entries are the slots after the unused slot 0. */
    function Size(): (n: nat)
      reads this
      requires Valid()
      ensures n == |items| - 1
    {
      itemCount
    }

    function Empty(): (b: bool)
      reads this
      requires Valid()
      ensures b <==> items == [Nil]
    {
      itemCount == 0
    }
  }

  /** NewMaxPriorityQueue, with integer priorities. */
  method NewMaxPriorityQueue<T(0)>() returns (pq: PriorityQueue<T, int>)
    ensures fresh(pq) && pq.Valid() && pq.items == [Nil] && pq.comparator == Maximum
  {
    MaximumIsStrictTotalOrder();
    pq := new PriorityQueue(Maximum);
  }

  /** NewMinPriorityQueue, with integer priorities. */
  method NewMinPriorityQueue<T(0)>() returns (pq: PriorityQueue<T, int>)
    ensures fresh(pq) && pq.Valid() && pq.items == [Nil] && pq.comparator == Minimum
  {
    MinimumIsStrictTotalOrder();
    pq := new PriorityQueue(Minimum);
  }

  /** The first push and the last pop, under any comparator. */
  lemma PushOntoEmpty<T, P>(cmp: (P, P) -> bool, value: T, priority: P)
    ensures PushSpec(cmp, [Nil], value, priority) == [Nil, Item(value, priority)]
  {
    var s: seq<Slot<T, P>> := [Nil, Item(value, priority)];
    assert [Nil] + [Item(value, priority)] == s;
  }

  lemma PopLastEntry<T, P>(cmp: (P, P) -> bool, x: Slot<T, P>)
    requires x.Item?
    ensures PopSpec(cmp, [Nil, x]) == [Nil]
  {
    var s: seq<Slot<T, P>> := [Nil, x];
    assert Exch(s, 1, 1)[..1] == [Nil];
  }

  /** Single Push and Pop steps of the scenarios below, one slot layout each. */
  lemma MaximumPushSecond(a: string, b: string)
    ensures PushSpec(Maximum, [Nil, Item(a, 1)], b, 2) == [Nil, Item(b, 2), Item(a, 1)]
  {
    var s: seq<Slot<string, int>> := [Nil, Item(a, 1), Item(b, 2)];
    assert [Nil, Item(a, 1)] + [Item(b, 2)] == s;
    assert WellFormed(s) by { assert s[1].Item? && s[2].Item?; }
    var e := Exch(s, 1, 2);
    assert e == [Nil, Item(b, 2), Item(a, 1)];
    assert Swim(Maximum, s, 2) == Swim(Maximum, e, 1);
  }

  lemma MaximumPushThird(a: string, b: string, c: string)
    ensures PushSpec(Maximum, [Nil, Item(b, 2), Item(a, 1)], c, 3) == [Nil, Item(c, 3), Item(a, 1), Item(b, 2)]
  {
    var s: seq<Slot<string, int>> := [Nil, Item(b, 2), Item(a, 1), Item(c, 3)];
    assert [Nil, Item(b, 2), Item(a, 1)] + [Item(c, 3)] == s;
    assert WellFormed(s) by { assert s[1].Item? && s[2].Item? && s[3].Item?; }
    var e := Exch(s, 1, 3);
    assert e == [Nil, Item(c, 3), Item(a, 1), Item(b, 2)];
    assert Swim(Maximum, s, 3) == Swim(Maximum, e, 1);
  }

  lemma MaximumPopFirst(a: string, b: string, c: string)
    ensures PopSpec(Maximum, [Nil, Item(c, 3), Item(a, 1), Item(b, 2)]) == [Nil, Item(b, 2), Item(a, 1)]
  {
    var t: seq<Slot<string, int>> := [Nil, Item(c, 3), Item(a, 1), Item(b, 2)];
    var u := Exch(t, 1, 3)[..3];
    assert u == [Nil, Item(b, 2), Item(a, 1)];
    assert WellFormed(u) by { assert u[1].Item? && u[2].Item?; }
    assert BetterChild(Maximum, u, 1) == 2;
  }

  lemma MaximumPopSecond(a: string, b: string)
    ensures PopSpec(Maximum, [Nil, Item(b, 2), Item(a, 1)]) == [Nil, Item(a, 1)]
  {
    var t: seq<Slot<string, int>> := [Nil, Item(b, 2), Item(a, 1)];
    var u := Exch(t, 1, 2)[..2];
    assert u == [Nil, Item(a, 1)];
    assert WellFormed(u) by { assert u[1].Item?; }
  }

  lemma MinimumPushSecond(a: string, b: string)
    ensures PushSpec(Minimum, [Nil, Item(a, 1)], b, 2) == [Nil, Item(a, 1), Item(b, 2)]
  {
    var s: seq<Slot<string, int>> := [Nil, Item(a, 1), Item(b, 2)];
    assert [Nil, Item(a, 1)] + [Item(b, 2)] == s;
    assert WellFormed(s) by { assert s[1].Item? && s[2].Item?; }
    assert Swim(Minimum, s, 2) == s;
  }

  lemma MinimumPushThird(a: string, b: string, c: string)
    ensures PushSpec(Minimum, [Nil, Item(a, 1), Item(b, 2)], c, 3) == [Nil, Item(a, 1), Item(b, 2), Item(c, 3)]
  {
    var s: seq<Slot<string, int>> := [Nil, Item(a, 1), Item(b, 2), Item(c, 3)];
    assert [Nil, Item(a, 1), Item(b, 2)] + [Item(c, 3)] == s;
    assert WellFormed(s) by { assert s[1].Item? && s[2].Item? && s[3].Item?; }
    assert Swim(Minimum, s, 3) == s;
  }

  lemma MinimumSinkRoot(b: string, c: string)
    ensures Sink(Minimum, [Nil, Item(c, 3), Item(b, 2)], 1) == [Nil, Item(b, 2), Item(c, 3)]
  {
    var u: seq<Slot<string, int>> := [Nil, Item(c, 3), Item(b, 2)];
    assert WellFormed(u) by { assert u[1].Item? && u[2].Item?; }
    assert BetterChild(Minimum, u, 1) == 2;
    var e := Exch(u, 1, 2);
    assert e == [Nil, Item(b, 2), Item(c, 3)];
    assert Sink(Minimum, e, 2) == e;
  }

  lemma MinimumPopFirst(a: string, b: string, c: string)
    ensures PopSpec(Minimum, [Nil, Item(a, 1), Item(b, 2), Item(c, 3)]) == [Nil, Item(b, 2), Item(c, 3)]
  {
    var t: seq<Slot<string, int>> := [Nil, Item(a, 1), Item(b, 2), Item(c, 3)];
    assert Exch(t, 1, 3)[..3] == [Nil, Item(c, 3), Item(b, 2)];
    MinimumSinkRoot(b, c);
  }

  lemma MinimumPopSecond(b: string, c: string)
    ensures PopSpec(Minimum, [Nil, Item(b, 2), Item(c, 3)]) == [Nil, Item(c, 3)]
  {
    var t: seq<Slot<string, int>> := [Nil, Item(b, 2), Item(c, 3)];
    var u := Exch(t, 1, 2)[..2];
    assert u == [Nil, Item(c, 3)];
    assert WellFormed(u) by { assert u[1].Item?; }
  }

  /** The slot layouts that pushing priorities 1, 2, 3 in that order produces under
      Maximum, whatever the values, and what each following Pop leaves. */
  lemma MaximumLayouts(a: string, b: string, c: string)
    ensures PushSpec(Maximum, [Nil], a, 1) == [Nil, Item(a, 1)]
    ensures PushSpec(Maximum, [Nil, Item(a, 1)], b, 2) == [Nil, Item(b, 2), Item(a, 1)]
    ensures PushSpec(Maximum, [Nil, Item(b, 2), Item(a, 1)], c, 3) == [Nil, Item(c, 3), Item(a, 1), Item(b, 2)]
    ensures PopSpec(Maximum, [Nil, Item(c, 3), Item(a, 1), Item(b, 2)]) == [Nil, Item(b, 2), Item(a, 1)]
    ensures PopSpec(Maximum, [Nil, Item(b, 2), Item(a, 1)]) == [Nil, Item(a, 1)]
    ensures PopSpec(Maximum, [Nil, Item(a, 1)]) == [Nil]
  {
    PushOntoEmpty(Maximum, a, 1);
    MaximumPushSecond(a, b);
    MaximumPushThird(a, b, c);
    MaximumPopFirst(a, b, c);
    MaximumPopSecond(a, b);
    PopLastEntry(Maximum, Item(a, 1));
  }

  /** The same pushes and pops under Minimum. */
  lemma MinimumLayouts(a: string, b: string, c: string)
    ensures PushSpec(Minimum, [Nil], a, 1) == [Nil, Item(a, 1)]
    ensures PushSpec(Minimum, [Nil, Item(a, 1)], b, 2) == [Nil, Item(a, 1), Item(b, 2)]
    ensures PushSpec(Minimum, [Nil, Item(a, 1), Item(b, 2)], c, 3) == [Nil, Item(a, 1), Item(b, 2), Item(c, 3)]
    ensures PopSpec(Minimum, [Nil, Item(a, 1), Item(b, 2), Item(c, 3)]) == [Nil, Item(b, 2), Item(c, 3)]
    ensures PopSpec(Minimum, [Nil, Item(b, 2), Item(c, 3)]) == [Nil, Item(c, 3)]
    ensures PopSpec(Minimum, [Nil, Item(c, 3)]) == [Nil]
  {
    PushOntoEmpty(Minimum, a, 1);
    MinimumPushSecond(a, b);
    MinimumPushThird(a, b, c);
    MinimumPopFirst(a, b, c);
    MinimumPopSecond(b, c);
    PopLastEntry(Minimum, Item(c, 3));
  }

  /** Pushing (a,1), (b,2), (c,3) lays the slots out as [nil, c3, a1, b2] under Maximum and
      as [nil, a1, b2, c3] under Minimum. */
  method PushLayoutScenario() returns (maxItems: seq<Slot<string, int>>, minItems: seq<Slot<string, int>>)
    ensures maxItems == [Nil, Item("c", 3), Item("a", 1), Item("b", 2)]
    ensures minItems == [Nil, Item("a", 1), Item("b", 2), Item("c", 3)]
  {
    MaximumLayouts("a", "b", "c");
    MinimumLayouts("a", "b", "c");
    var mx := NewMaxPriorityQueue<string>();
    mx.Push("a", 1);
    mx.Push("b", 2);
    mx.Push("c", 3);
    maxItems := mx.items;
    var mn := NewMinPriorityQueue<string>();
    mn.Push("a", 1);
    mn.Push("b", 2);
    mn.Push("c", 3);
    minItems := mn.items;
  }

  /** One Pop after those pushes returns (c,3) and leaves [nil, b2, a1] under Maximum, and
      returns (a,1) and leaves [nil, b2, c3] under Minimum. */
  method PopLayoutScenario()
    returns (maxTop: Slot<string, int>, maxItems: seq<Slot<string, int>>,
             minTop: Slot<string, int>, minItems: seq<Slot<string, int>>)
    ensures maxTop == Item("c", 3) && maxItems == [Nil, Item("b", 2), Item("a", 1)]
    ensures minTop == Item("a", 1) && minItems == [Nil, Item("b", 2), Item("c", 3)]
  {
    MaximumLayouts("a", "b", "c");
    MinimumLayouts("a", "b", "c");
    var mx := NewMaxPriorityQueue<string>();
    mx.Push("a", 1);
    mx.Push("b", 2);
    mx.Push("c", 3);
    var v, p, ok := mx.Pop();
    maxTop, maxItems := Item(v, p), mx.items;
    var mn := NewMinPriorityQueue<string>();
    mn.Push("a", 1);
    mn.Push("b", 2);
    mn.Push("c", 3);
    v, p, ok := mn.Pop();
    minTop, minItems := Item(v, p), mn.items;
  }

  /** Pop and Head on an empty queue fail and leave the slots as [nil]. */
  method EmptyScenario() returns (popOk: bool, headOk: bool, items: seq<Slot<string, int>>)
    ensures !popOk && !headOk && items == [Nil]
  {
    var pq := NewMaxPriorityQueue<string>();
    var v, p;
    v, p, popOk := pq.Pop();
    v, p, headOk := pq.Head();
    items := pq.items;
  }
}
