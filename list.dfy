/** The sentinel doubly linked list.

    The list's elements live in an arena owned by the list: slot 0 is the embedded `root`
    sentinel and every other slot is an element this list has created, live or detached.
    The fields `next`, `prev`, `owned` (an element's `list` back-link points at this list)
    and `value` are indexed by slot; the ghost sequence `Elems` lists the live elements from
    front to back. `Ring` ties the two views together, and every operation is proved to
    perform a plain edit of `Elems`. */
module Lists {

  /** A link to an element of the arena; `Ref(0)` is the root sentinel. */
  datatype Ptr = Nil | Ref(id: nat)

  /** The slot at position i of the ring, with the root standing before the first element and
      after the last. */
  function At(es: seq<nat>, i: int): (x: nat)
  {
    if 0 <= i < |es| then es[i] else 0
  }

  /** No element occurs twice in es. */
  ghost predicate Distinct(es: seq<nat>)
    decreases |es|
  {
    |es| == 0 || (es[0] !in es[1..] && Distinct(es[1..]))
  }

  /** Distinct, stated on pairs of positions. */
  lemma {:induction false} DistinctPairs(es: seq<nat>)
    ensures Distinct(es) <==> forall i, j :: 0 <= i < j < |es| ==> es[i] != es[j]
    decreases |es|
  {
    if |es| > 0 {
      var t := es[1..];
      DistinctPairs(t);
      if Distinct(es) {
        forall i, j | 0 <= i < j < |es|
          ensures es[i] != es[j]
        {
          assert es[j] == t[j - 1];
          if i > 0 {
            assert es[i] == t[i - 1];
          }
        }
      }
      if forall i, j :: 0 <= i < j < |es| ==> es[i] != es[j] {
        forall m | 0 <= m < |t|
          ensures t[m] != es[0]
        {
          assert t[m] == es[m + 1];
        }
        forall i, j | 0 <= i < j < |t|
          ensures t[i] != t[j]
        {
          assert t[i] == es[i + 1] && t[j] == es[j + 1];
        }
      }
    }
  }

  /** The element at position i of es points forward at its successor and back at its
      predecessor, the root closing both ends. */
  ghost predicate LinkedAt(nx: seq<Ptr>, pv: seq<Ptr>, es: seq<nat>, i: nat)
    requires i < |es|
  {
    0 < es[i] < |nx| && es[i] < |pv| && nx[es[i]] == Ref(At(es, i + 1)) && pv[es[i]] == Ref(At(es, i - 1))
  }

  /** The links close a ring through the root that visits the elements of `es` in order. */
  ghost predicate Ring(nx: seq<Ptr>, pv: seq<Ptr>, es: seq<nat>)
  {
    && |nx| == |pv| >= 1
    && Distinct(es)
    && nx[0] == Ref(At(es, 0)) && pv[0] == Ref(At(es, |es| - 1))
    && (forall i :: 0 <= i < |es| ==> 0 < es[i] < |nx|)
    && (forall i :: 0 <= i < |es| ==> LinkedAt(nx, pv, es, i))
  }

  /** The position of x in es: its first occurrence. */
  ghost function Pos(es: seq<nat>, x: nat): (i: nat)
    requires x in es
    ensures i < |es| && es[i] == x && forall j :: 0 <= j < i ==> es[j] != x
  {
    if es[0] == x then 0 else 1 + Pos(es[1..], x)
  }

  /** In a list without repeats, the element at position k is found at position k. */
  lemma {:induction false} PosOfIndex(es: seq<nat>, k: nat)
    requires Distinct(es) && k < |es|
    ensures Pos(es, es[k]) == k
    decreases k
  {
    if k > 0 {
      assert es[k] == es[1..][k - 1];
      PosOfIndex(es[1..], k - 1);
    }
  }

  /** es with every occurrence of x taken out, the rest in their order. */
  ghost function Without(es: seq<nat>, x: nat): (r: seq<nat>)
    ensures forall y :: y in r <==> y in es && y != x
    ensures |r| <= |es|
  {
    if es == [] then []
    else if es[0] == x then Without(es[1..], x)
    else [es[0]] + Without(es[1..], x)
  }

  /** In a list without repeats, taking out the element at position k closes the gap. */
  lemma {:induction false} WithoutAt(es: seq<nat>, k: nat)
    requires Distinct(es) && k < |es|
    ensures Without(es, es[k]) == es[..k] + es[k + 1..]
    decreases k
  {
    if k == 0 {
      NotPresent(es[1..], es[0]);
    } else {
      WithoutAt(es[1..], k - 1);
      assert es[1..][k - 1] == es[k];
      assert es[1..][..k - 1] + es[1..][k..] == es[1..k] + es[k + 1..];
      assert es[..k] + es[k + 1..] == [es[0]] + (es[1..k] + es[k + 1..]);
    }
  }

  lemma {:induction false} NotPresent(es: seq<nat>, x: nat)
    requires x !in es
    ensures Without(es, x) == es
    decreases |es|
  {
    if es != [] {
      NotPresent(es[1..], x);
      assert es == [es[0]] + es[1..];
    }
  }

  lemma DistinctWithout(es: seq<nat>, k: nat)
    requires Distinct(es) && k < |es|
    ensures Distinct(Without(es, es[k])) && |Without(es, es[k])| == |es| - 1
  {
    WithoutAt(es, k);
    DistinctPairs(es);
    var w := es[..k] + es[k + 1..];
    forall i, j | 0 <= i < j < |w|
      ensures w[i] != w[j]
    {
      var i' := if i < k then i else i + 1;
      var j' := if j < k then j else j + 1;
      assert w[i] == es[i'] && w[j] == es[j'];
    }
    DistinctPairs(w);
  }

  /** s with x inserted at position i. */
  function Splice<A>(s: seq<A>, i: nat, x: A): (r: seq<A>)
    requires i <= |s|
  {
    s[..i] + [x] + s[i..]
  }

  lemma InSplice<A>(s: seq<A>, i: nat, x: A)
    requires i <= |s|
    ensures forall y :: y in Splice(s, i, x) <==> y in s || y == x
  {
    assert s == s[..i] + s[i..];
  }

  /** es with e taken out and put back right after `at`, at 0 (the root) meaning at the
      front: what `move(e, at)` does to the order. */
  ghost function Place(es: seq<nat>, e: nat, at: nat): (r: seq<nat>)
    requires e in es && (at == 0 || at in es) && at != e
  {
    var w := Without(es, e);
    Splice(w, if at == 0 then 0 else Pos(w, at) + 1, e)
  }

  /** Place spelled out: e spliced into the other elements right after `at`. */
  lemma PlaceSplices(es: seq<nat>, e: nat, at: nat, w: seq<nat>, j: nat)
    requires e in es && (at == 0 || at in es) && at != e
    requires w == Without(es, e) && j == if at == 0 then 0 else Pos(w, at) + 1
    ensures j <= |w| && Place(es, e, at) == Splice(w, j, e)
  {
  }

  /** The values stored at the ids of es, in order. */
  ghost function ValuesOf<T>(value: seq<T>, es: seq<nat>): (vs: seq<T>)
    requires forall i :: 0 <= i < |es| ==> es[i] < |value|
  {
    seq(|es|, i requires 0 <= i < |es| => value[es[i]])
  }

  /** Storing v in a fresh slot and splicing that slot in at position k splices v into the
      values at position k. */
  lemma ValuesSplice<T>(value: seq<T>, es: seq<nat>, k: nat, v: T)
    requires forall i :: 0 <= i < |es| ==> es[i] < |value|
    requires k <= |es|
    ensures forall i :: 0 <= i < |Splice(es, k, |value|)| ==> Splice(es, k, |value|)[i] < |value + [v]|
    ensures ValuesOf(value + [v], Splice(es, k, |value|)) == Splice(ValuesOf(value, es), k, v)
  {
    var es' := Splice(es, k, |value|);
    assert forall i :: 0 <= i < |es'| ==> es'[i] == (if i < k then es[i] else if i == k then |value| else es[i - 1]);
  }

  /** The ids met by following `links` n times from slot x (x itself not included), stopping
      at a nil link. */
  ghost function Follow(links: seq<Ptr>, x: nat, n: nat): (walk: seq<nat>)
    decreases n
  {
    if n == 0 || x >= |links| || links[x].Nil? then []
    else [links[x].id] + Follow(links, links[x].id, n - 1)
  }

  ghost function Reversed(s: seq<nat>): (r: seq<nat>)
  {
    if s == [] then [] else Reversed(s[1..]) + [s[0]]
  }

  /** Any two neighbours in the ring, the root included, point at each other. */
  lemma RingLinks(nx: seq<Ptr>, pv: seq<Ptr>, es: seq<nat>, k: nat)
    requires Ring(nx, pv, es) && k <= |es|
    ensures At(es, k - 1) < |nx| && At(es, k) < |nx|
    ensures nx[At(es, k - 1)] == Ref(At(es, k)) && pv[At(es, k)] == Ref(At(es, k - 1))
  {
    if k > 0 {
      assert LinkedAt(nx, pv, es, k - 1);
    }
    if k < |es| {
      assert LinkedAt(nx, pv, es, k);
    }
  }

  /** Following `next` from the element before position k walks the rest of the list in
      order and then reaches the root. */
  lemma {:induction false} FollowNext(nx: seq<Ptr>, pv: seq<Ptr>, es: seq<nat>, k: nat)
    requires Ring(nx, pv, es) && k <= |es|
    ensures Follow(nx, At(es, k - 1), |es| - k) == es[k..]
    decreases |es| - k
  {
    if k < |es| {
      RingLinks(nx, pv, es, k);
      FollowNext(nx, pv, es, k + 1);
      assert es[k..] == [es[k]] + es[k + 1..];
    }
  }

  /** Following `prev` from the root |es| times visits the list from back to front. */
  lemma {:induction false} FollowPrev(nx: seq<Ptr>, pv: seq<Ptr>, es: seq<nat>, k: nat)
    requires Ring(nx, pv, es) && k <= |es|
    ensures Follow(pv, At(es, k), k) == Reversed(es[..k])
    decreases k
  {
    if k > 0 {
      RingLinks(nx, pv, es, k);
      FollowPrev(nx, pv, es, k - 1);
      var s := es[..k];
      assert s[1..] == es[1..k];
      ReversedSnoc(es[..k - 1], es[k - 1]);
      assert es[..k] == es[..k - 1] + [es[k - 1]];
    }
  }

  lemma {:induction false} ReversedSnoc(s: seq<nat>, x: nat)
    ensures Reversed(s + [x]) == [x] + Reversed(s)
    decreases |s|
  {
    if s != [] {
      ReversedSnoc(s[1..], x);
      assert (s + [x])[1..] == s[1..] + [x];
    } else {
      assert Reversed([x]) == Reversed([]) + [x];
    }
  }

  /** The ring invariant from the root: |es| steps along `next` visit every element once, in
      order, and the next step returns to the root; |es| steps along `prev` visit them in
      reverse. */
  lemma RingWalk(nx: seq<Ptr>, pv: seq<Ptr>, es: seq<nat>)
    requires Ring(nx, pv, es)
    ensures Follow(nx, 0, |es|) == es
    ensures Follow(pv, 0, |es|) == Reversed(es)
    ensures nx[At(es, |es| - 1)] == Ref(0) && pv[At(es, 0)] == Ref(0)
  {
    FollowNext(nx, pv, es, 0);
    FollowPrev(nx, pv, es, |es|);
    RingLinks(nx, pv, es, 0);
    RingLinks(nx, pv, es, |es|);
    assert es[..|es|] == es;
  }

  /** Appending a fresh, unlinked slot to the arena leaves the ring as it is. */
  lemma RingGrow(nx: seq<Ptr>, pv: seq<Ptr>, es: seq<nat>)
    requires Ring(nx, pv, es)
    ensures Ring(nx + [Nil], pv + [Nil], es)
  {
    var nx', pv' := nx + [Nil], pv + [Nil];
    forall i | 0 <= i < |es|
      ensures LinkedAt(nx', pv', es, i)
    {
      assert LinkedAt(nx, pv, es, i);
    }
  }

  /** Changing the links of a slot outside the ring leaves the ring as it is. */
  lemma RingIgnoresDetached(nx: seq<Ptr>, pv: seq<Ptr>, es: seq<nat>, x: nat, a: Ptr, b: Ptr)
    requires Ring(nx, pv, es) && 0 < x < |nx| && x !in es
    ensures Ring(nx[x := a], pv[x := b], es)
  {
    var nx', pv' := nx[x := a], pv[x := b];
    forall i | 0 <= i < |es|
      ensures LinkedAt(nx', pv', es, i)
    {
      assert LinkedAt(nx, pv, es, i);
    }
  }

  /** `insert`: linking a slot x outside the ring between positions k - 1 and k puts x at
      position k. */
  lemma LinkKeepsRing(nx: seq<Ptr>, pv: seq<Ptr>, es: seq<nat>, k: nat, x: nat)
    requires Ring(nx, pv, es) && k <= |es| && 0 < x < |nx| && x !in es
    ensures Ring(nx[x := Ref(At(es, k))][At(es, k - 1) := Ref(x)],
                 pv[x := Ref(At(es, k - 1))][At(es, k) := Ref(x)],
                 Splice(es, k, x))
  {
    var a, b := At(es, k - 1), At(es, k);
    RingLinks(nx, pv, es, k);
    var nx', pv', es' := nx[x := Ref(b)][a := Ref(x)], pv[x := Ref(a)][b := Ref(x)], Splice(es, k, x);
    DistinctSplice(es, k, x);
    forall i | 0 <= i < |es'|
      ensures 0 < es'[i] < |nx'| && LinkedAt(nx', pv', es', i)
    {
      LinkedAfterLink(nx, pv, es, k, x, i);
    }
  }

  lemma DistinctSplice(es: seq<nat>, k: nat, x: nat)
    requires Distinct(es) && k <= |es| && x !in es
    ensures Distinct(Splice(es, k, x))
  {
    DistinctPairs(es);
    SplicePairs(es, k, x);
    DistinctPairs(Splice(es, k, x));
  }

  /** Splicing in a new value keeps the positions pairwise distinct. */
  lemma SplicePairs(es: seq<nat>, k: nat, x: nat)
    requires forall i, j :: 0 <= i < j < |es| ==> es[i] != es[j]
    requires k <= |es| && x !in es
    ensures forall i, j :: 0 <= i < j < |Splice(es, k, x)| ==> Splice(es, k, x)[i] != Splice(es, k, x)[j]
  {
    var es' := Splice(es, k, x);
    forall i, j | 0 <= i < j < |es'|
      ensures es'[i] != es'[j]
    {
      if i != k && j != k {
        var i' := if i < k then i else i - 1;
        var j' := if j < k then j else j - 1;
        assert es'[i] == es[i'] && es'[j] == es[j'];
      } else if i == k {
        assert es'[j] == es[j - 1];
      } else {
        assert es'[i] == es[i];
      }
    }
  }

  lemma LinkedAfterLink(nx: seq<Ptr>, pv: seq<Ptr>, es: seq<nat>, k: nat, x: nat, i: nat)
    requires Ring(nx, pv, es) && k <= |es| && 0 < x < |nx| && x !in es && i <= |es|
    ensures 0 < Splice(es, k, x)[i] < |nx|
    ensures LinkedAt(nx[x := Ref(At(es, k))][At(es, k - 1) := Ref(x)],
                     pv[x := Ref(At(es, k - 1))][At(es, k) := Ref(x)],
                     Splice(es, k, x), i)
  {
    if i < k {
      LinkedBeforeLink(nx, pv, es, k, x, i);
    } else if i == k {
      RingLinks(nx, pv, es, k);
      var es' := Splice(es, k, x);
      assert es'[i] == x && At(es', i + 1) == At(es, k) && At(es', i - 1) == At(es, k - 1);
    } else {
      LinkedBehindLink(nx, pv, es, k, x, i);
    }
  }

  /** LinkedAfterLink for a position before the new element. */
  lemma LinkedBeforeLink(nx: seq<Ptr>, pv: seq<Ptr>, es: seq<nat>, k: nat, x: nat, i: nat)
    requires Ring(nx, pv, es) && k <= |es| && 0 < x < |nx| && x !in es && i < k
    ensures 0 < Splice(es, k, x)[i] < |nx|
    ensures LinkedAt(nx[x := Ref(At(es, k))][At(es, k - 1) := Ref(x)],
                     pv[x := Ref(At(es, k - 1))][At(es, k) := Ref(x)],
                     Splice(es, k, x), i)
  {
    DistinctPairs(es);
    var a, b := At(es, k - 1), At(es, k);
    RingLinks(nx, pv, es, k);
    var es' := Splice(es, k, x);
    assert es'[i] == es[i] && LinkedAt(nx, pv, es, i);
    assert es[i] != b || b == 0 by {
      if k < |es| { assert es[i] != es[k]; }
    }
    if i < k - 1 {
      assert es[i] != a && At(es, i + 1) == At(es', i + 1);
    }
    assert At(es, i - 1) == At(es', i - 1);
  }

  /** LinkedAfterLink for a position behind the new element. */
  lemma LinkedBehindLink(nx: seq<Ptr>, pv: seq<Ptr>, es: seq<nat>, k: nat, x: nat, i: nat)
    requires Ring(nx, pv, es) && k < i <= |es| && 0 < x < |nx| && x !in es
    ensures 0 < Splice(es, k, x)[i] < |nx|
    ensures LinkedAt(nx[x := Ref(At(es, k))][At(es, k - 1) := Ref(x)],
                     pv[x := Ref(At(es, k - 1))][At(es, k) := Ref(x)],
                     Splice(es, k, x), i)
  {
    DistinctPairs(es);
    var a, b := At(es, k - 1), At(es, k);
    RingLinks(nx, pv, es, k);
    var es' := Splice(es, k, x);
    assert es'[i] == es[i - 1] && LinkedAt(nx, pv, es, i - 1);
    assert es[i - 1] != a || a == 0 by {
      if k > 0 { assert es[i - 1] != es[k - 1]; }
    }
    if i > k + 1 {
      assert es[i - 1] != b && At(es, i - 2) == At(es', i - 1);
    }
    assert At(es, i) == At(es', i + 1);
  }

  /** `remove` and the first half of `move`: pointing the neighbours of the element at
      position k at each other takes it out of the ring. */
  lemma UnlinkKeepsRing(nx: seq<Ptr>, pv: seq<Ptr>, es: seq<nat>, k: nat)
    requires Ring(nx, pv, es) && k < |es|
    ensures Ring(nx[At(es, k - 1) := Ref(At(es, k + 1))], pv[At(es, k + 1) := Ref(At(es, k - 1))],
                 es[..k] + es[k + 1..])
  {
    var p, n := At(es, k - 1), At(es, k + 1);
    RingLinks(nx, pv, es, k);
    RingLinks(nx, pv, es, k + 1);
    var nx', pv', es' := nx[p := Ref(n)], pv[n := Ref(p)], es[..k] + es[k + 1..];
    DistinctWithout(es, k);
    WithoutAt(es, k);
    forall i | 0 <= i < |es'|
      ensures 0 < es'[i] < |nx'| && LinkedAt(nx', pv', es', i)
    {
      LinkedAfterUnlink(nx, pv, es, k, i);
    }
  }

  lemma LinkedAfterUnlink(nx: seq<Ptr>, pv: seq<Ptr>, es: seq<nat>, k: nat, i: nat)
    requires Ring(nx, pv, es) && k < |es| && i < |es| - 1
    ensures 0 < (es[..k] + es[k + 1..])[i] < |nx|
    ensures LinkedAt(nx[At(es, k - 1) := Ref(At(es, k + 1))], pv[At(es, k + 1) := Ref(At(es, k - 1))],
                     es[..k] + es[k + 1..], i)
  {
    DistinctPairs(es);
    var p, n := At(es, k - 1), At(es, k + 1);
    RingLinks(nx, pv, es, k);
    RingLinks(nx, pv, es, k + 1);
    var es' := es[..k] + es[k + 1..];
    if i < k {
      assert es'[i] == es[i] && LinkedAt(nx, pv, es, i);
      assert es[i] != n || n == 0 by {
        if k + 1 < |es| { assert es[i] != es[k + 1]; }
      }
      if i < k - 1 {
        assert es[i] != p && At(es, i + 1) == At(es', i + 1);
      }
      assert At(es, i - 1) == At(es', i - 1);
    } else {
      assert es'[i] == es[i + 1] && LinkedAt(nx, pv, es, i + 1);
      assert es[i + 1] != p || p == 0 by {
        if k > 0 { assert es[i + 1] != es[k - 1]; }
      }
      if i > k {
        assert es[i + 1] != n && At(es, i) == At(es', i - 1);
      }
      assert At(es, i + 2) == At(es', i + 1);
    }
  }

  /** The back-links agree with the ring: exactly the elements of es point at this list,
      and every other element has nil links. */
  ghost predicate Owned(nx: seq<Ptr>, pv: seq<Ptr>, ow: seq<bool>, es: seq<nat>)
  {
    && |ow| == |nx| == |pv| >= 1 && !ow[0]
    && (forall x {:trigger ow[x]} :: 0 < x < |nx| ==> (ow[x] <==> x in es))
    && (forall x {:trigger ow[x]} :: 0 < x < |nx| && !ow[x] ==> nx[x] == Nil && pv[x] == Nil)
  }

  lemma OwnedAfterLink(nx: seq<Ptr>, pv: seq<Ptr>, ow: seq<bool>, es: seq<nat>, k: nat, x: nat)
    requires Ring(nx, pv, es) && Owned(nx, pv, ow, es) && k <= |es| && 0 < x < |nx| && !ow[x]
    ensures Owned(nx[x := Ref(At(es, k))][At(es, k - 1) := Ref(x)],
                  pv[x := Ref(At(es, k - 1))][At(es, k) := Ref(x)],
                  ow[x := true], Splice(es, k, x))
  {
    InSplice(es, k, x);
    RingLinks(nx, pv, es, k);
    assert At(es, k - 1) == 0 || At(es, k - 1) in es;
    assert At(es, k) == 0 || At(es, k) in es;
  }

  lemma OwnedAfterUnlink(nx: seq<Ptr>, pv: seq<Ptr>, ow: seq<bool>, es: seq<nat>, k: nat)
    requires Ring(nx, pv, es) && Owned(nx, pv, ow, es) && k < |es|
    ensures Owned(nx[At(es, k - 1) := Ref(At(es, k + 1))][es[k] := Nil],
                  pv[At(es, k + 1) := Ref(At(es, k - 1))][es[k] := Nil],
                  ow[es[k] := false], es[..k] + es[k + 1..])
  {
    RingLinks(nx, pv, es, k);
    RingLinks(nx, pv, es, k + 1);
    WithoutAt(es, k);
    assert At(es, k - 1) == 0 || At(es, k - 1) in es;
    assert At(es, k + 1) == 0 || At(es, k + 1) in es;
  }

  /** Putting an element back where it was taken out restores the sequence. */
  lemma SpliceBack(es: seq<nat>, k: nat)
    requires k < |es|
    ensures Splice(es[..k] + es[k + 1..], k, es[k]) == es
  {
    var w := es[..k] + es[k + 1..];
    assert w[..k] == es[..k] && w[k..] == es[k + 1..];
    assert es == es[..k] + [es[k]] + es[k + 1..];
  }

  /** Taking out position k shifts every later position down by one. */
  lemma IndexWithout(es: seq<nat>, k: nat, i: nat)
    requires k < |es| && i < |es| && i != k
    ensures i < k ==> (es[..k] + es[k + 1..])[i] == es[i]
    ensures i > k ==> (es[..k] + es[k + 1..])[i - 1] == es[i]
  {
  }

  /** In a list without repeats, once the element at position k is taken out, the element
      at position i is found at i when it came before k and at i - 1 when it came after. */
  lemma PosWithout(es: seq<nat>, k: nat, i: nat, w: seq<nat>)
    requires Distinct(es) && k < |es| && i < |es| && i != k && w == Without(es, es[k])
    ensures es[i] in w && Pos(w, es[i]) == if i < k then i else i - 1
  {
    WithoutAt(es, k);
    DistinctWithout(es, k);
    IndexWithout(es, k, i);
    PosOfIndex(es[..k] + es[k + 1..], if i < k then i else i - 1);
  }

  /** PlaceBefore when mark is preceded by some element other than e: moving e right after
      that element puts e immediately before mark. */
  lemma PlaceBetween(es: seq<nat>, e: nat, k: nat, mark: nat, m: nat, w: seq<nat>)
    requires Distinct(es) && (forall i :: 0 <= i < |es| ==> 0 < es[i])
    requires k < |es| && 0 < m < |es| && k != m && k != m - 1 && es[k] == e && es[m] == mark
    requires w == Without(es, e)
    ensures es[m - 1] in es && es[m - 1] != 0 && es[m - 1] != e && mark in w
    ensures Place(es, e, es[m - 1]) == Splice(w, Pos(w, mark), e)
  {
    PosWithout(es, k, m, w);
    PosWithout(es, k, m - 1, w);
    PlaceSplices(es, e, es[m - 1], w, if m < k then m else m - 1);
  }

  /** Moving e right after the element that precedes mark (the root when mark is first)
      puts e immediately before mark; when e already precedes mark nothing moves. */
  lemma PlaceBefore(es: seq<nat>, e: nat, mark: nat, at: nat, w: seq<nat>)
    requires Distinct(es) && (forall i :: 0 <= i < |es| ==> 0 < es[i])
    requires e in es && mark in es && e != mark
    requires at == At(es, Pos(es, mark) - 1) && w == Without(es, e)
    ensures at == 0 || at in es
    ensures mark in w && (if at == e then es else Place(es, e, at)) == Splice(w, Pos(w, mark), e)
  {
    var m, k := Pos(es, mark), Pos(es, e);
    if m == 0 {
      assert at == 0;
      PosWithout(es, k, m, w);
      PlaceSplices(es, e, 0, w, 0);
    } else if k == m - 1 {
      assert at == e;
      PosWithout(es, k, m, w);
      WithoutAt(es, k);
      SpliceBack(es, k);
    } else {
      assert at == es[m - 1];
      PlaceBetween(es, e, k, mark, m, w);
    }
  }

  /** Moving e right after mark puts it immediately after mark among the others. */
  lemma PlaceAfter(es: seq<nat>, e: nat, mark: nat)
    requires e in es && mark in es && e != mark && mark != 0
    ensures mark in Without(es, e)
    ensures Place(es, e, mark) == Splice(Without(es, e), Pos(Without(es, e), mark) + 1, e)
  {
    PlaceSplices(es, e, mark, Without(es, e), Pos(Without(es, e), mark) + 1);
  }

  /** Moving e right after the root puts it at the front. */
  lemma PlaceFirst(es: seq<nat>, e: nat)
    requires e in es && e != 0
    ensures Place(es, e, 0) == [e] + Without(es, e)
  {
    PlaceSplices(es, e, 0, Without(es, e), 0);
    SpliceAtFront(Without(es, e), e);
  }

  /** In a list without repeats, the first element followed by the others is the list. */
  lemma WithoutFirst(es: seq<nat>)
    requires Distinct(es) && |es| > 0
    ensures es == [es[0]] + Without(es, es[0])
  {
    NotPresent(es[1..], es[0]);
    assert Without(es, es[0]) == es[1..];
  }

  /** In a list without repeats, the others followed by the last element is the list. */
  lemma WithoutLast(es: seq<nat>)
    requires Distinct(es) && |es| > 0
    ensures es == Without(es, es[|es| - 1]) + [es[|es| - 1]]
  {
    WithoutAt(es, |es| - 1);
    assert es == es[..|es| - 1] + [es[|es| - 1]];
  }

  /** Moving e right after the last element other than e puts it at the back. */
  lemma PlaceLast(es: seq<nat>, e: nat)
    requires Distinct(es) && (forall i :: 0 <= i < |es| ==> 0 < es[i])
    requires e in es && es[|es| - 1] != e
    ensures es[|es| - 1] in es && Place(es, e, es[|es| - 1]) == Without(es, e) + [e]
  {
    var k := Pos(es, e);
    var last := es[|es| - 1];
    WithoutAt(es, k);
    DistinctWithout(es, k);
    var w := Without(es, e);
    assert k < |es| - 1;
    assert w == es[..k] + es[k + 1..];
    assert w[|w| - 1] == last;
    PosOfIndex(w, |w| - 1);
    PlaceSplices(es, e, last, w, |w|);
    SpliceAtEnd(w, e);
  }

  lemma Overwrite<A>(s: seq<A>, i: nat, a: A, b: A)
    requires i < |s|
    ensures s[i := a][i := b] == s[i := b]
  {
  }

  /** `remove`, and the first half of a move: unlinking `es[k]` leaves a ring over the other elements in
      which `es[k]`, once its links are cleared, is detached and unowned. */
  lemma MoveUnlinks(nx: seq<Ptr>, pv: seq<Ptr>, ow: seq<bool>, es: seq<nat>, k: nat,
                    p: nat, n: nat, w: seq<nat>)
    requires Ring(nx, pv, es) && Owned(nx, pv, ow, es) && k < |es|
    requires p == At(es, k as int - 1) && n == At(es, k + 1) && w == es[..k] + es[k + 1..]
    ensures p < |nx| && n < |nx| && p != es[k] && n != es[k] && nx[es[k]] == Ref(n) && pv[es[k]] == Ref(p)
    ensures 0 < es[k] < |nx| && es[k] !in w && Distinct(w) && w == Without(es, es[k])
    ensures Ring(nx[p := Ref(n)][es[k] := Nil], pv[n := Ref(p)][es[k] := Nil], w)
    ensures Owned(nx[p := Ref(n)][es[k] := Nil], pv[n := Ref(p)][es[k] := Nil], ow[es[k] := false], w)
  {
    var e := es[k];
    assert LinkedAt(nx, pv, es, k);
    UnlinkKeepsRing(nx, pv, es, k);
    OwnedAfterUnlink(nx, pv, ow, es, k);
    DistinctWithout(es, k);
    WithoutAt(es, k);
    RingIgnoresDetached(nx[p := Ref(n)], pv[n := Ref(p)], w, e, Nil, Nil);
  }

  /** The second half of a move: linking the detached `e` back in between `a`, at position
      `j - 1` of the ring over `w`, and its successor b, over the slots it was unlinked
      from, gives a ring over `Splice(w, j, e)`. */
  lemma MoveLinks(nx1: seq<Ptr>, pv1: seq<Ptr>, ow: seq<bool>, w: seq<nat>, e: nat, j: nat, a: nat, b: nat,
                  es: seq<nat>)
    requires 0 < e < |nx1| && e < |pv1| && e < |ow| && ow[e] && e !in w && j <= |w|
    requires Ring(nx1[e := Nil], pv1[e := Nil], w) && Owned(nx1[e := Nil], pv1[e := Nil], ow[e := false], w)
    requires a == At(w, j - 1) && a < |nx1| && nx1[a] == Ref(b) && es == Splice(w, j, e)
    ensures b == At(w, j) && b < |nx1| && a != e && b != e && |es| == |w| + 1
    ensures Ring(nx1[e := Ref(b)][a := Ref(e)], pv1[e := Ref(a)][b := Ref(e)], es)
    ensures Owned(nx1[e := Ref(b)][a := Ref(e)], pv1[e := Ref(a)][b := Ref(e)], ow, es)
  {
    var nx2, pv2 := nx1[e := Nil], pv1[e := Nil];
    RingLinks(nx2, pv2, w, j);
    LinkKeepsRing(nx2, pv2, w, j, e);
    OwnedAfterLink(nx2, pv2, ow[e := false], w, j, e);
    assert ow[e := false][e := true] == ow;
    Overwrite(nx1, e, Nil, Ref(b));
    Overwrite(pv1, e, Nil, Ref(a));
  }

  /** The slot right after which position j of w begins: the root for j = 0, otherwise
      the element at j - 1. */
  lemma AtSlot(w: seq<nat>, at: nat, j: nat)
    requires (at == 0 || at in w) && j == if at == 0 then 0 else Pos(w, at) + 1
    ensures j <= |w| && at == At(w, j - 1)
  {
  }

  /** `move(e, at)`: e's neighbours p and n, and the element b that follows `at` once e is
      unlinked, are slots of the arena distinct from e. */
  lemma MoveEnds(nx: seq<Ptr>, pv: seq<Ptr>, ow: seq<bool>, es: seq<nat>, e: nat, at: nat)
    requires Ring(nx, pv, es) && Owned(nx, pv, ow, es) && e in es && (at == 0 || at in es) && e != at
    ensures 0 < e < |nx| && at < |nx| && nx[e].Ref? && pv[e].Ref?
    ensures pv[e].id < |nx| && nx[e].id < |nx| && pv[e].id != e && nx[e].id != e
    ensures nx[pv[e].id := nx[e]][at].Ref? && nx[pv[e].id := nx[e]][at].id < |nx|
  {
    var k := Pos(es, e);
    var w := es[..k] + es[k + 1..];
    var p, n := At(es, k as int - 1), At(es, k + 1);
    MoveUnlinks(nx, pv, ow, es, k, p, n, w);
    var j := if at == 0 then 0 else Pos(w, at) + 1;
    AtSlot(w, at, j);
    var nx1 := nx[p := Ref(n)];
    RingLinks(nx1[e := Nil], pv[n := Ref(p)][e := Nil], w, j);
    assert nx1[at] == nx1[e := Nil][at];
  }

  /** `move(e, at)`: unlinking e from between p and n and linking it back in between `at`
      and b keeps the ring, with e right after `at` among the others, and keeps exactly the
      live elements owned and every detached slot unlinked. */
  lemma MoveKeepsRing(nx: seq<Ptr>, pv: seq<Ptr>, ow: seq<bool>, es: seq<nat>, e: nat, at: nat,
                      p: nat, n: nat, b: nat)
    requires Ring(nx, pv, es) && Owned(nx, pv, ow, es) && e in es && (at == 0 || at in es) && e != at
    requires e < |nx| && pv[e] == Ref(p) && nx[e] == Ref(n) && p < |nx| && n < |nx| && at < |nx| && b < |nx|
    requires nx[p := Ref(n)][at] == Ref(b)
    ensures Ring(nx[p := Ref(n)][e := Ref(b)][at := Ref(e)],
                 pv[n := Ref(p)][e := Ref(at)][b := Ref(e)], Place(es, e, at))
    ensures Owned(nx[p := Ref(n)][e := Ref(b)][at := Ref(e)],
                  pv[n := Ref(p)][e := Ref(at)][b := Ref(e)], ow, Place(es, e, at))
    ensures |Place(es, e, at)| == |es|
  {
    var k := Pos(es, e);
    var w := es[..k] + es[k + 1..];
    assert LinkedAt(nx, pv, es, k);
    MoveUnlinks(nx, pv, ow, es, k, p, n, w);
    assert Without(es, e) == w;
    var j := if at == 0 then 0 else Pos(w, at) + 1;
    AtSlot(w, at, j);
    PlaceSplices(es, e, at, w, j);
    MoveLinks(nx[p := Ref(n)], pv[n := Ref(p)], ow, w, e, j, at, b, Place(es, e, at));
  }


  /** Splicing at the end appends. */
  lemma SpliceAtEnd<A>(s: seq<A>, x: A)
    ensures Splice(s, |s|, x) == s + [x]
  {
  }

  /** Splicing at the front prepends. */
  lemma SpliceAtFront<A>(s: seq<A>, x: A)
    ensures Splice(s, 0, x) == [x] + s
  {
  }

  /** Appending s[k] to a head followed by the first k elements of s. */
  lemma AppendStep<A>(h: seq<A>, s: seq<A>, k: nat, n: nat)
    requires k < |s| && n == |h| + k
    ensures Splice(h + s[..k], n, s[k]) == h + s[..k + 1]
  {
    assert s[..k + 1] == s[..k] + [s[k]];
  }

  /** h is the front end of s. */
  ghost predicate StartsWith<A>(s: seq<A>, h: seq<A>)
  {
    |h| <= |s| && s[..|h|] == h
  }

  /** Appending keeps the front end of a sequence. */
  lemma StartsWithKept<A>(s: seq<A>, h: seq<A>, x: A)
    requires StartsWith(s, h)
    ensures StartsWith(s + [x], h)
  {
    assert (s + [x])[..|h|] == s[..|h|];
  }

  /** The same, for a splice at the end. */
  lemma StartsWithSpliced<A>(s: seq<A>, h: seq<A>, x: A)
    requires StartsWith(s, h)
    ensures StartsWith(Splice(s, |s|, x), h)
  {
    assert Splice(s, |s|, x) == s + [x];
    StartsWithKept(s, h, x);
  }

  /** Prepending s[i - 1] to the elements of s from i on, followed by a tail. */
  lemma PrependStep<A>(s: seq<A>, t: seq<A>, i: nat)
    requires 0 < i <= |s|
    ensures Splice(s[i..] + t, 0, s[i - 1]) == s[i - 1..] + t
  {
    assert s[i - 1..] == [s[i - 1]] + s[i..];
  }

  /** t is the tail end of s. */
  ghost predicate EndsWith<A>(s: seq<A>, t: seq<A>)
  {
    |t| <= |s| && s[|s| - |t|..] == t
  }

  /** Prepending keeps the tail end of a sequence. */
  lemma EndsWithKept<A>(es: seq<A>, t: seq<A>, x: A)
    requires EndsWith(es, t)
    ensures EndsWith(Splice(es, 0, x), t)
  {
    assert Splice(es, 0, x) == [x] + es;
    assert ([x] + es)[|es| + 1 - |t|..] == es[|es| - |t|..];
  }

  /** The j-th entry of the tail end t, counted in s. */
  lemma EndsWithAt<A>(s: seq<A>, t: seq<A>, j: nat)
    requires EndsWith(s, t) && j < |t|
    ensures s[|s| - |t| + j] == t[j]
  {
  }

  /** When the values of es are w followed by u, the j-th of u is the value of the element
      at position |w| + j. */
  lemma ValueAt<T>(value: seq<T>, es: seq<nat>, w: seq<T>, u: seq<T>, j: nat)
    requires forall i :: 0 <= i < |es| ==> es[i] < |value|
    requires ValuesOf(value, es) == w + u && j < |u|
    ensures value[es[|w| + j]] == u[j]
  {
    assert ValuesOf(value, es)[|w| + j] == (w + u)[|w| + j];
  }

  /** A list together with the arena of the elements it has created. */
  class List<T(0)> {
    var next: seq<Ptr>
    var prev: seq<Ptr>
    /** Whether the element's `list` back-link points at this list. */
    var owned: seq<bool>
    var value: seq<T>
    var len: nat
    /** The live elements, front to back. */
    ghost var Elems: seq<nat>

    /** Either the zero value (root links nil, no elements) or a ring through the root;
        exactly the live elements are owned, and detached elements have nil links. */
    ghost predicate Valid()
      reads this
    {
      && |value| == |next| && len == |Elems|
      && Owned(next, prev, owned, Elems)
      && (forall i :: 0 <= i < |Elems| ==> 0 < Elems[i] < |next|)
      && (next[0] == Nil ==> prev[0] == Nil && Elems == [])
      && (next[0] != Nil ==> Ring(next, prev, Elems))
    }

    /** The values of the live elements, front to back. */
    ghost function Values(): (vs: seq<T>)
      reads this
      requires Valid()
    {
      ValuesOf(value, Elems)
    }

    /** The zero value of List (`new(List[T])`): root links nil, no elements. */
    constructor ()
      ensures Valid() && Elems == [] && next == [Nil] && prev == [Nil] && owned == [false] && len == 0
    {
      var z: T := *;
      next, prev, owned, value, len := [Nil], [Nil], [false], [z], 0;
      Elems := [];
    }

    /** Init: the root closed on itself, length 0. Elements the list held are detached. */
    method Init()
      requires Valid()
      modifies this
      ensures Valid() && Elems == [] && len == 0
      ensures next[0] == Ref(0) && prev[0] == Ref(0)
      ensures |next| == old(|next|) && value == old(value)
      ensures forall x :: 0 < x < |next| ==> !owned[x] && next[x] == Nil && prev[x] == Nil
    {
      next := seq(|next|, i => if i == 0 then Ref(0) else Nil);
      prev := seq(|prev|, i => if i == 0 then Ref(0) else Nil);
      owned := seq(|owned|, i => false);
      len := 0;
      Elems := [];
    }

    /** lazyInit: initialises a zero-value list and leaves an initialised one alone. */
    method lazyInit()
      requires Valid()
      modifies this
      ensures Valid() && next[0] != Nil
      ensures Elems == old(Elems) && owned == old(owned) && value == old(value) && len == old(len)
      ensures next == old(next)[0 := if old(next[0]) == Nil then Ref(0) else old(next[0])]
      ensures prev == old(prev)[0 := if old(next[0]) == Nil then Ref(0) else old(prev[0])]
    {
      if next[0] == Nil {
        Init();
      }
    }

    /** Len: the number of live elements. */
    function Len(): (n: nat)
      reads this
      requires Valid()
      ensures n == |Elems|
    {
      len
    }

    /** Front: the first element, nil for an empty list. */
    function Front(): (r: Ptr)
      reads this
      requires Valid()
      ensures Elems == [] ==> r == Nil
      ensures Elems != [] ==> r == Ref(Elems[0])
    {
      if len == 0 then Nil else next[0]
    }

    /** Back: the last element, nil for an empty list. */
    function Back(): (r: Ptr)
      reads this
      requires Valid()
      ensures Elems == [] ==> r == Nil
      ensures Elems != [] ==> r == Ref(Elems[|Elems| - 1])
    {
      if len == 0 then Nil else prev[0]
    }

    /** Element.Next: the element after e, nil when e is the last element or detached. */
    function Next(e: nat): (r: Ptr)
      reads this
      requires Valid() && 0 < e < |next|
      ensures e !in Elems ==> r == Nil
      ensures e in Elems ==> r == if Pos(Elems, e) + 1 < |Elems| then Ref(Elems[Pos(Elems, e) + 1]) else Nil
    {
      assert e in Elems ==> LinkedAt(next, prev, Elems, Pos(Elems, e));
      if owned[e] && next[e] != Ref(0) then next[e] else Nil
    }

    /** Element.Prev: the element before e, nil when e is the first element or detached. */
    function Prev(e: nat): (r: Ptr)
      reads this
      requires Valid() && 0 < e < |next|
      ensures e !in Elems ==> r == Nil
      ensures e in Elems ==> r == if Pos(Elems, e) > 0 then Ref(Elems[Pos(Elems, e) - 1]) else Nil
    {
      assert e in Elems ==> LinkedAt(next, prev, Elems, Pos(Elems, e));
      if owned[e] && prev[e] != Ref(0) then prev[e] else Nil
    }

    /** Where the element at position j of a front end h of the list sits, and what comes
        after it. */
    lemma HeadAt(h: seq<nat>, j: nat)
      requires Valid() && StartsWith(Elems, h) && j < |h|
      ensures 0 < h[j] < |next| && h[j] in Elems && Pos(Elems, h[j]) == j
      ensures j + 1 < |h| ==> Elems[j + 1] == h[j + 1]
    {
      assert Elems[j] == h[j];
      if j + 1 < |h| {
        assert Elems[j + 1] == h[j + 1];
      }
      PosOfIndex(Elems, j);
    }

    /** Where the element at position j of a tail end t of the list sits, and what comes
        before it. */
    lemma TailAt(t: seq<nat>, j: nat)
      requires Valid() && EndsWith(Elems, t) && j < |t|
      ensures 0 < t[j] < |next| && t[j] in Elems && Pos(Elems, t[j]) == |Elems| - |t| + j
      ensures j > 0 ==> Elems[|Elems| - |t| + j - 1] == t[j - 1]
    {
      EndsWithAt(Elems, t, j);
      if j > 0 {
        EndsWithAt(Elems, t, j - 1);
      }
      PosOfIndex(Elems, |Elems| - |t| + j);
    }

    /** insert: links the detached element e right after `at`, the element at position
        k - 1 (the root when k is 0), so that e lands at position k. */
    method insert(e: nat, at: nat, ghost k: nat) returns (r: nat)
      requires Valid() && next[0] != Nil
      requires 0 < e < |next| && !owned[e]
      requires k <= |Elems| && at == At(Elems, k - 1)
      modifies this
      ensures Valid() && next[0] != Nil && r == e
      ensures Elems == Splice(old(Elems), k, e) && len == old(len) + 1
      ensures owned == old(owned)[e := true] && value == old(value) && |next| == old(|next|)
    {
      RingLinks(next, prev, Elems, k);
      LinkKeepsRing(next, prev, Elems, k, e);
      OwnedAfterLink(next, prev, owned, Elems, k, e);
      var b := next[at].id;
      prev := prev[e := Ref(at)];
      next := next[e := next[at]];
      next := next[at := Ref(e)];
      prev := prev[b := Ref(e)];
      owned := owned[e := true];
      len := len + 1;
      Elems := Splice(Elems, k, e);
      r := e;
    }

    /** insertValue: a new element holding v, inserted at position k right after `at`. */
    method insertValue(v: T, at: nat, ghost k: nat) returns (e: nat)
      requires Valid() && next[0] != Nil
      requires k <= |Elems| && at == At(Elems, k - 1)
      modifies this
      ensures Valid() && next[0] != Nil
      ensures e == old(|next|) && |next| == old(|next|) + 1 && len == old(len) + 1
      ensures Elems == Splice(old(Elems), k, e) && value == old(value) + [v]
      ensures owned == old(owned) + [true]
      ensures Values() == Splice(old(Values()), k, v)
    {
      ValuesSplice(value, Elems, k, v);
      RingGrow(next, prev, Elems);
      e := |next|;
      next, prev, owned, value := next + [Nil], prev + [Nil], owned + [false], value + [v];
      e := insert(e, at, k);
    }

    /** remove: unlinks the element at position k, clears its links and its back-link. */
    method remove(e: nat, ghost k: nat)
      requires Valid() && k < |Elems| && Elems[k] == e
      modifies this
      ensures Valid() && next[0] != Nil
      ensures Elems == old(Elems[..k] + Elems[k + 1..]) && len == old(len) - 1
      ensures owned == old(owned)[e := false] && value == old(value) && |next| == old(|next|)
      ensures next[e] == Nil && prev[e] == Nil
    {
      ghost var es := Elems[..k] + Elems[k + 1..];
      MoveUnlinks(next, prev, owned, Elems, k, At(Elems, k - 1), At(Elems, k + 1), es);
      var p, n := prev[e].id, next[e].id;
      next := next[p := Ref(n)];
      prev := prev[n := Ref(p)];
      next := next[e := Nil];
      prev := prev[e := Nil];
      owned := owned[e := false];
      len := len - 1;
      Elems := es;
    }

    /** move: takes e out of the ring and links it back right after `at`; moving e after
        itself changes nothing. */
    method move(e: nat, at: nat)
      requires Valid() && e in Elems && (at == 0 || at in Elems)
      modifies this
      ensures Valid() && next[0] != Nil
      ensures Elems == if at == e then old(Elems) else Place(old(Elems), e, at)
      ensures owned == old(owned) && value == old(value) && len == old(len) && |next| == old(|next|)
    {
      if e == at {
        return;
      }
      MoveEnds(next, prev, owned, Elems, e, at);
      var p, n := prev[e].id, next[e].id;
      var nx, pv := next[p := Ref(n)], prev[n := Ref(p)];
      var b := nx[at].id;
      MoveKeepsRing(next, prev, owned, Elems, e, at, p, n, b);
      pv := pv[e := Ref(at)];
      nx := nx[e := Ref(b)];
      nx := nx[at := Ref(e)];
      pv := pv[b := Ref(e)];
      next, prev := nx, pv;
      Elems := Place(Elems, e, at);
    }

    /** PushFront: a new element holding v, first in the list. A zero-value list is
        initialised first. */
    method PushFront(v: T) returns (e: nat)
      requires Valid()
      modifies this
      ensures Valid() && e == old(|next|) && len == old(len) + 1
      ensures Elems == [e] + old(Elems) && Values() == [v] + old(Values())
      ensures value == old(value) + [v] && owned == old(owned) + [true] && |next| == old(|next|) + 1
    {
      lazyInit();
      e := insertValue(v, 0, 0);
      assert Splice(old(Elems), 0, e) == [e] + old(Elems);
      assert Splice(old(Values()), 0, v) == [v] + old(Values());
    }

    /** PushBack: a new element holding v, last in the list. A zero-value list is
        initialised first. */
    method PushBack(v: T) returns (e: nat)
      requires Valid()
      modifies this
      ensures Valid() && e == old(|next|) && len == old(len) + 1
      ensures Elems == old(Elems) + [e] && Values() == old(Values()) + [v]
      ensures value == old(value) + [v] && owned == old(owned) + [true] && |next| == old(|next|) + 1
    {
      lazyInit();
      RingLinks(next, prev, Elems, |Elems|);
      e := insertValue(v, prev[0].id, |Elems|);
      assert Splice(old(Elems), |old(Elems)|, e) == old(Elems) + [e];
      assert Splice(old(Values()), |old(Values())|, v) == old(Values()) + [v];
    }

    /** InsertBefore: when mark is an element of this list, a new element holding v right
        before mark; otherwise nil and no change. */
    method InsertBefore(v: T, mark: nat) returns (r: Ptr)
      requires Valid() && 0 < mark < |next|
      modifies this
      ensures Valid()
      ensures !old(owned[mark]) ==> r == Nil && Elems == old(Elems) && next == old(next)
                                    && prev == old(prev) && owned == old(owned) && value == old(value)
      ensures old(owned[mark]) ==> mark in old(Elems) && r == Ref(old(|next|)) && len == old(len) + 1
      ensures old(owned[mark]) ==> Elems == Splice(old(Elems), Pos(old(Elems), mark), r.id)
      ensures old(owned[mark]) ==> Values() == Splice(old(Values()), Pos(old(Elems), mark), v)
      ensures old(owned[mark]) ==> value == old(value) + [v] && owned == old(owned) + [true]
                                   && |next| == old(|next|) + 1
    {
      if !owned[mark] {
        return Nil;
      }
      ghost var k := Pos(Elems, mark);
      assert LinkedAt(next, prev, Elems, k);
      var e := insertValue(v, prev[mark].id, k);
      r := Ref(e);
    }

    /** InsertAfter: when mark is an element of this list, a new element holding v right
        after mark; otherwise nil and no change. */
    method InsertAfter(v: T, mark: nat) returns (r: Ptr)
      requires Valid() && 0 < mark < |next|
      modifies this
      ensures Valid()
      ensures !old(owned[mark]) ==> r == Nil && Elems == old(Elems) && next == old(next)
                                    && prev == old(prev) && owned == old(owned) && value == old(value)
      ensures old(owned[mark]) ==> mark in old(Elems) && r == Ref(old(|next|)) && len == old(len) + 1
      ensures old(owned[mark]) ==> Elems == Splice(old(Elems), Pos(old(Elems), mark) + 1, r.id)
      ensures old(owned[mark]) ==> Values() == Splice(old(Values()), Pos(old(Elems), mark) + 1, v)
      ensures old(owned[mark]) ==> value == old(value) + [v] && owned == old(owned) + [true]
                                   && |next| == old(|next|) + 1
    {
      if !owned[mark] {
        return Nil;
      }
      ghost var k := Pos(Elems, mark);
      var e := insertValue(v, mark, k + 1);
      r := Ref(e);
    }

    /** Remove: when e is an element of this list, unlinks it and clears its links and
        back-link; either way returns its value. */
    method Remove(e: nat) returns (v: T)
      requires Valid() && 0 < e < |next|
      modifies this
      ensures Valid() && value == old(value) && v == old(value[e])
      ensures !old(owned[e]) ==> Elems == old(Elems) && next == old(next) && prev == old(prev)
                                 && owned == old(owned)
      ensures old(owned[e]) ==> Elems == Without(old(Elems), e) && len == old(len) - 1
      ensures old(owned[e]) ==> owned == old(owned)[e := false] && next[e] == Nil && prev[e] == Nil
    {
      if owned[e] {
        ghost var k := Pos(Elems, e);
        WithoutAt(Elems, k);
        remove(e, k);
      }
      v := value[e];
    }

    /** MoveToFront: an element of this list becomes the first; anything else is left alone. */
    method MoveToFront(e: nat)
      requires Valid() && 0 < e < |next|
      modifies this
      ensures Valid() && owned == old(owned) && value == old(value) && len == old(len)
      ensures Elems == if old(owned[e]) then [e] + Without(old(Elems), e) else old(Elems)
      ensures !old(owned[e]) ==> next == old(next) && prev == old(prev)
    {
      if !owned[e] || next[0] == Ref(e) {
        if owned[e] {
          WithoutFirst(Elems);
        }
        return;
      }
      PlaceFirst(Elems, e);
      move(e, 0);
    }

    /** MoveToBack: an element of this list becomes the last; anything else is left alone. */
    method MoveToBack(e: nat)
      requires Valid() && 0 < e < |next|
      modifies this
      ensures Valid() && owned == old(owned) && value == old(value) && len == old(len)
      ensures Elems == if old(owned[e]) then Without(old(Elems), e) + [e] else old(Elems)
      ensures !old(owned[e]) ==> next == old(next) && prev == old(prev)
    {
      if !owned[e] || prev[0] == Ref(e) {
        if owned[e] {
          RingLinks(next, prev, Elems, |Elems|);
          WithoutLast(Elems);
        }
        return;
      }
      RingLinks(next, prev, Elems, |Elems|);
      PlaceLast(Elems, e);
      move(e, prev[0].id);
    }

    /** MoveBefore: when e and mark are distinct elements of this list, e ends up
        immediately before mark and the others keep their order; otherwise no change. */
    method MoveBefore(e: nat, mark: nat)
      requires Valid() && 0 < e < |next| && 0 < mark < |next|
      modifies this
      ensures Valid() && owned == old(owned) && value == old(value) && len == old(len)
      ensures old(owned[e] && owned[mark]) && e != mark ==>
                mark in Without(old(Elems), e) &&
                Elems == Splice(Without(old(Elems), e), Pos(Without(old(Elems), e), mark), e)
      ensures !(old(owned[e] && owned[mark]) && e != mark) ==>
                Elems == old(Elems) && next == old(next) && prev == old(prev)
    {
      if !owned[e] || e == mark || !owned[mark] {
        return;
      }
      ghost var m := Pos(Elems, mark);
      assert LinkedAt(next, prev, Elems, m);
      PlaceBefore(Elems, e, mark, prev[mark].id, Without(Elems, e));
      move(e, prev[mark].id);
    }

    /** MoveAfter: when e and mark are distinct elements of this list, e ends up
        immediately after mark and the others keep their order; otherwise no change. */
    method MoveAfter(e: nat, mark: nat)
      requires Valid() && 0 < e < |next| && 0 < mark < |next|
      modifies this
      ensures Valid() && owned == old(owned) && value == old(value) && len == old(len)
      ensures old(owned[e] && owned[mark]) && e != mark ==>
                mark in Without(old(Elems), e) &&
                Elems == Splice(Without(old(Elems), e), Pos(Without(old(Elems), e), mark) + 1, e)
      ensures !(old(owned[e] && owned[mark]) && e != mark) ==>
                Elems == old(Elems) && next == old(next) && prev == old(prev)
    {
      if !owned[e] || e == mark || !owned[mark] {
        return;
      }
      PlaceAfter(Elems, e, mark);
      move(e, mark);
    }

    /** The state of PushBackList's loop with i copies still to make: OE and OV are other's
        elements and their values as they stood before the loop, E0, V0, value0 and owned0
        this list's; the |OE| - i copies made so far follow E0, e is the element of OE to
        copy next, and OE is still the front end of other's elements, also when other is
        this list. */
    ghost predicate Appending(other: List<T>, i: nat, e: Ptr, E0: seq<nat>, V0: seq<T>,
                              OE: seq<nat>, OV: seq<T>, value0: seq<T>, owned0: seq<bool>)
      reads this, other
    {
      && Valid() && next[0] != Nil && other.Valid() && i <= |OE| == |OV|
      && (other == this ==> OE == E0 && OV == V0)
      && (other != this ==>
            && StartsWith(other.Elems, OE)
            && (forall j :: 0 <= j < |OE| ==> OE[j] < |other.value|)
            && ValuesOf(other.value, OE) == OV)
      && |Elems| == |E0| + |OE| - i && StartsWith(Elems, E0) && Values() == V0 + OV[..|OE| - i]
      && (i > 0 ==> e == Ref(OE[|OE| - i]))
      && |value| == |value0| + |OE| - i && StartsWith(value, value0)
      && |owned| == |owned0| + |OE| - i && StartsWith(owned, owned0)
    }

    /** One round of PushBackList: a copy of the value of x goes in at the back; then the
        element after x in other is read. */
    method appendCopy(other: List<T>, x: nat, ghost i: nat, ghost E0: seq<nat>, ghost V0: seq<T>,
                      ghost OE: seq<nat>, ghost OV: seq<T>, ghost value0: seq<T>, ghost owned0: seq<bool>)
      returns (after: Ptr)
      requires i > 0 && Appending(other, i, Ref(x), E0, V0, OE, OV, value0, owned0)
      modifies this
      ensures Appending(other, i - 1, after, E0, V0, OE, OV, value0, owned0)
      ensures value == old(value) + [OV[|OE| - i]] && owned == old(owned) + [true]
      ensures |next| == old(|next|) + 1 && len == old(len) + 1
    {
      ghost var k := |OE| - i;
      ghost var es, vs, os := Elems, value, owned;
      RingLinks(next, prev, Elems, |Elems|);
      AppendStep(V0, OV, k, |Elems|);
      if other == this {
        ValueAt(value, Elems, [], V0 + OV[..k], k);
      }
      var v := other.value[x];
      assert v == OV[k];
      var n := insertValue(v, prev[0].id, |Elems|);
      StartsWithKept(vs, value0, v);
      StartsWithKept(os, owned0, true);
      StartsWithSpliced(es, E0, n);
      other.HeadAt(OE, k);
      after := other.Next(x);
    }

    /** PushBackList: copies of the values of other, front to back, appended at the back;
        the number of copies is fixed by other's length before the loop starts, so copying
        a list into itself doubles it. */
    method PushBackList(other: List<T>)
      requires Valid() && other.Valid()
      modifies this
      ensures Valid() && len == old(len) + old(other.len)
      ensures |Elems| == |old(Elems)| + |old(other.Elems)| && Elems[..|old(Elems)|] == old(Elems)
      ensures Values() == old(Values()) + old(other.Values())
      ensures |next| == old(|next|) + old(other.len)
      ensures value[..old(|value|)] == old(value) && owned[..old(|owned|)] == old(owned)
    {
      lazyInit();
      ghost var E0, V0 := Elems, Values();
      ghost var OE, OV := other.Elems, other.Values();
      ghost var value0, owned0 := value, owned;
      var i, e := other.Len(), other.Front();
      AppendingStart(other);
      appendAll(other, i, e, E0, V0, OE, OV, value0, owned0);
      AppendingDone(other, E0, V0, OE, OV, value0, owned0);
    }

    /** The state PushBackList's loop starts from. */
    lemma AppendingStart(other: List<T>)
      requires Valid() && next[0] != Nil && other.Valid()
      ensures Appending(other, other.Len(), other.Front(), Elems, Values(), other.Elems, other.Values(), value, owned)
    {
      assert Values() + other.Values()[..0] == Values();
    }

    /** What PushBackList's loop leaves behind. */
    lemma AppendingDone(other: List<T>, E0: seq<nat>, V0: seq<T>, OE: seq<nat>, OV: seq<T>,
                        value0: seq<T>, owned0: seq<bool>)
      requires Appending(other, 0, Nil, E0, V0, OE, OV, value0, owned0)
      ensures Valid() && |Elems| == |E0| + |OE| && Elems[..|E0|] == E0 && Values() == V0 + OV
      ensures value[..|value0|] == value0 && owned[..|owned0|] == owned0
    {
      assert OV[..|OE|] == OV;
    }

    /** The loop of PushBackList, from count copies still to make with from the element
        to copy next. */
    method appendAll(other: List<T>, count: nat, from: Ptr, ghost E0: seq<nat>, ghost V0: seq<T>,
                     ghost OE: seq<nat>, ghost OV: seq<T>, ghost value0: seq<T>, ghost owned0: seq<bool>)
      requires Appending(other, count, from, E0, V0, OE, OV, value0, owned0)
      modifies this
      ensures Appending(other, 0, Nil, E0, V0, OE, OV, value0, owned0)
    {
      var i: nat, e := count, from;
      while i > 0
        invariant Appending(other, i, e, E0, V0, OE, OV, value0, owned0)
      {
        e := appendCopy(other, e.id, i, E0, V0, OE, OV, value0, owned0);
        i := i - 1;
      }
    }

    /** The state of PushFrontList's loop with i copies still to make, as for Appending:
        the |OE| - i copies made so far come before E0, e is the element of OE to copy
        next, and OE is still the tail end of other's elements. */
    ghost predicate Prepending(other: List<T>, i: nat, e: Ptr, E0: seq<nat>, V0: seq<T>,
                               OE: seq<nat>, OV: seq<T>, value0: seq<T>, owned0: seq<bool>)
      reads this, other
    {
      && Valid() && next[0] != Nil && other.Valid() && i <= |OE| == |OV|
      && (other == this ==> OE == E0 && OV == V0)
      && (other != this ==>
            && EndsWith(other.Elems, OE)
            && (forall j :: 0 <= j < |OE| ==> OE[j] < |other.value|)
            && ValuesOf(other.value, OE) == OV)
      && |Elems| == |OE| - i + |E0| && EndsWith(Elems, E0) && Values() == OV[i..] + V0
      && (i > 0 ==> e == Ref(OE[i - 1]))
      && |value| == |value0| + |OE| - i && StartsWith(value, value0)
      && |owned| == |owned0| + |OE| - i && StartsWith(owned, owned0)
    }

    /** One round of PushFrontList: a copy of the value of x goes in at the front; then the
        element before x in other is read. */
    method prependCopy(other: List<T>, x: nat, ghost i: nat, ghost E0: seq<nat>, ghost V0: seq<T>,
                       ghost OE: seq<nat>, ghost OV: seq<T>, ghost value0: seq<T>, ghost owned0: seq<bool>)
      returns (before: Ptr)
      requires i > 0 && Prepending(other, i, Ref(x), E0, V0, OE, OV, value0, owned0)
      modifies this
      ensures Prepending(other, i - 1, before, E0, V0, OE, OV, value0, owned0)
      ensures value == old(value) + [OV[i - 1]] && owned == old(owned) + [true]
      ensures |next| == old(|next|) + 1 && len == old(len) + 1
    {
      ghost var es, vs, os := Elems, value, owned;
      PrependStep(OV, V0, i);
      if other == this {
        EndsWithAt(Elems, E0, i - 1);
        ValueAt(value, Elems, OV[i..], V0, i - 1);
      }
      var v := other.value[x];
      assert v == OV[i - 1];
      var n := insertValue(v, 0, 0);
      StartsWithKept(vs, value0, v);
      StartsWithKept(os, owned0, true);
      EndsWithKept(es, E0, n);
      other.TailAt(OE, i - 1);
      before := other.Prev(x);
    }

    /** PushFrontList: copies of the values of other, front to back, inserted at the front
        by walking other from its back; the number of copies is fixed before the loop, so
        copying a list into itself doubles it. */
    method PushFrontList(other: List<T>)
      requires Valid() && other.Valid()
      modifies this
      ensures Valid() && len == old(len) + old(other.len)
      ensures |Elems| == |old(other.Elems)| + |old(Elems)| && Elems[|old(other.Elems)|..] == old(Elems)
      ensures Values() == old(other.Values()) + old(Values())
      ensures |next| == old(|next|) + old(other.len)
      ensures value[..old(|value|)] == old(value) && owned[..old(|owned|)] == old(owned)
    {
      lazyInit();
      ghost var E0, V0 := Elems, Values();
      ghost var OE, OV := other.Elems, other.Values();
      ghost var value0, owned0 := value, owned;
      var i, e := other.Len(), other.Back();
      PrependingStart(other);
      prependAll(other, i, e, E0, V0, OE, OV, value0, owned0);
      PrependingDone(other, E0, V0, OE, OV, value0, owned0);
    }

    /** The state PushFrontList's loop starts from. */
    lemma PrependingStart(other: List<T>)
      requires Valid() && next[0] != Nil && other.Valid()
      ensures Prepending(other, other.Len(), other.Back(), Elems, Values(), other.Elems, other.Values(), value, owned)
    {
      assert other.Values()[other.Len()..] + Values() == Values();
    }

    /** What PushFrontList's loop leaves behind. */
    lemma PrependingDone(other: List<T>, E0: seq<nat>, V0: seq<T>, OE: seq<nat>, OV: seq<T>,
                         value0: seq<T>, owned0: seq<bool>)
      requires Prepending(other, 0, Nil, E0, V0, OE, OV, value0, owned0)
      ensures Valid() && |Elems| == |OE| + |E0| && Elems[|OE|..] == E0 && Values() == OV + V0
      ensures value[..|value0|] == value0 && owned[..|owned0|] == owned0
    {
      assert OV[0..] == OV;
    }

    /** The loop of PushFrontList, from count copies still to make with from the element
        to copy next. */
    method prependAll(other: List<T>, count: nat, from: Ptr, ghost E0: seq<nat>, ghost V0: seq<T>,
                      ghost OE: seq<nat>, ghost OV: seq<T>, ghost value0: seq<T>, ghost owned0: seq<bool>)
      requires Prepending(other, count, from, E0, V0, OE, OV, value0, owned0)
      modifies this
      ensures Prepending(other, 0, Nil, E0, V0, OE, OV, value0, owned0)
    {
      var i: nat, e := count, from;
      while i > 0
        invariant Prepending(other, i, e, E0, V0, OE, OV, value0, owned0)
      {
        e := prependCopy(other, e.id, i, E0, V0, OE, OV, value0, owned0);
        i := i - 1;
      }
    }
  }

  /** New: a fresh, initialised, empty list. */
  method New<T(0)>() returns (l: List<T>)
    ensures fresh(l) && l.Valid() && l.Elems == [] && l.Len() == 0
    ensures l.next == [Ref(0)] && l.prev == [Ref(0)]
  {
    l := new List();
    l.Init();
  }
}
