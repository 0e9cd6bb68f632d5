/** A fixed-capacity ring buffer (circular_buffer.go).

    The buffer keeps its items in a fixed array `data`, a read cursor, a write cursor and a
    `full` flag that tells the "full" layout (cursors equal, every slot in use) apart from the
    "empty" layout (cursors equal, nothing stored). The ghost field `Contents` is the logical
    content, oldest item first; every operation is specified as an edit of `Contents`. */
module CircularBuffers {

  /** `x` reduced once modulo `c`: the position `x` when it may have run past the end of the
      array by less than one lap. */
  function Wrap(x: nat, c: nat): (r: nat)
    requires x < 2 * c || c == 0
    ensures c > 0 ==> r < c
  {
    if x < c then x else x - c
  }

  /** Advancing a cursor with Go's `(pos + 1) % capacity` is the same as wrapping `pos + 1`. */
  lemma AdvanceWraps(pos: nat, c: nat)
    requires pos < c
    ensures (pos + 1) % c == Wrap(pos + 1, c)
  {
    if pos + 1 == c {
      assert (pos + 1) % c == 0;
    }
  }

  lemma SmallMod(d: int, c: int)
    requires 0 <= d < c
    ensures d % c == d
  {
  }

  /** Euclidean `%` of a difference that went below zero by less than one lap. */
  lemma NegativeMod(d: int, c: int)
    requires 0 < c && -c < d < 0
    ensures d % c == d + c
  {
  }

  /** The abstract effect of Put on the logical contents `s` of a buffer of capacity `cap`:
      nothing at capacity 0; otherwise `x` is appended, the oldest item being dropped first
      when the buffer was full. */
  function PutSpec<T>(s: seq<T>, cap: nat, x: T): (r: seq<T>)
  {
    if cap == 0 then s
    else if |s| >= cap then s[1..] + [x]
    else s + [x]
  }

  /** Putting every item of `xs` in turn. */
  function PutAll<T>(s: seq<T>, cap: nat, xs: seq<T>): (r: seq<T>)
    decreases |xs|
  {
    if xs == [] then s else PutAll(PutSpec(s, cap, xs[0]), cap, xs[1..])
  }

  /** The newest `cap` items of `t` (all of `t` when it is short enough). */
  function Newest<T>(t: seq<T>, cap: nat): (r: seq<T>)
    ensures |r| <= cap && |r| <= |t|
    ensures |r| == if |t| <= cap then |t| else cap
  {
    if |t| <= cap then t else t[|t| - cap..]
  }

  lemma NewestDropsHead<T>(t: seq<T>, cap: nat)
    requires |t| > cap
    ensures Newest(t[1..], cap) == Newest(t, cap)
  {
    if |t| - 1 > cap {
      assert t[1..][|t| - 1 - cap..] == t[|t| - cap..];
    }
  }

  /** One Put and then the newest `cap` of the rest: the same as the newest `cap` of all. */
  lemma PutThenNewest<T>(s: seq<T>, cap: nat, xs: seq<T>)
    requires 0 < cap && |s| <= cap && xs != []
    ensures |PutSpec(s, cap, xs[0])| <= cap
    ensures Newest(PutSpec(s, cap, xs[0]) + xs[1..], cap) == Newest(s + xs, cap)
  {
    assert xs == [xs[0]] + xs[1..];
    if |s| == cap {
      assert (s + xs)[1..] == s[1..] + [xs[0]] + xs[1..];
      NewestDropsHead(s + xs, cap);
    } else {
      assert s + [xs[0]] + xs[1..] == s + xs;
    }
  }

  /** A ring buffer keeps exactly the newest `cap` items ever put into it: after any series of
      Puts on a buffer holding `s`, the contents are the last `cap` items of `s + xs`. */
  lemma {:induction false} PutAllKeepsNewest<T>(s: seq<T>, cap: nat, xs: seq<T>)
    requires 0 < cap && |s| <= cap
    ensures PutAll(s, cap, xs) == Newest(s + xs, cap)
    decreases |xs|
  {
    if xs != [] {
      PutThenNewest(s, cap, xs);
      PutAllKeepsNewest(PutSpec(s, cap, xs[0]), cap, xs[1..]);
    }
  }

  /** `items` sits in the slots of `slots` from `start` on, wrapping once at the end. */
  ghost predicate LaidOut<T>(items: seq<T>, slots: seq<T>, start: nat)
  {
    && |items| <= |slots|
    && (|slots| > 0 ==> start < |slots|)
    && forall i :: 0 <= i < |items| ==> items[i] == slots[Wrap(start + i, |slots|)]
  }

  /** Writing `x` into the first free slot appends it to a layout that is not full. */
  lemma LaidOutAppend<T>(items: seq<T>, slots: seq<T>, start: nat, x: T, free: nat)
    requires LaidOut(items, slots, start) && |items| < |slots|
    requires free == Wrap(start + |items|, |slots|)
    ensures LaidOut(items + [x], slots[free := x], start)
  {
  }

  /** Overwriting the oldest slot of a full layout and moving the start on by one drops the
      oldest item and appends `x`. */
  lemma LaidOutOverwrite<T>(items: seq<T>, slots: seq<T>, start: nat, x: T, next: nat)
    requires LaidOut(items, slots, start) && |items| == |slots| > 0
    requires next == Wrap(start + 1, |slots|)
    ensures LaidOut(items[1..] + [x], slots[start := x], next)
  {
    var c, items' := |slots|, items[1..] + [x];
    forall i | 0 <= i < |items'|
      ensures items'[i] == slots[start := x][Wrap(Wrap(start + 1, c) + i, c)]
    {
      if i < c - 1 {
        assert items'[i] == items[i + 1];
        assert Wrap(Wrap(start + 1, c) + i, c) == Wrap(start + i + 1, c) != start;
      } else {
        assert Wrap(Wrap(start + 1, c) + i, c) == start;
      }
    }
  }

  /** Moving the start on by one drops the oldest item. */
  lemma LaidOutDropFirst<T>(items: seq<T>, slots: seq<T>, start: nat)
    requires LaidOut(items, slots, start) && |items| > 0
    ensures LaidOut(items[1..], slots, Wrap(start + 1, |slots|))
  {
    var c := |slots|;
    forall i | 0 <= i < |items| - 1
      ensures items[1..][i] == slots[Wrap(Wrap(start + 1, c) + i, c)]
    {
      assert Wrap(Wrap(start + 1, c) + i, c) == Wrap(start + i + 1, c);
    }
  }

  class CircularBuffer<T(0)> {
    /** The logical contents, oldest first. */
    ghost var Contents: seq<T>

    const data: array<T>
    const capacity: nat
    var full: bool
    var readPos: nat
    var writePos: nat
    /** Go's zero value of `T`: what a failed Pop or Peek returns and what Clear writes. */
    const zero: T

    ghost predicate Valid()
      reads this
    {
      && data.Length == capacity
      && (capacity == 0 ==> readPos == 0 && writePos == 0)
      && (capacity > 0 ==> readPos < capacity && writePos < capacity)
      && |Contents| <= capacity
      && (full <==> capacity > 0 && |Contents| == capacity)
      && writePos == Wrap(readPos + |Contents|, capacity)
    }

    /** The array holds `Contents` from the read cursor on, wrapping at the end. */
    ghost predicate Laid()
      reads this, data
    {
      LaidOut(Contents, data[..], readPos)
    }

    /** NewCircularBuffer: `capacity` zero-valued slots, both cursors at 0, not full. */
    constructor (capacity: nat)
      ensures Valid() && Laid() && fresh(data)
      ensures this.capacity == capacity && Contents == []
      ensures readPos == 0 && writePos == 0 && !full
      ensures forall i :: 0 <= i < data.Length ==> data[i] == zero
    {
      var z: T := *;
      zero := z;
      data := new T[capacity](_ => z);
      this.capacity := capacity;
      readPos, writePos, full := 0, 0, false;
      Contents := [];
    }

    /** The helper `empty`: cursors equal and not full. */
    function Empty(): (b: bool)
      reads this
      requires Valid()
      ensures b <==> Contents == []
    {
      !full && readPos == writePos
    }

    /** `full` is set exactly when every slot holds a live item (never at capacity 0). */
    function Full(): (b: bool)
      reads this
      requires Valid()
      ensures b <==> capacity > 0 && |Contents| == capacity
    {
      full
    }

    function Capacity(): (c: nat)
      reads this
      requires Valid()
      ensures c == data.Length && |Contents| <= c
    {
      capacity
    }

    /** The helper `size`: the capacity when full, otherwise the cursor distance around the ring. */
    function Size(): (n: nat)
      reads this
      requires Valid()
      ensures n == |Contents| && n <= capacity
    {
      if full then capacity
      else if writePos >= readPos then writePos - readPos
      else capacity - readPos + writePos
    }

    /** The size is the write cursor minus the read cursor, taken modulo the capacity,
        unless the buffer is full. */
    lemma SizeIsCursorDistance()
      requires Valid() && capacity > 0
      ensures Size() == if full then capacity else (writePos - readPos) % capacity
    {
      if !full {
        if writePos >= readPos {
          SmallMod(writePos - readPos, capacity);
        } else {
          NegativeMod(writePos - readPos, capacity);
        }
      }
    }

    /** The cursor step `(pos + 1) % capacity`: the next slot, wrapping to 0 after the last. */
    method advance(pos: nat) returns (r: nat)
      requires pos < capacity
      ensures r == Wrap(pos + 1, capacity)
    {
      AdvanceWraps(pos, capacity);
      r := (pos + 1) % capacity;
    }

    /** Put: fails only at capacity 0; otherwise appends `item`, overwriting the oldest item
        when the buffer is full. */
    method Put(item: T) returns (ok: bool)
      requires Valid() && Laid()
      modifies this, data
      ensures Valid() && Laid()
      ensures ok <==> capacity > 0
      ensures Contents == PutSpec(old(Contents), capacity, item)
      ensures !ok ==> readPos == old(readPos) && writePos == old(writePos) && full == old(full)
                      && data[..] == old(data[..])
      ensures ok ==> data[..] == old(data[..])[old(writePos) := item]
      ensures ok ==> readPos == (if old(full) then Wrap(old(readPos) + 1, capacity) else old(readPos))
      ensures ok ==> writePos == Wrap(old(writePos) + 1, capacity)
      ensures full <==> old(full) || (ok && writePos == readPos)
    {
      if capacity == 0 {
        return false;
      }
      if full {
        var next := advance(readPos);
        LaidOutOverwrite(Contents, data[..], readPos, item, next);
        readPos := next;
        Contents := Contents[1..];
      } else {
        LaidOutAppend(Contents, data[..], readPos, item, writePos);
      }
      data[writePos] := item;
      writePos := advance(writePos);
      Contents := Contents + [item];
      if writePos == readPos && !full {
        full := true;
      }
      return true;
    }

    /** Pop: fails on an empty buffer (returning the zero value); otherwise returns the oldest
        item, advances the read cursor and clears `full`. */
    method Pop() returns (item: T, ok: bool)
      requires Valid() && Laid()
      modifies this
      ensures Valid() && Laid() && writePos == old(writePos)
      ensures ok <==> old(Contents) != []
      ensures !ok ==> item == zero && Contents == old(Contents)
                      && readPos == old(readPos) && full == old(full)
      ensures ok ==> item == old(Contents)[0] && item == data[old(readPos)]
                     && Contents == old(Contents)[1..]
                     && readPos == Wrap(old(readPos) + 1, capacity) && !full
    {
      if Empty() {
        return zero, false;
      }
      item := data[readPos];
      LaidOutDropFirst(Contents, data[..], readPos);
      readPos := advance(readPos);
      Contents := Contents[1..];
      if full {
        full := false;
      }
      ok := true;
    }

    /** Peek: what Pop would return, without changing anything. */
    method Peek() returns (item: T, ok: bool)
      requires Valid() && Laid()
      ensures ok <==> Contents != []
      ensures !ok ==> item == zero
      ensures ok ==> item == Contents[0]
    {
      if Empty() {
        return zero, false;
      }
      item := data[readPos];
      ok := true;
    }

    /** View: the live items oldest to newest (empty when the buffer is empty), reassembled from
        the contiguous or the wrapped layout. */
    method View() returns (v: seq<T>)
      requires Valid() && Laid()
      ensures v == Contents
      ensures |v| == Size()
    {
      if Empty() {
        return [];
      }
      if full {
        v := data[readPos..] + data[..writePos];
      } else if writePos > readPos {
        v := data[readPos..writePos];
      } else {
        v := data[readPos..] + data[..writePos];
      }
      assert |v| == |Contents|;
      forall i | 0 <= i < |v|
        ensures v[i] == Contents[i]
      {
      }
    }

    /** Clear: both cursors back to 0, `full` cleared, every slot reset to the zero value. */
    method Clear()
      requires Valid()
      modifies this, data
      ensures Valid() && Laid()
      ensures Contents == [] && readPos == 0 && writePos == 0 && !full
      ensures forall i :: 0 <= i < data.Length ==> data[i] == zero
    {
      readPos := 0;
      writePos := 0;
      full := false;
      Contents := [];
      for i := 0 to data.Length
        modifies data
        invariant forall j :: 0 <= j < i ==> data[j] == zero
      {
        data[i] := zero;
      }
    }
  }

  /** Putting 1, 2, 3, 4 into a buffer of capacity 3 overwrites 1 in slot 0: the slots read
      [4, 2, 3], both cursors stand at 1, the buffer is full, the view is [2, 3, 4] and the
      size stays at the capacity. */
  method OverwriteScenario() returns (slots: seq<int>, readPos: nat, writePos: nat, full: bool,
                                      v: seq<int>, size: nat)
    ensures slots == [4, 2, 3] && readPos == 1 && writePos == 1 && full
    ensures v == [2, 3, 4] && size == 3
  {
    var cb := new CircularBuffer<int>(3);
    var ok := cb.Put(1);
    ok := cb.Put(2);
    ok := cb.Put(3);
    ok := cb.Put(4);
    slots, readPos, writePos, full := cb.data[..], cb.readPos, cb.writePos, cb.full;
    v := cb.View();
    size := cb.Size();
  }

  /** Items come out in the order they were put, also after the buffer was emptied and the
      cursors have moved on. */
  method FifoScenario() returns (a: int, b: int, c: int, d: int, ok: bool)
    ensures a == 1 && b == 2 && c == 3 && d == 4 && ok
  {
    var cb := new CircularBuffer<int>(3);
    var put := cb.Put(1);
    put := cb.Put(2);
    var ok1, ok2, ok3;
    a, ok1 := cb.Pop();
    b, ok2 := cb.Pop();
    put := cb.Put(3);
    put := cb.Put(4);
    c, ok3 := cb.Pop();
    d, ok := cb.Pop();
    ok := ok && ok1 && ok2 && ok3;
  }

  /** At capacity 0 every Put fails and the buffer stays empty. */
  method ZeroCapacityScenario() returns (ok: bool, empty: bool)
    ensures !ok && empty
  {
    var cb := new CircularBuffer<int>(0);
    ok := cb.Put(1);
    empty := cb.Empty();
  }
}
