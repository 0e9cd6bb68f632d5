/** The integer-priority variant of the heap priority queue.

    Its queue is the heap of module `PriorityQueues` with the priority type fixed to `int`:
    the same slots, cursor, `swim`, `sink`, `less` and `exch`, so this module adds no second
    heap. It provides the variant's constructor and the behaviour its own tests pin down:
    the slot layouts after pushes, the order of successive pops and what Head reports. */
module PQueues {
  import PriorityQueues

  type PriorityQueue<T(0)> = PriorityQueues.PriorityQueue<T, int>

  /** NewPriorityQueue: an empty queue ordered by `heuristic`, which must be a strict
      total order on the priorities. */
  method NewPriorityQueue<T(0)>(heuristic: (int, int) -> bool) returns (pq: PriorityQueue<T>)
    requires PriorityQueues.StrictTotalOrder(heuristic)
    ensures fresh(pq) && pq.Valid()
    ensures pq.items == [PriorityQueues.Nil] && pq.itemCount == 0 && pq.comparator == heuristic
  {
    pq := new PriorityQueues.PriorityQueue(heuristic);
  }

  /** A fresh queue holds only the unused slot 0 and reports size 0. */
  method InitScenario() returns (slots: nat, size: nat, slot0: PriorityQueues.Slot<string, int>)
    ensures slots == 1 && size == 0 && slot0 == PriorityQueues.Nil
  {
    PriorityQueues.MaximumIsStrictTotalOrder();
    var pq := NewPriorityQueue<string>(PriorityQueues.Maximum);
    slots, size, slot0 := |pq.items|, pq.Size(), pq.items[0];
  }

  /** Pushing ("1",1), ("2",2), ("3",3) leaves ["3","1","2"] after slot 0 under Maximum and
      ["1","2","3"] under Minimum. */
  method PushOrderScenario() returns (maxItems: seq<PriorityQueues.Slot<string, int>>,
                                      minItems: seq<PriorityQueues.Slot<string, int>>)
    ensures maxItems == [PriorityQueues.Nil, PriorityQueues.Item("3", 3),
                         PriorityQueues.Item("1", 1), PriorityQueues.Item("2", 2)]
    ensures minItems == [PriorityQueues.Nil, PriorityQueues.Item("1", 1),
                         PriorityQueues.Item("2", 2), PriorityQueues.Item("3", 3)]
  {
    PriorityQueues.MaximumLayouts("1", "2", "3");
    PriorityQueues.MinimumLayouts("1", "2", "3");
    PriorityQueues.MaximumIsStrictTotalOrder();
    PriorityQueues.MinimumIsStrictTotalOrder();
    var mx := NewPriorityQueue<string>(PriorityQueues.Maximum);
    mx.Push("1", 1);
    mx.Push("2", 2);
    mx.Push("3", 3);
    maxItems := mx.items;
    var mn := NewPriorityQueue<string>(PriorityQueues.Minimum);
    mn.Push("1", 1);
    mn.Push("2", 2);
    mn.Push("3", 3);
    minItems := mn.items;
  }

  /** After the same pushes, three pops return the entries from the highest priority down
      under Maximum and from the lowest up under Minimum, and empty the queue. */
  method PopOrderScenario() returns (maxPopped: seq<(string, int)>, minPopped: seq<(string, int)>)
    ensures maxPopped == [("3", 3), ("2", 2), ("1", 1)]
    ensures minPopped == [("1", 1), ("2", 2), ("3", 3)]
  {
    PriorityQueues.MaximumLayouts("1", "2", "3");
    PriorityQueues.MinimumLayouts("1", "2", "3");
    PriorityQueues.MaximumIsStrictTotalOrder();
    PriorityQueues.MinimumIsStrictTotalOrder();
    var mx := NewPriorityQueue<string>(PriorityQueues.Maximum);
    mx.Push("1", 1);
    mx.Push("2", 2);
    mx.Push("3", 3);
    var v1, p1, ok1 := mx.Pop();
    var v2, p2, ok2 := mx.Pop();
    var v3, p3, ok3 := mx.Pop();
    maxPopped := [(v1, p1), (v2, p2), (v3, p3)];
    var mn := NewPriorityQueue<string>(PriorityQueues.Minimum);
    mn.Push("1", 1);
    mn.Push("2", 2);
    mn.Push("3", 3);
    v1, p1, ok1 := mn.Pop();
    v2, p2, ok2 := mn.Pop();
    v3, p3, ok3 := mn.Pop();
    minPopped := [(v1, p1), (v2, p2), (v3, p3)];
  }

  /** Head reports the highest entry under Maximum and the lowest under Minimum, and
      leaves all three entries in the queue. */
  method HeadScenario() returns (maxHead: (string, int), maxSize: nat, minHead: (string, int), minSize: nat)
    ensures maxHead == ("3", 3) && maxSize == 3
    ensures minHead == ("1", 1) && minSize == 3
  {
    PriorityQueues.MaximumLayouts("1", "2", "3");
    PriorityQueues.MinimumLayouts("1", "2", "3");
    PriorityQueues.MaximumIsStrictTotalOrder();
    PriorityQueues.MinimumIsStrictTotalOrder();
    var mx := NewPriorityQueue<string>(PriorityQueues.Maximum);
    mx.Push("1", 1);
    mx.Push("2", 2);
    mx.Push("3", 3);
    var v, p, ok := mx.Head();
    maxHead, maxSize := (v, p), mx.Size();
    var mn := NewPriorityQueue<string>(PriorityQueues.Minimum);
    mn.Push("1", 1);
    mn.Push("2", 2);
    mn.Push("3", 3);
    v, p, ok := mn.Head();
    minHead, minSize := (v, p), mn.Size();
  }
}
