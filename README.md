# lane: ring buffer, heap priority queues and doubly linked list

This project models three data structures from the Go library `lane`:

- the fixed-capacity circular buffer;
- the binary-heap priority queue, both in its generic form and in its integer-priority variant;
- the sentinel-rooted doubly linked list.

Each model is imperative, like the Go code. Its operations change fields in place, and each
is proved against a specification of the abstract state.

- **`CircularBuffers`** (`circular_buffer.dfy`). The class keeps Go's layout: the slot array
  `data`, a read cursor, a write cursor and the `full` flag that tells a full buffer apart
  from an empty one when the cursors are equal.
  - A ghost `Contents` holds the live items, oldest first. `Valid` and `Laid` tie `Contents`
    to the cursors and slots.
  - Every operation is proved to be a plain edit of `Contents`.
  - Put is proved to keep exactly the newest `capacity` items ever put
    (`PutAllKeepsNewest`).
- **`PriorityQueues`** (`priority_queue.dfy`). The heap sits in a slice whose slot 0 is
  unused (`Nil`); the parent of slot k is slot k / 2.
  - The `swim` and `sink` loops are proved equal to the recursive functions `Swim` and
    `Sink`.
  - Lemmas prove that these functions only permute the slots and that they restore the heap
    order.
  - So Push and Pop keep the heap valid, add or remove exactly one entry, and Pop and Head
    return an entry that no remaining entry beats.
  - The comparator must be a strict total order. `Maximum` (`<`) and `Minimum` (`>`) on
    integers are proved to be such orders.
- **`PQueues`** (`pqueue.dfy`). The integer-priority variant is the same heap with
  priorities fixed to `int`, so this module adds no second heap. It covers the variant's
  constructor and the behaviour its tests pin down.
- **`Lists`** (`list.dfy`). The list owns an arena of element slots. Slot 0 is the embedded
  root sentinel.
  - The fields `next`, `prev`, `owned` (the element's `list` back-link points at this list)
    and `value` are sequences indexed by slot.
  - A ghost `Elems` lists the live elements from front to back. `Ring` states that following
    `next` from the root visits exactly `Elems` in order and comes back to the root, and that
    `prev` is the mirror image (`RingWalk`).
  - Every operation is proved to perform the edit of `Elems` it promises: a splice, a
    removal, or a move to a new position.

## Model

| member | source | states |
|---|---|---|
| CircularBuffers.CircularBuffer.constructor | circular_buffer.go:37-44 | a new buffer has `capacity` slots all holding the zero value, both cursors at 0, is not full and holds nothing |
| CircularBuffers.AdvanceWraps | circular_buffer.go:61-67 | Go's cursor step `(pos + 1) % capacity` equals `pos + 1` reduced by one lap: the next slot, or 0 after the last |
| CircularBuffers.CircularBuffer.advance | circular_buffer.go:93 | the cursor step returns the slot after `pos`, wrapping to 0 after the last slot |
| CircularBuffers.LaidOutAppend | circular_buffer.go:64-67 | when the buffer is not full, writing the item at the write cursor appends it to the live items |
| CircularBuffers.LaidOutOverwrite | circular_buffer.go:60-67 | when the buffer is full, moving the read cursor on and overwriting its old slot drops the oldest item and appends the new one |
| CircularBuffers.LaidOutDropFirst | circular_buffer.go:90-93 | moving the read cursor on by one drops exactly the oldest live item |
| CircularBuffers.CircularBuffer.Put | circular_buffer.go:52-74 | fails, changing nothing, exactly at capacity 0; otherwise writes the item at the write cursor, advances it, advances the read cursor only when the buffer was full, and sets `full` when the cursors meet; the contents become the old contents plus the item, with the oldest dropped when full |
| CircularBuffers.PutThenNewest | circular_buffer.go:52-74 | one Put followed by the remaining items keeps the same newest `capacity` items as all of them together |
| CircularBuffers.PutAllKeepsNewest | circular_buffer.go:5-10 | after any series of Puts, the buffer holds exactly the last `capacity` items of everything it held or was given, oldest first |
| CircularBuffers.CircularBuffer.Pop | circular_buffer.go:82-101 | fails on an empty buffer and returns the zero value, changing nothing; otherwise returns the oldest item (the slot at the read cursor), advances the read cursor, leaves the write cursor and clears `full` |
| CircularBuffers.CircularBuffer.Peek | circular_buffer.go:108-119 | returns what Pop would return (the oldest item, or the zero value and false when empty) |
| CircularBuffers.CircularBuffer.View | circular_buffer.go:123-140 | the contiguous and the wrapped slices both yield exactly the live items, oldest first, and as many as Size |
| CircularBuffers.CircularBuffer.Clear | circular_buffer.go:146-158 | both cursors back to 0, not full, no live items, every slot reset to the zero value |
| CircularBuffers.CircularBuffer.Size | circular_buffer.go:195-205 | the full/contiguous/wrapped cases of the cursor arithmetic all give the number of live items, never above the capacity |
| CircularBuffers.CircularBuffer.SizeIsCursorDistance | circular_buffer.go:160-168 | unless full, the size is the write cursor minus the read cursor taken modulo the capacity |
| CircularBuffers.CircularBuffer.Full | circular_buffer.go:175-183 | `full` holds exactly when every slot holds a live item, which never happens at capacity 0 |
| CircularBuffers.CircularBuffer.Empty | circular_buffer.go:207-216 | equal cursors and not full hold exactly when there are no live items |
| CircularBuffers.CircularBuffer.Capacity | circular_buffer.go:170-173 | the capacity is the number of slots and bounds the number of live items |
| CircularBuffers.OverwriteScenario | circular_buffer_test.go:48-63 | putting 1, 2, 3, 4 at capacity 3 leaves the slots [4, 2, 3], both cursors at 1 and the buffer full; the view is then [2, 3, 4] and the size 3 |
| CircularBuffers.FifoScenario | circular_buffer_test.go:158-181 | after two Puts and two Pops, Puts of 3 and 4 come out as 3 then 4 |
| CircularBuffers.ZeroCapacityScenario | circular_buffer_test.go:9-17 | at capacity 0 Put fails and the buffer stays empty |
| PriorityQueues.Minimum | priority_queue.go:55-61 | an entry is never worse than one of equal priority; of two different priorities exactly one side is worse: lhs when it is the greater, and never when rhs is the greater |
| PriorityQueues.Maximum | priority_queue.go:47-53 | `Maximum` is `Minimum` with its arguments swapped, so lhs is worse exactly when rhs is the greater |
| PriorityQueues.MaximumIsStrictTotalOrder | priority_queue.go:47-53 | `Maximum` (`lhs < rhs`) is irreflexive, transitive and total, so it orders a heap |
| PriorityQueues.MinimumIsStrictTotalOrder | priority_queue.go:55-61 | `Minimum` (`lhs > rhs`) is irreflexive, transitive and total, so it orders a heap |
| PriorityQueues.PriorityQueue.constructor | priority_queue.go:26-35 | a new queue holds only the unused slot 0, no entries, and keeps the given heuristic |
| PriorityQueues.NewMaxPriorityQueue | priority_queue.go:37-40 | a new empty queue ordered by `Maximum` |
| PriorityQueues.NewMinPriorityQueue | priority_queue.go:42-45 | a new empty queue ordered by `Minimum` |
| PriorityQueues.Exch | priority_queue.go:168-170 | the slots at the two positions trade places and no other slot changes |
| PriorityQueues.PriorityQueue.less | priority_queue.go:164-166 | comparing the slots at two positions: in an ordered heap a parent is never worse than its child, and under a strict total order two entries are never each worse than the other |
| PriorityQueues.ExchPermutes | priority_queue.go:168-170 | an exchange keeps the same multiset of slots |
| PriorityQueues.PriorityQueue.exch | priority_queue.go:168-170 | the method performs exactly that exchange and leaves the count alone |
| PriorityQueues.PriorityQueue.swim | priority_queue.go:133-138 | the loop ends in the state given by the recursive `Swim` from the starting slot |
| PriorityQueues.SwimPermutes | priority_queue.go:133-138 | swimming keeps slot 0 unused, the length, and the multiset of entries |
| PriorityQueues.SwimRestoresOrder | priority_queue.go:133-138 | swimming from k repairs a heap whose only fault lies between k and its parent |
| PriorityQueues.BetterChildWins | priority_queue.go:142-146 | the child `sink` picks (the right one only when strictly better) is not worse than any child of k |
| PriorityQueues.PriorityQueue.sink | priority_queue.go:140-155 | the loop ends in the state given by the recursive `Sink` from the starting slot |
| PriorityQueues.SinkPermutes | priority_queue.go:140-155 | sinking keeps slot 0 unused, the length, and the multiset of entries |
| PriorityQueues.SinkStepMovesFault | priority_queue.go:148-153 | exchanging k with a better child that beats it moves the only heap fault down to the child |
| PriorityQueues.SinkStopIsOrdered | priority_queue.go:148-150 | when the better child does not beat k, the heap is fully ordered |
| PriorityQueues.SinkRestoresOrder | priority_queue.go:140-155 | sinking from k repairs a heap whose only fault lies between k and its children |
| PriorityQueues.RootIsExtremal | priority_queue.go:100-117 | in a heap no entry beats the root: the root has the greatest priority under `Maximum` and the least under `Minimum` |
| PriorityQueues.PushKeepsHeap | priority_queue.go:63-73 | append-then-swim keeps the heap ordered, grows it by one and adds exactly the new entry |
| PriorityQueues.PopKeepsHeap | priority_queue.go:75-98 | exchange-truncate-sink keeps the heap ordered, shrinks it by one, removes exactly the root entry, and no remaining entry beats it |
| PriorityQueues.PriorityQueue.Push | priority_queue.go:65-73 | Push leaves a valid heap, one more entry, and the old entries plus the new one |
| PriorityQueues.PriorityQueue.Pop | priority_queue.go:78-98 | fails on an empty queue, returning the zero value and priority and changing nothing; otherwise returns the root entry, which no remaining entry beats, and leaves a valid heap holding the other entries |
| PriorityQueues.PriorityQueue.Head | priority_queue.go:103-117 | fails on an empty queue with zero values; otherwise returns the root entry, which no entry beats, without changing the queue |
| PriorityQueues.PriorityQueue.Size | priority_queue.go:119-124 | the count is the number of slots after the unused slot 0 |
| PriorityQueues.PriorityQueue.Empty | priority_queue.go:126-131 | empty exactly when only the unused slot 0 is left |
| PriorityQueues.PushOntoEmpty | priority_queue.go:65-73 | the first Push, under any comparator, gives the slots [nil, entry] |
| PriorityQueues.PopLastEntry | priority_queue.go:78-98 | popping the only entry leaves the slots [nil] |
| PriorityQueues.MaximumLayouts | priority_queue_test.go:32-46 | pushing priorities 1, 2, 3 under `Maximum` gives [nil, 3, 1, 2], and each following Pop leaves [nil, 2, 1], [nil, 1], [nil] |
| PriorityQueues.MinimumLayouts | priority_queue_test.go:48-62 | the same pushes under `Minimum` give [nil, 1, 2, 3], and the Pops leave [nil, 2, 3], [nil, 3], [nil] |
| PriorityQueues.MaximumPushSecond | priority_queue.go:133-138 | the second Push under `Maximum` swims the entry with priority 2 over the one with priority 1 |
| PriorityQueues.MaximumPushThird | priority_queue.go:133-138 | the third Push under `Maximum` swims the entry with priority 3 to the root |
| PriorityQueues.MaximumPopFirst | priority_queue.go:140-155 | the first Pop under `Maximum` sinks nothing: [nil, 2, 1] remains |
| PriorityQueues.MaximumPopSecond | priority_queue.go:78-98 | the second Pop under `Maximum` leaves [nil, 1] |
| PriorityQueues.MinimumPushSecond | priority_queue.go:133-138 | the second Push under `Minimum` leaves the entry in place |
| PriorityQueues.MinimumPushThird | priority_queue.go:133-138 | the third Push under `Minimum` leaves the entry in place |
| PriorityQueues.MinimumSinkRoot | priority_queue.go:140-155 | under `Minimum` sinking priority 3 from the root below priority 2 gives [nil, 2, 3] |
| PriorityQueues.MinimumPopFirst | priority_queue.go:78-98 | the first Pop under `Minimum` leaves [nil, 2, 3] |
| PriorityQueues.MinimumPopSecond | priority_queue.go:78-98 | the second Pop under `Minimum` leaves [nil, 3] |
| PriorityQueues.PushLayoutScenario | priority_queue_test.go:9-83 | the queues after the pushes of the Push tests hold exactly the expected slot layouts |
| PriorityQueues.PopLayoutScenario | priority_queue_test.go:96-181 | one Pop returns (c, 3) under `Maximum` and (a, 1) under `Minimum` and leaves the expected layouts |
| PriorityQueues.EmptyScenario | priority_queue_test.go:109-218 | Pop (the empty case at lines 109-120) and Head (the empty case at lines 207-218) on an empty queue fail and leave the slots [nil] |
| PQueues.NewPriorityQueue | pqueue.go:22-31 | a new integer-priority queue holds only the unused slot 0, no entries, and keeps the heuristic |
| PQueues.InitScenario | pqueue_test.go:8-24 | a new queue has one slot, size 0 and a nil slot 0 |
| PQueues.PushOrderScenario | pqueue_test.go:26-78 | pushing ("1",1), ("2",2), ("3",3) lays out ["3","1","2"] under `Maximum` and ["1","2","3"] under `Minimum` after slot 0 |
| PQueues.PopOrderScenario | pqueue_test.go:80-130 | successive Pops return 3, 2, 1 under `Maximum` and 1, 2, 3 under `Minimum` |
| PQueues.HeadScenario | pqueue_test.go:132-160 | Head returns ("3",3) under `Maximum` and ("1",1) under `Minimum`, and the size stays 3 |
| Lists.PlaceSplices | list.go:174-188 | moving e right after `at` is splicing e into the other elements right after `at` |
| Lists.ValuesSplice | list.go:160-162 | storing a value in a new element and splicing that element in splices the value into the list's values at the same position |
| Lists.RingLinks | list.go:190-197 | in a valid ring any two neighbours, the root included, point at each other |
| Lists.FollowNext | list.go:199-206 | following `next` from the element before position k walks the rest of the list in order |
| Lists.FollowPrev | list.go:208-215 | following `prev` from position k walks the earlier elements from back to front |
| Lists.RingWalk | list.go:3-7 | following `next` from the root visits every element once, front to back; following `prev` visits them back to front; the last element and the first point back at the root |
| Lists.RingGrow | list.go:160-162 | allocating a new detached element leaves the ring as it is |
| Lists.RingIgnoresDetached | list.go:149-158 | changing the links of an element outside the ring leaves the ring as it is |
| Lists.LinkKeepsRing | list.go:149-158 | linking a detached element after the element at position k - 1 puts it at position k of the ring |
| Lists.DistinctSplice | list.go:149-158 | inserting a new element keeps the list free of repeats |
| Lists.SplicePairs | list.go:149-158 | inserting a new element keeps the positions pairwise different |
| Lists.LinkedAfterLink | list.go:149-158 | after `insert`, every element of the new sequence is linked to its neighbours |
| Lists.LinkedBeforeLink | list.go:149-158 | after `insert`, the elements in front of the new one keep their links |
| Lists.LinkedBehindLink | list.go:149-158 | after `insert`, the elements behind the new one are linked to their new neighbours |
| Lists.UnlinkKeepsRing | list.go:164-166 | pointing the neighbours of position k at each other leaves a ring over the other elements |
| Lists.LinkedAfterUnlink | list.go:164-166 | after unlinking, every remaining element is linked to its neighbours |
| Lists.OwnedAfterLink | list.go:149-158 | after `insert`, exactly the live elements, the new one included, belong to the list |
| Lists.OwnedAfterUnlink | list.go:164-172 | after `remove`, the removed element no longer belongs to the list and its links are nil |
| Lists.PlaceBetween | list.go:108-115 | when mark is preceded by an element other than e, moving e after that element puts e immediately before mark |
| Lists.PlaceBefore | list.go:108-115 | moving e after the element preceding mark (the root when mark is first) puts e immediately before mark among the others |
| Lists.PlaceAfter | list.go:117-124 | moving e after mark puts e immediately after mark among the others |
| Lists.PlaceFirst | list.go:90-97 | moving e after the root puts it first |
| Lists.PlaceLast | list.go:99-106 | moving e after the last element other than e puts it last |
| Lists.MoveUnlinks | list.go:164-172 | unlinking the element at position k leaves a valid ring and ownership over the other elements |
| Lists.MoveLinks | list.go:182-185 | linking a detached element back in after the element at position j - 1 gives a valid ring with it at position j |
| Lists.MoveKeepsRing | list.go:174-188 | unlinking e and relinking it after `at` gives a ring over the list with e moved right after `at`, and keeps exactly the live elements owned |
| Lists.List.constructor | list.go:3-7 | the zero value of List has nil root links and no elements |
| Lists.List.Init | list.go:9-16 | the root is closed on itself, the length is 0, and the list holds no elements |
| Lists.New | list.go:18-21 | a new list is initialised and empty |
| Lists.List.lazyInit | list.go:143-147 | a zero-value list is initialised; an initialised list is left alone |
| Lists.List.Len | list.go:23-26 | the length is the number of live elements |
| Lists.List.Front | list.go:28-35 | nil for an empty list, otherwise the first element |
| Lists.List.Back | list.go:37-44 | nil for an empty list, otherwise the last element |
| Lists.List.Next | list.go:199-206 | nil when e is detached or last, otherwise the element after e |
| Lists.List.Prev | list.go:208-215 | nil when e is detached or first, otherwise the element before e |
| Lists.List.insert | list.go:149-158 | linking the detached e after the element at position k - 1 puts e at position k, makes it owned and adds one to the length |
| Lists.List.insertValue | list.go:160-162 | a new element holding v is inserted at position k, and v is inserted into the list's values at k |
| Lists.List.remove | list.go:164-172 | the element at position k is taken out, its links are nil, it is no longer owned, and the length drops by one |
| Lists.List.move | list.go:174-188 | moving e after itself changes nothing; otherwise e is taken out and put back right after `at`, and the length and ownership are unchanged |
| Lists.List.PushFront | list.go:46-51 | a new element holding v becomes the first; the values gain v at the front; the new value is stored in one new slot and the existing slots keep their values and ownership |
| Lists.List.PushBack | list.go:53-59 | a new element holding v becomes the last; the values gain v at the back; the new value is stored in one new slot and the existing slots keep their values and ownership |
| Lists.List.InsertBefore | list.go:61-69 | when mark belongs to the list, a new element holding v, stored in one new slot, goes immediately before mark, and the existing slots keep their values and ownership; otherwise nil and nothing changes |
| Lists.List.InsertAfter | list.go:71-79 | when mark belongs to the list, a new element holding v, stored in one new slot, goes immediately after mark, and the existing slots keep their values and ownership; otherwise nil and nothing changes |
| Lists.List.Remove | list.go:81-88 | when e belongs to the list, it is taken out with nil links and the length drops by one; otherwise nothing changes; e's value is returned either way |
| Lists.List.MoveToFront | list.go:90-97 | an element of the list becomes the first and the others keep their order; anything else changes nothing |
| Lists.List.MoveToBack | list.go:99-106 | an element of the list becomes the last and the others keep their order; anything else changes nothing |
| Lists.List.MoveBefore | list.go:108-115 | when e and mark are different elements of the list, e ends up immediately before mark and the others keep their order; otherwise nothing changes |
| Lists.List.MoveAfter | list.go:117-124 | when e and mark are different elements of the list, e ends up immediately after mark and the others keep their order; otherwise nothing changes |
| Lists.List.AppendingStart | list.go:129 | before the PushBackList loop, nothing of other has been copied and the walk starts at other's front with its whole length to go |
| Lists.List.appendCopy | list.go:130-132 | one round of the PushBackList loop appends, after the values copied so far, a copy of the value other held at that position when the call began, then reads the next element of other; this holds also when other is this list, whose front part is never changed; exactly one slot is added |
| Lists.List.appendAll | list.go:129-132 | the PushBackList loop runs until the count reaches 0, keeping the copy invariant |
| Lists.List.AppendingDone | list.go:126-133 | when the count reaches 0, every value of other has been copied, in order, behind the old values, which are untouched |
| Lists.List.PushBackList | list.go:126-133 | the values become the old values followed by other's values as they were at the call, so copying a list into itself doubles it; the old elements stay in front; the length grows by other's length; existing slots keep their values and ownership |
| Lists.List.PrependingStart | list.go:138 | before the PushFrontList loop, nothing of other has been copied and the walk starts at other's back with its whole length to go |
| Lists.List.prependCopy | list.go:138-140 | one round of the PushFrontList loop inserts at the front a copy of the value other held at position i - 1 when the call began, then reads the element before it; this holds also when other is this list, whose back part is never changed; exactly one slot is added |
| Lists.List.prependAll | list.go:138-140 | the PushFrontList loop runs until the count reaches 0, keeping the copy invariant |
| Lists.List.PrependingDone | list.go:135-141 | when the count reaches 0, every value of other has been copied, in order, in front of the old values, which are untouched |
| Lists.List.PushFrontList | list.go:135-141 | the values become other's values as they were at the call followed by the old values, so copying a list into itself doubles it; the old elements stay behind; the length grows by other's length; existing slots keep their values and ownership |

## Left out

- Locking: the mutexes of the circular buffer and of the priority queues are left out, as the model is sequential.
- The deque (a wrapper around the standard library's `container/list`, not around this list), and the queue and stack built on it, are not part of this model.
- Nil element handles are not representable: an element is a slot number, so the panics of Go's InsertBefore, InsertAfter, Remove, MoveToFront, MoveToBack, MoveBefore and MoveAfter on a nil `e` or `mark` (list.go:61-124) are not modelled.
- Element handles of another list are not representable. An element is a slot of this list's arena, so "not an element of this list" covers detached elements of this list only.
- Lists.List.Init: on a list that still holds elements, Go leaves those elements' back-links and links pointing at the list; the model detaches them.
- Lists.List.appendCopy: the body of the PushBackList loop is factored into this method, and the loop itself into `appendAll`; the order of reads and writes is Go's.
- Lists.List.prependCopy: the same factoring for PushFrontList, with the loop in `prependAll`.
- Lists.List.remove: reads e's two neighbours into locals before relinking them, which is equivalent to Go's chained writes.
- The mutable public `Value` field of an element is not modelled as writable from outside.
- Integer widths are not modelled: list lengths and the heap's `uint` item counts are unbounded. A negative buffer capacity (on which Go's `make` panics) cannot be expressed, because the capacity is a `nat`.
- CircularBuffers.CircularBuffer.advance: the cursor step `(pos + 1) % capacity`, written out twice in Put and once in Pop, is factored into this method.
- CircularBuffers.CircularBuffer.View: returns a fresh sequence. In Go, the slice can alias the buffer's array, and that sharing is not modelled.
- Zero values: Go's zero value of a type parameter is an arbitrary but fixed value of that type (`zero`, `zeroValue`, `zeroPriority`).
- PriorityQueues.PriorityQueue.constructor: requires the heuristic to be a strict total order, where Go accepts any comparison function. The built-in `Maximum` and `Minimum` are proved to meet this.
- `Maximum`, `Minimum` and the ready-made constructors are modelled at `int` priorities only; the `constraints.Ordered` type parameter is not modelled.
- The integer-priority variant's source file cannot be built beside the generic queue as written: it imports a `constraints` package that does not exist and redeclares the queue and item types with other type parameters. The model follows its evident meaning, the generic heap at `int`.
