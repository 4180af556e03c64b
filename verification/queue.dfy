/**
 * The capacity-bounded priority queue of priorityQueue.go. Its slice is kept as a max-heap
 * on priority (see module Heap). Pushing into a full queue either rejects the newcomer,
 * when it is not strictly below the current maximum, or evicts that maximum to make room.
 * After any sequence of pushes, the queue therefore holds capacity-many items of lowest
 * priority.
 */
module BoundedQueues {
  import opened Outcomes
  import opened Heap

  datatype BoundedQueue = BoundedQueue(data: seq<Item>, capacity: int)

  /** NewBoundedPriorityQueue: an empty queue of the given capacity. */
  function NewQueue(maxSize: int): (q: BoundedQueue)
    ensures |q.data| == 0 && IsHeap(q.data) && q.capacity == maxSize
  {
    BoundedQueue([], maxSize)
  }

  /** Full, as Push tests it: the length equals the capacity. */
  predicate Full(q: BoundedQueue) {
    |q.data| == q.capacity
  }

  /** Peek: the root slot. The queue is a max-heap, so this is an item of highest priority
      (lemma PeekIsMax). Go indexes an empty slice here and panics; the model requires a
      non-empty queue. */
  function Peek(q: BoundedQueue): Item
    requires |q.data| > 0
  {
    q.data[0]
  }

  lemma PeekIsMax(q: BoundedQueue)
    requires IsHeap(q.data) && |q.data| > 0
    ensures Peek(q) in q.data
    ensures forall y | y in q.data :: y.priority <= Peek(q).priority
  {
    RootIsMaxOfMembers(q.data);
  }

  /** The queue's own Pop method: removes and returns the LAST slot, without any heap
      reordering (that is Heap.Pop's job, which calls this after moving the root there). */
  function Take(q: BoundedQueue): (r: (BoundedQueue, Item))
    requires |q.data| > 0
    ensures r.0.capacity == q.capacity
    ensures q.data == r.0.data + [r.1]
  {
    (q.(data := q.data[..|q.data| - 1]), q.data[|q.data| - 1])
  }

  /** Take undoes an append: the two are inverse on the last slot. */
  lemma TakeUndoesAppend(q: BoundedQueue, x: Item)
    ensures Take(q.(data := q.data + [x])) == (q, x)
  {
    assert (q.data + [x])[..|q.data|] == q.data;
  }

  /** The queue's own Push method (priorityQueue.go Push): when not full, appends; when full,
      rejects an item whose priority is not strictly below the root's, and otherwise pops the
      root through the heap and appends. With capacity 0 an empty queue counts as full and
      the read of the root slot panics. */
  method Offer(q: BoundedQueue, item: Item) returns (r: Result<BoundedQueue>)
    requires IsHeap(q.data)
    ensures r.Panic? <==> Full(q) && |q.data| == 0
    ensures !Full(q) ==> r == Ok(q.(data := q.data + [item]))
    ensures Full(q) && |q.data| > 0 && q.data[0].priority <= item.priority ==> r == Ok(q)
    ensures Full(q) && |q.data| > 0 && item.priority < q.data[0].priority ==>
      && r.Ok? && r.value.capacity == q.capacity && |r.value.data| == |q.data|
      && IsHeap(r.value.data[..|q.data| - 1]) && r.value.data[|q.data| - 1] == item
      && multiset(r.value.data) + multiset{q.data[0]} == multiset(q.data) + multiset{item}
    ensures r.Ok? ==> |r.value.data| > 0 && (IsHeap(r.value.data) || IsHeap(r.value.data[..|r.value.data| - 1]))
  {
    if Full(q) {
      if |q.data| == 0 {
        return Panic("index out of range [0] with length 0");
      }
      if q.data[0].priority <= item.priority {
        return Ok(q);
      }
      var rest, top := Heap.Pop(q.data);
      assert (rest + [item])[..|q.data| - 1] == rest;
      return Ok(q.(data := rest + [item]));
    }
    assert (q.data + [item])[..|q.data|] == q.data;
    return Ok(q.(data := q.data + [item]));
  }

  /** The invariant of a queue that has been offered the items `seen`: it is a heap no longer
      than its capacity, it holds a sub-multiset of what it saw (all of it while not full),
      and no item it kept has a higher priority than an item it dropped. */
  ghost predicate Retains(q: BoundedQueue, seen: multiset<Item>) {
    && IsHeap(q.data)
    && |q.data| <= q.capacity
    && multiset(q.data) <= seen
    && (|q.data| < q.capacity ==> multiset(q.data) == seen)
    && forall x, y | x in multiset(q.data) && y in seen - multiset(q.data) :: x.priority <= y.priority
  }

  /** Dropping one item x of highest priority from what is kept, and keeping y of lower
      priority than x in its place, keeps every kept item at or below every dropped one. */
  lemma EvictKeeps(kept: multiset<Item>, dropped: multiset<Item>, x: Item, y: Item)
    requires x in kept && y.priority < x.priority
    requires forall a | a in kept :: a.priority <= x.priority
    requires forall a, b | a in kept && b in dropped :: a.priority <= b.priority
    ensures forall a, b | a in kept - multiset{x} + multiset{y} && b in dropped + multiset{x} ::
      a.priority <= b.priority
  {
  }

  /** `up` from the last slot, as internal.Push calls it: the slice is a heap except perhaps
      for its last slot, and sifting that slot up makes it one. On a slice that is already a
      heap, nothing moves. */
  method UpFromLast(data: seq<Item>) returns (r: seq<Item>)
    requires |data| > 0 && (IsHeap(data) || IsHeap(data[..|data| - 1]))
    ensures |r| == |data| && multiset(r) == multiset(data) && IsHeap(r)
    ensures IsHeap(data) ==> r == data
  {
    var n := |data|;
    if !IsHeap(data) {
      forall p, c | c < n && c != n - 1 && IsChild(p, c)
        ensures data[p].priority >= data[c].priority
      {
        assert data[..n - 1][p] == data[p] && data[..n - 1][c] == data[c];
      }
    }
    r := Up(data, n - 1, n);
  }

  /** internal.Push on the queue: the queue's Push method, then `up` on the last slot. When
      the item was rejected, `up` finds the last slot already in place and changes nothing. */
  method Push(q: BoundedQueue, item: Item, ghost seen: multiset<Item>) returns (r: Result<BoundedQueue>)
    requires IsHeap(q.data)
    ensures r.Panic? <==> Full(q) && |q.data| == 0
    ensures r.Ok? ==> IsHeap(r.value.data) && r.value.capacity == q.capacity
    ensures r.Ok? ==> |r.value.data| == if Full(q) then |q.data| else |q.data| + 1
    ensures !Full(q) ==> r.Ok? && multiset(r.value.data) == multiset(q.data) + multiset{item}
    ensures Full(q) && |q.data| > 0 && q.data[0].priority <= item.priority ==> r == Ok(q)
    ensures Full(q) && |q.data| > 0 && item.priority < q.data[0].priority ==>
      && r.Ok? && |r.value.data| == |q.data|
      && multiset(r.value.data) + multiset{q.data[0]} == multiset(q.data) + multiset{item}
    ensures Retains(q, seen) && q.capacity > 0 ==> r.Ok? && Retains(r.value, seen + multiset{item})
  {
    r := Offer(q, item);
    if r.Panic? {
      return;
    }
    var data := UpFromLast(r.value.data);
    var r' := Ok(r.value.(data := data));
    if Retains(q, seen) && q.capacity > 0 {
      RetainsAfterPush(q, item, seen, r'.value);
    }
    r := r';
  }

  /** Retains is preserved by each of Push's three outcomes. */
  lemma RetainsAfterPush(q: BoundedQueue, item: Item, seen: multiset<Item>, q': BoundedQueue)
    requires Retains(q, seen) && q.capacity > 0 && IsHeap(q'.data) && q'.capacity == q.capacity
    requires !Full(q) ==> multiset(q'.data) == multiset(q.data) + multiset{item}
    requires Full(q) && q.data[0].priority <= item.priority ==> q' == q
    requires Full(q) && item.priority < q.data[0].priority ==>
      |q'.data| == |q.data| && multiset(q'.data) + multiset{q.data[0]} == multiset(q.data) + multiset{item}
    ensures Retains(q', seen + multiset{item})
  {
    if !Full(q) {
      RetainsAppend(q, item, seen, q');
    } else if q.data[0].priority <= item.priority {
      RetainsReject(q, item, seen);
    } else {
      RetainsEvict(q, item, seen, q');
    }
  }

  lemma RetainsAppend(q: BoundedQueue, item: Item, seen: multiset<Item>, q': BoundedQueue)
    requires Retains(q, seen) && !Full(q) && IsHeap(q'.data) && q'.capacity == q.capacity
    requires multiset(q'.data) == multiset(q.data) + multiset{item}
    ensures Retains(q', seen + multiset{item})
  {
    assert multiset(q.data) == seen;
    assert |multiset(q'.data)| == |q'.data| && |multiset(q.data)| == |q.data|;
    assert seen + multiset{item} - multiset(q'.data) == multiset{};
  }

  lemma RetainsReject(q: BoundedQueue, item: Item, seen: multiset<Item>)
    requires Retains(q, seen) && Full(q) && |q.data| > 0 && q.data[0].priority <= item.priority
    ensures Retains(q, seen + multiset{item})
  {
    PeekIsMax(q);
    var kept := multiset(q.data);
    assert seen + multiset{item} - kept == (seen - kept) + multiset{item};
  }

  lemma RetainsEvict(q: BoundedQueue, item: Item, seen: multiset<Item>, q': BoundedQueue)
    requires Retains(q, seen) && Full(q) && |q.data| > 0 && item.priority < q.data[0].priority
    requires IsHeap(q'.data) && q'.capacity == q.capacity && |q'.data| == |q.data|
    requires multiset(q'.data) + multiset{q.data[0]} == multiset(q.data) + multiset{item}
    ensures Retains(q', seen + multiset{item})
  {
    PeekIsMax(q);
    var top := q.data[0];
    var kept := multiset(q.data);
    var dropped := seen - kept;
    assert top in kept by {
      assert top in q.data;
    }
    assert multiset(q'.data) == kept + multiset{item} - multiset{top};
    assert kept + multiset{item} - multiset{top} == kept - multiset{top} + multiset{item} by {
      assert kept == kept - multiset{top} + multiset{top};
    }
    assert seen + multiset{item} - multiset(q'.data) == dropped + multiset{top};
    EvictKeeps(kept, dropped, top, item);
  }

  /** One round of PushAll: pushing the next item keeps the invariant, with the length
      growing by one until the queue is full. */
  method PushNext(r: BoundedQueue, items: seq<Item>, i: nat) returns (r': BoundedQueue)
    requires i < |items| && r.capacity > 0
    requires Retains(r, multiset(items[..i]))
    requires |r.data| == if i < r.capacity then i else r.capacity
    ensures r'.capacity == r.capacity && Retains(r', multiset(items[..i + 1]))
    ensures |r'.data| == if i + 1 < r.capacity then i + 1 else r.capacity
  {
    ghost var seen := multiset(items[..i]);
    assert multiset(items[..i + 1]) == seen + multiset{items[i]} by {
      assert items[..i + 1] == items[..i] + [items[i]];
    }
    var next := Push(r, items[i], seen);
    r' := next.value;
  }

  /** Pushes every item in turn, as the queue tests do. Starting from an empty queue of
      positive capacity, the result holds min(capacity, |items|) of the items, and none it
      holds has a higher priority than one it dropped. */
  method PushAll(capacity: int, items: seq<Item>) returns (r: BoundedQueue)
    requires capacity > 0
    ensures Retains(r, multiset(items))
    ensures |r.data| == if |items| < capacity then |items| else capacity
  {
    r := NewQueue(capacity);
    var i := 0;
    while i < |items|
      invariant i <= |items| && r.capacity == capacity
      invariant Retains(r, multiset(items[..i]))
      invariant |r.data| == if i < capacity then i else capacity
    {
      r := PushNext(r, items, i);
      i := i + 1;
    }
    assert items[..i] == items;
  }
}
