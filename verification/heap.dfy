/**
 * The binary heap of internal/utils/generic_pq.go (a generic rewrite of Go's
 * container/heap) over the element order the bounded priority queue supplies:
 * `Less(i, j)` holds when item i has the HIGHER priority, so the heap is a max-heap and
 * its root carries a largest priority. A heap is a sequence of items; every operation takes
 * the sequence and returns the rearranged one.
 */
module Heap {
  import opened Points

  /** An element of the queue: a stored value and its priority (priorityQueue.go Item). */
  datatype Item = Item(data: Point, priority: int)

  /** BoundedPriorityQueue.Less, reversed on purpose so that popping yields the highest
      priority first. */
  predicate Less(h: seq<Item>, i: nat, j: nat)
    requires i < |h| && j < |h|
  {
    h[i].priority > h[j].priority
  }

  /** The parent slot as `up` computes it, `(j - 1) / 2` with Go's truncating division:
      the root is its own parent, which is what stops the sift-up loop. */
  function Parent(j: nat): (p: nat)
    ensures j == 0 ==> p == 0
    ensures j > 0 ==> p < j && IsChild(p, j)
  {
    if j == 0 then 0 else (j - 1) / 2
  }

  /** Slot c is a child of slot p in the implicit binary tree. */
  predicate IsChild(p: int, c: int) {
    0 <= p && (c == 2 * p + 1 || c == 2 * p + 2)
  }

  /** The heap property on the prefix [0, n): no child is Less than its parent. */
  ghost predicate HeapOn(h: seq<Item>, n: nat)
    requires n <= |h|
  {
    forall p, c | c < n && IsChild(p, c) :: h[p].priority >= h[c].priority
  }

  ghost predicate IsHeap(h: seq<Item>) {
    HeapOn(h, |h|)
  }

  /** The shape sift-up repairs: every edge of [0, n) except the one into j is ordered, and
      j's parent already dominates j's children. */
  ghost predicate HeapBut(h: seq<Item>, n: nat, j: nat)
    requires j < n <= |h|
  {
    && (forall p, c | c < n && c != j && IsChild(p, c) :: h[p].priority >= h[c].priority)
    && (j > 0 ==> forall c | c < n && IsChild(j, c) :: h[Parent(j)].priority >= h[c].priority)
  }

  /** BoundedPriorityQueue.Swap: exchanges two slots, keeping the elements. */
  function Swap(h: seq<Item>, i: nat, j: nat): (r: seq<Item>)
    requires i < |h| && j < |h|
    ensures |r| == |h| && r[i] == h[j] && r[j] == h[i]
    ensures forall k | 0 <= k < |h| && k != i && k != j :: r[k] == h[k]
    ensures multiset(r) == multiset(h)
  {
    h[i := h[j]][j := h[i]]
  }

  /** In a heap the root has a largest priority: what Peek and the eviction test rely on. */
  lemma RootIsMax(h: seq<Item>)
    requires IsHeap(h)
    ensures forall k | 0 <= k < |h| :: h[0].priority >= h[k].priority
  {
    forall k | 0 <= k < |h|
      ensures h[0].priority >= h[k].priority
    {
      RootAbove(h, k);
    }
  }

  lemma {:induction false} RootAbove(h: seq<Item>, k: nat)
    requires IsHeap(h) && k < |h|
    ensures h[0].priority >= h[k].priority
    decreases k
  {
    if k > 0 {
      RootAbove(h, Parent(k));
    }
  }

  lemma RootIsMaxOfMembers(h: seq<Item>)
    requires IsHeap(h) && |h| > 0
    ensures forall y | y in h :: y.priority <= h[0].priority
  {
    RootIsMax(h);
  }

  /** One swap of `up`: j moves above its parent i. */
  lemma UpSwapStep(r: seq<Item>, n: nat, i: nat, j: nat)
    requires j < n <= |r| && 0 < j && i == Parent(j)
    requires HeapBut(r, n, j) && r[j].priority > r[i].priority
    ensures HeapBut(Swap(r, i, j), n, i)
  {
    var s := Swap(r, i, j);
    forall p, c | c < n && c != i && IsChild(p, c)
      ensures s[p].priority >= s[c].priority
    {
      if p == j {
        assert IsChild(j, c);
      } else if c != j && p == i {
        assert r[p].priority >= r[c].priority;
      }
    }
    if i > 0 {
      forall c | c < n && IsChild(i, c)
        ensures s[Parent(i)].priority >= s[c].priority
      {
        assert r[Parent(i)].priority >= r[i].priority by {
          assert IsChild(Parent(i), i);
        }
        if c != j {
          assert r[i].priority >= r[c].priority;
        }
      }
    }
  }

  /** `up`: moves the element at j0 towards the root while it is Less than its parent. Only
      slots on the path from j0 to the root change, so the suffix from n on is untouched. */
  method Up(h: seq<Item>, j0: nat, ghost n: nat) returns (r: seq<Item>)
    requires j0 < n <= |h|
    requires HeapBut(h, n, j0)
    ensures |r| == |h| && multiset(r) == multiset(h)
    ensures HeapOn(r, n)
    ensures r[n..] == h[n..]
    ensures HeapOn(h, n) ==> r == h
  {
    r := h;
    var j: nat := j0;
    while true
      invariant j < n && |r| == |h| && multiset(r) == multiset(h)
      invariant HeapBut(r, n, j)
      invariant r[n..] == h[n..]
      invariant HeapOn(h, n) ==> r == h
      decreases j
    {
      var i := Parent(j);
      if i == j || !Less(r, j, i) {
        break;
      }
      UpSwapStep(r, n, i, j);
      var s := Swap(r, i, j);
      assert s[n..] == r[n..];
      r := s;
      j := i;
    }
  }

  /** Edges of [0, n) out of slots i0 and later are ordered, except those out of `skip`. */
  ghost predicate OrderedBelow(r: seq<Item>, i0: nat, n: nat, skip: int)
    requires n <= |r|
  {
    forall p, c | i0 <= p && p != skip && c < n && IsChild(p, c) :: r[p].priority >= r[c].priority
  }

  /** Sifting down from i0 keeps every slot before i0, every slot from n on, and every
      other child of a slot before i0: only i0's subtree inside [0, n) changes. */
  ghost predicate DownFrame(h: seq<Item>, r: seq<Item>, i0: nat, n: nat)
    requires |r| == |h|
  {
    && (forall c | 0 <= c < |h| && (c < i0 || n <= c) :: r[c] == h[c])
    && (forall p, c | p < i0 && c != i0 && c < |h| && IsChild(p, c) :: r[c] == h[c])
  }

  /** Slot i0 now holds one of the elements that were i0's children in [0, n). */
  ghost predicate Promoted(h: seq<Item>, r: seq<Item>, i0: nat, n: nat)
    requires n <= |h| && |r| == |h| && i0 < |h|
  {
    2 * i0 + 1 < n && (r[i0] == h[2 * i0 + 1] || (2 * i0 + 2 < n && r[i0] == h[2 * i0 + 2]))
  }

  /** One swap of `down`: the current slot i takes its Less child j. */
  lemma DownSwapStep(h: seq<Item>, r: seq<Item>, i0: nat, i: nat, j: nat, n: nat)
    requires n <= |h| == |r| && i0 <= i && j < n && IsChild(i, j)
    requires i > i0 ==> Parent(i) >= i0
    requires OrderedBelow(r, i0, n, i)
    requires i > i0 ==> forall c | c < n && IsChild(i, c) :: r[Parent(i)].priority >= r[c].priority
    requires forall c | c < n && IsChild(i, c) :: r[j].priority >= r[c].priority
    requires r[j].priority > r[i].priority
    requires DownFrame(h, r, i0, n)
    requires i == i0 ==> r == h
    requires i > i0 ==> Promoted(h, r, i0, n)
    ensures OrderedBelow(Swap(r, i, j), i0, n, j)
    ensures forall c | c < n && IsChild(j, c) :: Swap(r, i, j)[i].priority >= Swap(r, i, j)[c].priority
    ensures DownFrame(h, Swap(r, i, j), i0, n)
    ensures Promoted(h, Swap(r, i, j), i0, n)
  {
    var s := Swap(r, i, j);
    if i == i0 {
      assert s[i0] == h[j];
    } else {
      assert s[i0] == r[i0];
    }
    forall p, c | i0 <= p && p != j && c < n && IsChild(p, c)
      ensures s[p].priority >= s[c].priority
    {
      if p == i {
      } else if c == i {
        assert p == Parent(i);
      }
    }
    forall c | c < n && IsChild(j, c)
      ensures s[i].priority >= s[c].priority
    {
      assert r[j].priority >= r[c].priority;
    }
    forall p, c | p < i0 && c != i0 && c < |h| && IsChild(p, c)
      ensures s[c] == h[c]
    {
    }
  }

  /** The child of i that `down` compares i with: the right child when it lies inside
      [0, n) and is Less than the left one, otherwise the left child. */
  function LessChild(r: seq<Item>, i: nat, n: nat): (j: nat)
    requires 2 * i + 1 < n <= |r|
    ensures j < n && IsChild(i, j)
    ensures forall c | c < n && IsChild(i, c) :: r[j].priority >= r[c].priority
    ensures j == 2 * i + 2 <==> 2 * i + 2 < n && r[2 * i + 2].priority > r[2 * i + 1].priority
  {
    var j1 := 2 * i + 1;
    var j2 := j1 + 1;
    if j2 < n && Less(r, j2, j1) then j2 else j1
  }

  /** `down` stops at slot i once no child of i inside [0, n) has a larger priority. */
  lemma DownDone(r: seq<Item>, i0: nat, i: nat, n: nat)
    requires n <= |r| && i0 <= i
    requires OrderedBelow(r, i0, n, i)
    requires forall c | c < n && IsChild(i, c) :: r[i].priority >= r[c].priority
    ensures OrderedBelow(r, i0, n, -1)
  {
  }

  /** `down`: moves the element at i0 towards the leaves of the prefix [0, n) while a child is
      Less than it, swapping with the Less of the two children. It reports whether the
      element moved; if it did, slot i0 now holds one of i0's former children. Only i0's
      subtree inside [0, n) changes. */
  method Down(h: seq<Item>, i0: nat, n: nat) returns (r: seq<Item>, moved: bool)
    requires i0 < |h| && n <= |h|
    requires OrderedBelow(h, i0 + 1, n, -1)
    ensures |r| == |h| && multiset(r) == multiset(h)
    ensures OrderedBelow(r, i0, n, -1)
    ensures DownFrame(h, r, i0, n)
    ensures !moved ==> r == h
    ensures moved ==> Promoted(h, r, i0, n)
  {
    r := h;
    var i := i0;
    while true
      invariant i0 <= i < |h| && |r| == |h| && multiset(r) == multiset(h)
      invariant i > i0 ==> i < n && Parent(i) >= i0
      invariant OrderedBelow(r, i0, n, i)
      invariant i > i0 ==> forall c | c < n && IsChild(i, c) :: r[Parent(i)].priority >= r[c].priority
      invariant DownFrame(h, r, i0, n)
      invariant i == i0 ==> r == h
      invariant i > i0 ==> Promoted(h, r, i0, n)
      decreases |h| - i
    {
      var j1 := 2 * i + 1;
      if j1 >= n {
        DownDone(r, i0, i, n);
        break;
      }
      var j := LessChild(r, i, n);
      if !Less(r, j, i) {
        DownDone(r, i0, i, n);
        break;
      }
      DownSwapStep(h, r, i0, i, j, n);
      r := Swap(r, i, j);
      i := j;
    }
    moved := i > i0;
  }

  /** After slot i of a heap on [0, n) was overwritten and sifted down: if the element
      moved, the prefix is a heap again; otherwise only the edge into i can be out of order,
      which is the shape `up` repairs. */
  lemma AfterDown(h0: seq<Item>, s: seq<Item>, r: seq<Item>, i: nat, n: nat, moved: bool)
    requires i < n <= |h0| && n <= |s| == |r| && HeapOn(h0, n)
    requires forall c | 0 <= c < n && c != i :: s[c] == h0[c]
    requires OrderedBelow(r, i, n, -1)
    requires DownFrame(s, r, i, n)
    requires !moved ==> r == s
    requires moved ==> Promoted(s, r, i, n)
    ensures moved ==> HeapOn(r, n)
    ensures !moved ==> HeapBut(r, n, i)
  {
    if moved {
      forall p, c | c < n && IsChild(p, c)
        ensures r[p].priority >= r[c].priority
      {
        if p < i && c == i {
          assert h0[p].priority >= h0[i].priority;
          assert IsChild(i, 2 * i + 1);
          assert IsChild(i, 2 * i + 2);
        }
      }
    } else if i > 0 {
      forall c | c < n && IsChild(i, c)
        ensures r[Parent(i)].priority >= r[c].priority
      {
        assert h0[Parent(i)].priority >= h0[i].priority;
      }
    }
  }

  /** Dropping the last slot of a sequence whose other slots form a heap leaves a heap. */
  lemma DropLast(r: seq<Item>, n: nat)
    requires |r| == n + 1 && HeapOn(r, n)
    ensures IsHeap(r[..n])
    ensures multiset(r[..n]) + multiset{r[n]} == multiset(r)
  {
    assert r == r[..n] + [r[n]];
  }

  /** Init: heapifies by sifting down every internal slot, last first. */
  method Init(h: seq<Item>) returns (r: seq<Item>)
    ensures |r| == |h| && multiset(r) == multiset(h)
    ensures IsHeap(r)
  {
    var n := |h|;
    r := h;
    var i: int := n / 2 - 1;
    while i >= 0
      invariant -1 <= i < n && |r| == n && multiset(r) == multiset(h)
      invariant OrderedBelow(r, i + 1, n, -1)
      decreases i + 1
    {
      var moved;
      r, moved := Down(r, i, n);
      i := i - 1;
    }
  }

  /** Push: appends x and sifts it up. */
  method Push(h: seq<Item>, x: Item) returns (r: seq<Item>)
    requires IsHeap(h)
    ensures IsHeap(r)
    ensures multiset(r) == multiset(h) + multiset{x}
  {
    r := h + [x];
    r := Up(r, |r| - 1, |r|);
  }

  /** Pop: swaps the root to the end, sifts the new root down over the rest, and removes the
      last slot, which now holds the old root: an item of largest priority. */
  method Pop(h: seq<Item>) returns (r: seq<Item>, top: Item)
    requires IsHeap(h) && |h| > 0
    ensures top == h[0] && |r| == |h| - 1
    ensures forall y | y in h :: y.priority <= top.priority
    ensures IsHeap(r)
    ensures multiset(r) + multiset{top} == multiset(h)
  {
    RootIsMaxOfMembers(h);
    var n := |h| - 1;
    var s := Swap(h, 0, n);
    var moved;
    r, moved := Down(s, 0, n);
    top := r[n];
    DropLast(r, n);
    r := r[..n];
  }

  /** Remove: takes out the element at slot i and restores the heap. The last element is
      moved into slot i and sifted down, or up if it did not move down. */
  method Remove(h: seq<Item>, i: nat) returns (r: seq<Item>, x: Item)
    requires IsHeap(h) && i < |h|
    ensures x == h[i] && |r| == |h| - 1
    ensures IsHeap(r)
    ensures multiset(r) + multiset{x} == multiset(h)
  {
    var n := |h| - 1;
    r := h;
    if n != i {
      var s := Swap(h, i, n);
      var moved;
      r, moved := Down(s, i, n);
      AfterDown(h, s, r, i, n, moved);
      if !moved {
        r := Up(r, i, n);
      }
    }
    x := r[n];
    DropLast(r, n);
    r := r[..n];
  }

  /** Fix: restores the heap after the element at slot i of the heap h0 was replaced. */
  method Fix(h: seq<Item>, i: nat, ghost h0: seq<Item>) returns (r: seq<Item>)
    requires IsHeap(h0) && |h0| == |h| && i < |h|
    requires forall c | 0 <= c < |h| && c != i :: h[c] == h0[c]
    ensures IsHeap(r)
    ensures multiset(r) == multiset(h)
  {
    var moved;
    r, moved := Down(h, i, |h|);
    AfterDown(h0, h, r, i, |h|, moved);
    if !moved {
      r := Up(r, i, |h|);
    }
  }
}
