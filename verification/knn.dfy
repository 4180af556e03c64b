/**
 * k-nearest-neighbour search of kdtree.go (KNN, knn, popLast): an iterative descent to the
 * query's leaf that records the path, then a walk back up the path that offers each node to
 * a bounded max-queue of capacity k keyed on distance, and searches a node's far branch
 * only while the queue is not full or the splitting plane is strictly nearer than the
 * farthest value kept. The queue is drained farthest-first.
 */
module Knn {
  import opened Outcomes
  import opened Points
  import opened Trees
  import opened Heap
  import opened BoundedQueues
  import Search

  /** The side a descent took from a node. */
  datatype Direction = Left | Right

  /** nodeInfo: a node on the descent path and the side the descent took from it. */
  datatype Step = Step(node: Tree, dir: Direction)

  /** The child the descent went into. */
  function Near(s: Step): Tree {
    match s.node
    case Nil => Nil
    case Node(l, _, r) => if s.dir == Left then l else r
  }

  /** The child the descent did not go into. */
  function Far(s: Step): Tree {
    match s.node
    case Nil => Nil
    case Node(l, _, r) => if s.dir == Left then r else l
  }

  /** `popLast`: the path without its last step, with that step's node and side; on an
      empty path, the path itself, no node, and the left side. */
  function PopLast(path: seq<Step>): (r: (seq<Step>, Tree, Direction))
    ensures |path| == 0 ==> r == (path, Nil, Left)
    ensures |path| > 0 ==> path == r.0 + [Step(r.1, r.2)]
  {
    if |path| == 0 then (path, Nil, Left)
    else (path[..|path| - 1], path[|path| - 1].node, path[|path| - 1].dir)
  }

  /** PopLast undoes appending a step. */
  lemma PopLastUndoesAppend(path: seq<Step>, s: Step)
    ensures PopLast(path + [s]) == (path, s.node, s.dir)
  {
    assert (path + [s])[..|path|] == path;
  }

  /** The queue item knn offers for a stored value: the value with its distance to v. */
  function ItemOf(v: Point, x: Point): (it: Item)
    requires |x| == |v|
    ensures it.data == x && it.priority == Dist(v, x)
  {
    Item(x, Dist(v, x))
  }

  /** The items of every stored value of t, with multiplicity. */
  ghost function ItemsOf(v: Point, t: Tree): multiset<Item>
    requires HasDims(t, |v|)
  {
    match t
    case Nil => multiset{}
    case Node(l, x, r) => ItemsOf(v, l) + multiset{ItemOf(v, x)} + ItemsOf(v, r)
  }

  /** The item carries its own value's distance to v. */
  predicate Carries(v: Point, it: Item) {
    |it.data| == |v| && it == ItemOf(v, it.data)
  }

  /** An item occurs in ItemsOf as often as its value is stored, provided it carries that
      value's distance; otherwise not at all. */
  lemma {:induction false} ItemsOfCount(v: Point, t: Tree, it: Item)
    requires HasDims(t, |v|)
    ensures ItemsOf(v, t)[it] == if Carries(v, it) then Elems(t)[it.data] else 0
  {
    match t
    case Nil =>
    case Node(l, x, r) =>
      ItemsOfCount(v, l, it);
      ItemsOfCount(v, r, it);
      assert multiset{ItemOf(v, x)}[it] == if Carries(v, it) then multiset{x}[it.data] else 0;
  }

  /** Hence: an item of ItemsOf carries a stored value's distance, and every stored value's
      item is there. */
  lemma ItemsOfMembers(v: Point, t: Tree)
    requires HasDims(t, |v|)
    ensures forall it | it in ItemsOf(v, t) :: Carries(v, it) && it.data in Elems(t)
    ensures forall y | y in Elems(t) && |y| == |v| :: ItemOf(v, y) in ItemsOf(v, t)
  {
    forall it | it in ItemsOf(v, t)
      ensures Carries(v, it) && it.data in Elems(t)
    {
      ItemsOfCount(v, t, it);
    }
    forall y | y in Elems(t) && |y| == |v|
      ensures ItemOf(v, y) in ItemsOf(v, t)
    {
      ItemsOfCount(v, t, ItemOf(v, y));
    }
  }

  /** One item per node. */
  lemma {:induction false} ItemsOfSize(v: Point, t: Tree)
    requires HasDims(t, |v|)
    ensures |ItemsOf(v, t)| == CountNodes(t)
  {
    match t
    case Nil =>
    case Node(l, x, r) =>
      ItemsOfSize(v, l);
      ItemsOfSize(v, r);
  }

  /** A node's items are its near branch's, its own, and its far branch's. */
  lemma ItemsOfStep(v: Point, s: Step)
    requires s.node.Node? && HasDims(s.node, |v|)
    ensures HasDims(Near(s), |v|) && HasDims(Far(s), |v|)
    ensures ItemsOf(v, s.node) == ItemsOf(v, Near(s)) + multiset{ItemOf(v, s.node.value)} + ItemsOf(v, Far(s))
  {
  }

  /** What knn keeps while it runs, given the items it has offered to the queue (`seen`) and
      the items of the branches it pruned (`pruned`): the queue retains the lowest of what it
      saw, anything pruned was pruned at a full queue, and, on a k-d tree (`kd`), nothing
      kept is farther than anything pruned. */
  ghost predicate Holds(q: BoundedQueue, seen: multiset<Item>, pruned: multiset<Item>, kd: bool) {
    && Retains(q, seen)
    && (|pruned| > 0 ==> Full(q))
    && (kd ==> forall x, y | x in q.data && y in pruned :: x.priority <= y.priority)
  }

  /** Offering an item keeps Holds. */
  lemma HoldsAfterPush(q: BoundedQueue, item: Item, seen: multiset<Item>, pruned: multiset<Item>, kd: bool, q': BoundedQueue)
    requires Holds(q, seen, pruned, kd) && q.capacity > 0 && Retains(q', seen + multiset{item})
    requires q'.capacity == q.capacity
    requires !Full(q) ==> multiset(q'.data) == multiset(q.data) + multiset{item}
    requires Full(q) && q.data[0].priority <= item.priority ==> q' == q
    requires Full(q) && item.priority < q.data[0].priority ==>
      |q'.data| == |q.data| && multiset(q'.data) + multiset{q.data[0]} == multiset(q.data) + multiset{item}
    ensures Holds(q', seen + multiset{item}, pruned, kd)
  {
    if kd && Full(q) && item.priority < q.data[0].priority {
      PeekIsMax(q);
      forall x, y | x in q'.data && y in pruned
        ensures x.priority <= y.priority
      {
        assert x in multiset(q'.data);
        assert x in multiset(q.data) + multiset{item};
        assert q.data[0] in multiset(q.data);
      }
    }
  }

  /** Pruning the far branch of a node at a full queue whose farthest item is no farther
      than the node's splitting plane keeps Holds. */
  lemma HoldsAfterPrune(q: BoundedQueue, seen: multiset<Item>, pruned: multiset<Item>, kd: bool,
                        v: Point, s: Step, cd: nat, d: nat)
    requires cd < d && |v| == d && s.node.Node? && HasDims(s.node, d) && (kd ==> IsKD(s.node, d, cd))
    requires s.dir == Left <==> Order(v, s.node.value, cd) == Lesser
    requires Holds(q, seen, pruned, kd) && Full(q) && |q.data| > 0
    requires Peek(q).priority <= DistDim(v, s.node.value, cd)
    ensures HasDims(Far(s), d)
    ensures Holds(q, seen, pruned + ItemsOf(v, Far(s)), kd)
  {
    if kd {
      var far := Far(s);
      Search.FarSide(s.node.left, s.node.value, s.node.right, v, cd, d);
      ItemsOfMembers(v, far);
      PeekIsMax(q);
      forall x, y | x in q.data && y in ItemsOf(v, far)
        ensures x.priority <= y.priority
      {
        assert y.data in Elems(far);
      }
    }
  }

  /** The descent path from r: the path starts at r on axis cd, every step is a node of r's
      that went to the query's side (left exactly when the query orders Lesser on the step's
      axis), and every step's node is the previous step's near child on the next axis. */
  ghost predicate PathShape(path: seq<Step>, axes: seq<nat>, v: Point, r: Tree, cd: nat, d: nat, kd: bool) {
    && cd < d && |v| == d && |path| == |axes|
    && (|path| > 0 ==> path[0].node == r && axes[0] == cd)
    && (forall i | 0 <= i < |path| :: StepOk(path[i], axes[i], v, d))
    && (forall i, j | 0 <= i && j == i + 1 < |path| :: path[j].node == Near(path[i]))
    && (forall i, j | 0 <= i && j == i + 1 < |axes| :: axes[j] == NextAxis(axes[i], d))
  }

  /** A step at a node on axis a went left exactly when v orders Lesser there. */
  predicate StepOk(s: Step, a: nat, v: Point, d: nat) {
    && a < d && |v| == d && s.node.Node? && |s.node.value| == d
    && (s.dir == Left <==> Order(v, s.node.value, a) == Lesser)
  }

  /** Every node on the path is a subtree of r that keeps r's shape facts on its own axis. */
  lemma {:induction false} PathSub(path: seq<Step>, axes: seq<nat>, v: Point, r: Tree, cd: nat, d: nat, kd: bool, i: nat)
    requires PathShape(path, axes, v, r, cd, d, kd) && i < |path|
    requires HasDims(r, d) && (kd ==> IsKD(r, d, cd))
    ensures HasDims(path[i].node, d) && (kd ==> IsKD(path[i].node, d, axes[i]))
    ensures CountNodes(path[i].node) <= CountNodes(r)
    decreases i
  {
    if i > 0 {
      PathSub(path, axes, v, r, cd, d, kd, i - 1);
      assert path[i].node == Near(path[i - 1]) && axes[i] == NextAxis(axes[i - 1], d);
    }
  }

  /** A complete descent: a path that ends at a node whose near child is empty. */
  ghost predicate GoodPath(path: seq<Step>, axes: seq<nat>, v: Point, r: Tree, cd: nat, d: nat, kd: bool) {
    PathShape(path, axes, v, r, cd, d, kd) && |path| > 0 && Near(path[|path| - 1]) == Nil
  }

  lemma PathExtend(path: seq<Step>, axes: seq<nat>, v: Point, r: Tree, cd: nat, d: nat, kd: bool, s: Step, a: nat)
    requires PathShape(path, axes, v, r, cd, d, kd) && StepOk(s, a, v, d)
    requires |path| == 0 ==> s.node == r && a == cd
    requires |path| > 0 ==> s.node == Near(path[|path| - 1]) && a == NextAxis(axes[|axes| - 1], d)
    ensures PathShape(path + [s], axes + [a], v, r, cd, d, kd)
  {
    var p := path + [s];
    var x := axes + [a];
    assert p[0] == if |path| == 0 then s else path[0];
    assert x[0] == if |path| == 0 then a else axes[0];
    StepsExtend(path, axes, v, d, s, a);
    forall i, j | 0 <= i && j == i + 1 < |p|
      ensures p[j].node == Near(p[i]) && x[j] == NextAxis(x[i], d)
    {
      assert p[i] == path[i] && x[i] == axes[i];
      if j < |path| {
        assert p[j] == path[j] && x[j] == axes[j];
      }
    }
  }

  lemma StepsExtend(path: seq<Step>, axes: seq<nat>, v: Point, d: nat, s: Step, a: nat)
    requires |path| == |axes|
    requires forall i | 0 <= i < |path| :: StepOk(path[i], axes[i], v, d)
    requires StepOk(s, a, v, d)
    ensures forall i | 0 <= i < |path| + 1 :: StepOk((path + [s])[i], (axes + [a])[i], v, d)
  {
    forall i | 0 <= i < |path| + 1
      ensures StepOk((path + [s])[i], (axes + [a])[i], v, d)
    {
      if i < |path| {
        assert (path + [s])[i] == path[i] && (axes + [a])[i] == axes[i];
      } else {
        assert (path + [s])[i] == s && (axes + [a])[i] == a;
      }
    }
  }

  /** The descent loop of knn: from r, go left when the query orders Lesser on the current
      axis and right otherwise, recording each node and side, until an empty child. Returns
      the path and the axis after the last step. */
  method Descend(v: Point, r: Tree, cd: nat, d: nat, ghost kd: bool) returns (path: seq<Step>, ncd: nat, ghost axes: seq<nat>)
    requires cd < d && |v| == d && r.Node? && HasDims(r, d) && (kd ==> IsKD(r, d, cd))
    ensures |path| > 0 && path[0].node == r && Near(path[|path| - 1]) == Nil && ncd < d
    ensures GoodPath(path, axes, v, r, cd, d, kd)
    ensures ncd == NextAxis(axes[|axes| - 1], d)
  {
    path, axes := [], [];
    ncd := cd;
    var t := r;
    while t != Nil
      invariant OnDescent(path, axes, t, ncd, v, r, cd, d, kd)
      decreases CountNodes(t)
    {
      var s := DescendStep(v, t, ncd, d, kd);
      DescentMove(path, axes, t, ncd, v, r, cd, d, kd, s);
      path, axes := path + [s], axes + [ncd];
      t := Near(s);
      ncd := NextAxis(ncd, d);
    }
  }

  /** The state of the descent loop: the path so far leads from r to the subtree t, whose
      root splits on axis ncd. */
  ghost predicate OnDescent(path: seq<Step>, axes: seq<nat>, t: Tree, ncd: nat, v: Point, r: Tree, cd: nat, d: nat, kd: bool) {
    && ncd < d && HasDims(t, d) && (kd ==> IsKD(t, d, ncd))
    && PathShape(path, axes, v, r, cd, d, kd)
    && (|path| == 0 ==> t == r && ncd == cd)
    && (|path| > 0 ==> t == Near(path[|path| - 1]) && ncd == NextAxis(axes[|axes| - 1], d))
  }

  /** Taking the step s from t moves the descent one level down. */
  lemma DescentMove(path: seq<Step>, axes: seq<nat>, t: Tree, ncd: nat, v: Point, r: Tree, cd: nat, d: nat, kd: bool, s: Step)
    requires OnDescent(path, axes, t, ncd, v, r, cd, d, kd)
    requires s.node == t && StepOk(s, ncd, v, d)
    requires HasDims(Near(s), d) && (kd ==> IsKD(Near(s), d, NextAxis(ncd, d)))
    ensures OnDescent(path + [s], axes + [ncd], Near(s), NextAxis(ncd, d), v, r, cd, d, kd)
  {
    PathExtend(path, axes, v, r, cd, d, kd, s, ncd);
    assert (path + [s])[|path|] == s && (axes + [ncd])[|axes|] == ncd;
  }

  /** One step of the descent: the side of t the query falls on along axis cd. */
  function DescendStep(v: Point, t: Tree, cd: nat, d: nat, ghost kd: bool): (s: Step)
    requires cd < d && |v| == d && t.Node? && HasDims(t, d) && (kd ==> IsKD(t, d, cd))
    ensures s.node == t && StepOk(s, cd, v, d)
    ensures Near(s) == (if s.dir == Left then t.left else t.right)
    ensures HasDims(Near(s), d) && (kd ==> IsKD(Near(s), d, NextAxis(cd, d)))
    ensures CountNodes(Near(s)) < CountNodes(t)
  {
    Step(t, if Order(v, t.value, cd) == Lesser then Left else Right)
  }

  /** The subtree a walk back up the path has finished once j steps remain: the node of the
      step just above, or nothing at the bottom. */
  function Done(path: seq<Step>, j: nat): Tree {
    if j < |path| then path[j].node else Nil
  }

  /** `knn`: searches the subtree r, whose root splits on axis cd, offering its values to the
      queue. Everything in r ends up either offered or pruned; a queue of capacity 0 panics on
      the first offer. */
  method KnnAt(d: nat, v: Point, q: BoundedQueue, cd: nat, r: Tree, ghost kd: bool,
               ghost seen: multiset<Item>, ghost pruned: multiset<Item>)
    returns (res: Result<BoundedQueue>, ghost seen': multiset<Item>, ghost pruned': multiset<Item>)
    requires cd < d && |v| == d && HasDims(r, d) && (kd ==> IsKD(r, d, cd))
    requires Holds(q, seen, pruned, kd)
    ensures res.Panic? <==> q.capacity == 0 && r != Nil
    ensures res.Ok? ==> res.value.capacity == q.capacity && Holds(res.value, seen', pruned', kd)
    ensures res.Ok? ==> seen' + pruned' == seen + pruned + ItemsOf(v, r)
    decreases CountNodes(r), 2
  {
    if r == Nil {
      return Ok(q), seen, pruned;
    }
    var path, ncd, axes := Descend(v, r, cd, d, kd);
    ncd := PrevAxis(ncd, d);
    var cur := q;
    seen', pruned' := seen, pruned;
    var top := PopLast(path);
    var rest, cn, cdir := top.0, top.1, top.2;
    ghost var j: nat := |path|;
    WalkStart(path, axes, v, r, cd, d, kd, ncd, q, seen, pruned);
    while cn != Nil
      invariant Walk(path, axes, v, r, cd, d, kd, j, rest, cn, cdir, ncd, cur, seen + pruned, seen', pruned')
      invariant cur.capacity == q.capacity && (j < |path| ==> q.capacity > 0)
      decreases j
    {
      var climbed;
      climbed, rest, cn, cdir, ncd, seen', pruned' := Climb(d, v, cur, cd, r, path, rest, cn, cdir, ncd, kd, axes, j, seen + pruned, seen', pruned');
      if climbed.Panic? {
        return climbed, seen', pruned';
      }
      cur := climbed.value;
      j := j - 1;
    }
    WalkEnd(path, axes, v, r, cd, d, kd, j, rest, cn, cdir, ncd, cur, seen + pruned, seen', pruned');
    res := Ok(cur);
  }

  /** The walk starts with the bottom step in hand and nothing accounted for. */
  lemma WalkStart(path: seq<Step>, axes: seq<nat>, v: Point, r: Tree, cd: nat, d: nat, kd: bool, ncd: nat,
                  q: BoundedQueue, seen: multiset<Item>, pruned: multiset<Item>)
    requires GoodPath(path, axes, v, r, cd, d, kd) && HasDims(r, d) && (kd ==> IsKD(r, d, cd))
    requires Holds(q, seen, pruned, kd) && ncd == PrevAxis(NextAxis(axes[|axes| - 1], d), d)
    ensures Walk(path, axes, v, r, cd, d, kd, |path|, PopLast(path).0, PopLast(path).1, PopLast(path).2, ncd, q,
                 seen + pruned, seen, pruned)
  {
    PopPrefix(path, |path|);
    assert path[..|path|] == path;
  }

  /** The walk ends with every step popped and all of r accounted for. */
  lemma WalkEnd(path: seq<Step>, axes: seq<nat>, v: Point, r: Tree, cd: nat, d: nat, kd: bool, j: nat,
                rest: seq<Step>, cn: Tree, cdir: Direction, ncd: nat, cur: BoundedQueue,
                base: multiset<Item>, seen: multiset<Item>, pruned: multiset<Item>)
    requires Walk(path, axes, v, r, cd, d, kd, j, rest, cn, cdir, ncd, cur, base, seen, pruned) && cn == Nil
    ensures Holds(cur, seen, pruned, kd)
    ensures seen + pruned == base + ItemsOf(v, r)
  {
  }

  /** The state of the walk back up the descent path of r with j steps still to pop: `rest`
      holds the steps above the one in hand (cn, cdir, on axis ncd), and everything below the
      step in hand is accounted for, offered or pruned, on top of `base`. */
  ghost predicate Walk(path: seq<Step>, axes: seq<nat>, v: Point, r: Tree, cd: nat, d: nat, kd: bool, j: nat,
                       rest: seq<Step>, cn: Tree, cdir: Direction, ncd: nat, cur: BoundedQueue,
                       base: multiset<Item>, seen: multiset<Item>, pruned: multiset<Item>) {
    && GoodPath(path, axes, v, r, cd, d, kd) && HasDims(r, d) && (kd ==> IsKD(r, d, cd))
    && j <= |path| && ncd < d
    && (j > 0 ==> rest == path[..j - 1] && cn == path[j - 1].node && cdir == path[j - 1].dir && ncd == axes[j - 1])
    && (j == 0 ==> cn == Nil)
    && Holds(cur, seen, pruned, kd)
    && HasDims(Done(path, j), d)
    && seen + pruned == base + ItemsOf(v, Done(path, j))
  }

  /** One turn of the walk back up: visit the step in hand, then pop the next one. */
  method Climb(d: nat, v: Point, cur: BoundedQueue, cd: nat, r: Tree, path: seq<Step>, rest: seq<Step>, cn: Tree,
               cdir: Direction, ncd: nat, ghost kd: bool, ghost axes: seq<nat>, ghost j: nat,
               ghost base: multiset<Item>, ghost seen: multiset<Item>, ghost pruned: multiset<Item>)
    returns (res: Result<BoundedQueue>, rest': seq<Step>, cn': Tree, cdir': Direction, ncd': nat,
             ghost seen': multiset<Item>, ghost pruned': multiset<Item>)
    requires Walk(path, axes, v, r, cd, d, kd, j, rest, cn, cdir, ncd, cur, base, seen, pruned) && cn != Nil
    ensures j > 0
    ensures res.Panic? <==> cur.capacity == 0
    ensures res.Ok? ==> res.value.capacity == cur.capacity
    ensures res.Ok? ==> Walk(path, axes, v, r, cd, d, kd, j - 1, rest', cn', cdir', ncd', res.value, base, seen', pruned')
    decreases CountNodes(r), 1
  {
    StepFacts(path, axes, v, r, cd, d, kd, j);
    var visited, s', p' := Visit(d, v, cur, ncd, cn, cdir, kd, seen, pruned);
    res, rest', cn', cdir', ncd', seen', pruned' := visited, rest, cn, cdir, ncd, s', p';
    if visited.Panic? {
      return;
    }
    WalkUp(path, axes, v, r, cd, d, kd, j, rest, cn, cdir, ncd, cur, base, seen, pruned, visited.value, s', p');
    var top := PopLast(rest);
    rest', cn', cdir', ncd' := top.0, top.1, top.2, PrevAxis(ncd, d);
  }

  /** Once the step in hand has been visited, popping the next step restores the walk's
      state one step higher. */
  lemma WalkUp(path: seq<Step>, axes: seq<nat>, v: Point, r: Tree, cd: nat, d: nat, kd: bool, j: nat,
               rest: seq<Step>, cn: Tree, cdir: Direction, ncd: nat, cur: BoundedQueue,
               base: multiset<Item>, seen: multiset<Item>, pruned: multiset<Item>,
               q': BoundedQueue, seen': multiset<Item>, pruned': multiset<Item>)
    requires Walk(path, axes, v, r, cd, d, kd, j, rest, cn, cdir, ncd, cur, base, seen, pruned) && cn != Nil
    requires Holds(q', seen', pruned', kd) && HasDims(Far(Step(cn, cdir)), d)
    requires seen' + pruned' == seen + pruned + multiset{ItemOf(v, cn.value)} + ItemsOf(v, Far(Step(cn, cdir)))
    ensures Walk(path, axes, v, r, cd, d, kd, j - 1, PopLast(rest).0, PopLast(rest).1, PopLast(rest).2,
                 PrevAxis(ncd, d), q', base, seen', pruned')
  {
    StepFacts(path, axes, v, r, cd, d, kd, j);
    StepAccount(path, axes, v, r, cd, d, kd, j, base, seen + pruned, seen' + pruned');
    PopStep(path, axes, v, r, cd, d, kd, j, rest, ncd);
  }

  /** Popping the step above the one in hand: the steps above it, its node and side, and its
      axis, one before the axis in hand. */
  lemma PopStep(path: seq<Step>, axes: seq<nat>, v: Point, r: Tree, cd: nat, d: nat, kd: bool, j: nat,
                rest: seq<Step>, ncd: nat)
    requires PathShape(path, axes, v, r, cd, d, kd) && 0 < j <= |path|
    requires rest == path[..j - 1] && ncd == axes[j - 1] && ncd < d
    ensures j - 1 > 0 ==> PopLast(rest) == (path[..j - 2], path[j - 2].node, path[j - 2].dir)
    ensures j - 1 > 0 ==> PrevAxis(ncd, d) == axes[j - 2]
    ensures j - 1 == 0 ==> PopLast(rest).1 == Nil
  {
    if j > 1 {
      assert axes[j - 1] == NextAxis(axes[j - 2], d);
      PopPrefix(path, j - 1);
    }
  }

  /** What the walk back up knows of the step with j - 1 steps above it. */
  lemma StepFacts(path: seq<Step>, axes: seq<nat>, v: Point, r: Tree, cd: nat, d: nat, kd: bool, j: nat)
    requires GoodPath(path, axes, v, r, cd, d, kd) && 0 < j <= |path|
    requires HasDims(r, d) && (kd ==> IsKD(r, d, cd))
    ensures var s := path[j - 1];
      && axes[j - 1] < d && s.node.Node? && HasDims(s.node, d) && (kd ==> IsKD(s.node, d, axes[j - 1]))
      && (s.dir == Left <==> Order(v, s.node.value, axes[j - 1]) == Lesser)
      && CountNodes(s.node) <= CountNodes(r)
      && Done(path, j) == Near(s)
  {
    assert StepOk(path[j - 1], axes[j - 1], v, d);
    PathSub(path, axes, v, r, cd, d, kd, j - 1);
    if j < |path| {
      assert path[j].node == Near(path[j - 1]);
    }
  }

  /** After the step with j - 1 steps above it has been visited, the accounting covers the
      subtree of that step's node. */
  lemma StepAccount(path: seq<Step>, axes: seq<nat>, v: Point, r: Tree, cd: nat, d: nat, kd: bool, j: nat,
                    base: multiset<Item>, before: multiset<Item>, after: multiset<Item>)
    requires GoodPath(path, axes, v, r, cd, d, kd) && 0 < j <= |path|
    requires HasDims(r, d) && (kd ==> IsKD(r, d, cd))
    requires HasDims(Done(path, j), d) && before == base + ItemsOf(v, Done(path, j))
    requires HasDims(path[j - 1].node, d)
    requires after == before + multiset{ItemOf(v, path[j - 1].node.value)} + ItemsOf(v, Far(path[j - 1]))
    ensures HasDims(Done(path, j - 1), d)
    ensures after == base + ItemsOf(v, Done(path, j - 1))
  {
    var s := path[j - 1];
    StepFacts(path, axes, v, r, cd, d, kd, j);
    ItemsOfStep(v, s);
    Regroup(base, ItemsOf(v, Near(s)), ItemOf(v, s.node.value), ItemsOf(v, Far(s)));
  }

  /** One step of the walk back up: offer the node's value, then search its far branch when
      the queue is not full or the plane on cd is strictly nearer than the farthest item. */
  method Visit(d: nat, v: Point, q: BoundedQueue, cd: nat, cn: Tree, dir: Direction, ghost kd: bool,
               ghost seen: multiset<Item>, ghost pruned: multiset<Item>)
    returns (res: Result<BoundedQueue>, ghost seen': multiset<Item>, ghost pruned': multiset<Item>)
    requires cd < d && |v| == d && cn.Node? && HasDims(cn, d) && (kd ==> IsKD(cn, d, cd))
    requires dir == Left <==> Order(v, cn.value, cd) == Lesser
    requires Holds(q, seen, pruned, kd)
    ensures HasDims(Far(Step(cn, dir)), d)
    ensures res.Panic? <==> q.capacity == 0
    ensures res.Ok? ==> res.value.capacity == q.capacity && Holds(res.value, seen', pruned', kd)
    ensures res.Ok? ==> seen' + pruned' == seen + pruned + multiset{ItemOf(v, cn.value)} + ItemsOf(v, Far(Step(cn, dir)))
    decreases CountNodes(cn), 0
  {
    var item := Item(cn.value, Dist(v, cn.value));
    assert item == ItemOf(v, cn.value);
    var pushed := BoundedQueues.Push(q, item, seen);
    if pushed.Panic? {
      return pushed, seen, pruned;
    }
    var cur := pushed.value;
    HoldsAfterPush(q, item, seen, pruned, kd, cur);
    seen' := seen + multiset{item};
    var next := if dir == Left then cn.right else cn.left;
    assert next == Far(Step(cn, dir));
    if |cur.data| < cur.capacity || DistDim(v, cn.value, cd) < Peek(cur).priority {
      res, seen', pruned' := KnnAt(d, v, cur, NextAxis(cd, d), next, kd, seen', pruned);
      Regroup(seen, pruned, item, ItemsOf(v, next));
    } else {
      HoldsAfterPrune(cur, seen', pruned, kd, v, Step(cn, dir), cd, d);
      pruned' := pruned + ItemsOf(v, next);
      res := Ok(cur);
    }
  }

  lemma Regroup(a: multiset<Item>, b: multiset<Item>, it: Item, c: multiset<Item>)
    ensures a + multiset{it} + b + c == a + b + multiset{it} + c
    ensures a + b + multiset{it} + c == a + (b + multiset{it} + c)
  {
  }

  /** Popping the prefix of length j of a path yields the prefix of length j - 1 and the
      step at j - 1. */
  lemma PopPrefix(path: seq<Step>, j: nat)
    requires 0 < j <= |path|
    ensures PopLast(path[..j]) == (path[..j - 1], path[j - 1].node, path[j - 1].dir)
  {
    assert path[..j][..j - 1] == path[..j - 1];
  }

  /** The drain loop of KNN: k times, pop the farthest item through the heap and keep its
      value. Popping an empty heap indexes past its end and panics. */
  method Drain(q: BoundedQueue, k: nat) returns (r: Result<seq<Point>>, ghost popped: seq<Item>)
    requires IsHeap(q.data)
    ensures r.Panic? <==> |q.data| < k
    ensures r.Ok? ==> |r.value| == k == |popped| && forall i | 0 <= i < k :: r.value[i] == popped[i].data
    ensures r.Ok? && |q.data| == k ==> multiset(popped) == multiset(q.data)
    ensures r.Ok? ==> Descending(popped)
  {
    var h := q.data;
    var out := [];
    popped := [];
    var i := 0;
    while i < k
      invariant i <= k && IsHeap(h) && |out| == |popped| == i
      invariant i <= |q.data| && |h| == |q.data| - i
      invariant multiset(h) + multiset(popped) == multiset(q.data)
      invariant forall m | 0 <= m < i :: out[m] == popped[m].data
      invariant Descending(popped) && Below(h, popped)
    {
      if |h| == 0 {
        return Panic("index out of range [-1]"), popped;
      }
      var top;
      ghost var prev := h;
      h, top := Heap.Pop(h);
      DrainStep(popped, prev, h, top);
      out, popped := out + [top.data], popped + [top];
      i := i + 1;
    }
    r := Ok(out);
  }

  /** Priorities never increase along the sequence. */
  ghost predicate Descending(popped: seq<Item>) {
    forall m, n | 0 <= m < n < |popped| :: popped[m].priority >= popped[n].priority
  }

  /** Nothing left in the heap is above the last item popped. */
  ghost predicate Below(h: seq<Item>, popped: seq<Item>) {
    |popped| > 0 ==> forall y | y in h :: y.priority <= popped[|popped| - 1].priority
  }

  /** Popping a maximal item keeps the popped items descending and the heap below them. */
  lemma DrainStep(popped: seq<Item>, prev: seq<Item>, h: seq<Item>, top: Item)
    requires Descending(popped) && Below(prev, popped)
    requires top in prev && forall y | y in prev :: y.priority <= top.priority
    requires multiset(h) + multiset{top} == multiset(prev)
    ensures Descending(popped + [top]) && Below(h, popped + [top])
  {
    forall y | y in h
      ensures y.priority <= top.priority
    {
      assert y in multiset(h);
      assert y in multiset(prev);
    }
  }

  /** `KNN`: nothing when the tree is empty or holds fewer than k values by its size
      bookkeeping; otherwise the k nearest stored values, farthest first. A non-empty tree
      panics for k = 0 (the queue of capacity 0 is full and empty), and when it has fewer than
      k nodes, which only an overstated size lets through (the drain pops an empty heap). */
  method KNN(t: KDTree, v: Point, k: int) returns (r: Result<seq<Point>>)
    requires t.dims >= 1 && |v| == t.dims && HasDims(t.root, t.dims) && k >= 0
    ensures t.root == Nil || t.size < k ==> r == Ok([])
    ensures t.root != Nil && t.size >= k ==> (r.Panic? <==> k == 0 || CountNodes(t.root) < k)
    ensures r.Ok? ==> |r.value| == if t.root == Nil || t.size < k then 0 else k
    ensures r.Ok? ==> forall i | 0 <= i < |r.value| :: r.value[i] in Elems(t.root) && |r.value[i]| == |v|
    ensures r.Ok? ==> forall i, j | 0 <= i < j < |r.value| :: Dist(v, r.value[i]) >= Dist(v, r.value[j])
    ensures r.Ok? && IsKD(t.root, t.dims, 0) ==>
      forall i, y | 0 <= i < |r.value| && y in Elems(t.root) && y !in r.value :: Dist(v, r.value[i]) <= Dist(v, y)
    ensures r.Ok? && NoDuplicates(t.root) ==> Distinct(r.value)
  {
    if t.root == Nil || t.size < k {
      return Ok([]);
    }
    var q := NewQueue(k);
    ghost var kd := IsKD(t.root, t.dims, 0);
    var searched, seen, pruned := KnnAt(t.dims, v, q, 0, t.root, kd, multiset{}, multiset{});
    if searched.Panic? {
      return Panic(searched.reason);
    }
    var found := searched.value;
    ItemsOfSize(v, t.root);
    QueueFill(found, seen, pruned, kd, ItemsOf(v, t.root), k);
    var drained, popped := Drain(found, k);
    if drained.Ok? {
      assert Drained(t, v, k, found, seen, pruned, kd, drained.value, popped);
      AnswerOrder(t, v, k, found, seen, pruned, kd, drained.value, popped);
      AnswerStored(t, v, k, found, seen, pruned, kd, drained.value, popped);
      AnswerNearest(t, v, k, found, seen, pruned, kd, drained.value, popped);
      AnswerDistinct(t, v, k, found, seen, pruned, kd, drained.value, popped);
    }
    r := drained;
  }

  /** KNN as written panics when asked for no neighbours of a non-empty tree: here, a
      one-value tree with correct bookkeeping. */
  method NoNeighboursPanics() returns (r: Result<seq<Point>>)
    ensures r.Panic?
  {
    var t := KDTree(1, Node(Nil, [0], Nil), 1);
    r := KNN(t, [0], 0);
  }

  /** KNN with the k = 0 case answered by an empty result, as the nil result for an
      undersized tree suggests was intended. On a valid tree it never panics. */
  method KNearest(t: KDTree, v: Point, k: int) returns (r: Result<seq<Point>>)
    requires t.dims >= 1 && |v| == t.dims && HasDims(t.root, t.dims) && k >= 0
    ensures Valid(t) ==> r.Ok?
    ensures k == 0 || t.root == Nil || t.size < k ==> r == Ok([])
    ensures r.Ok? ==> |r.value| == if t.root == Nil || t.size < k then 0 else k
    ensures r.Ok? ==> forall i | 0 <= i < |r.value| :: r.value[i] in Elems(t.root) && |r.value[i]| == |v|
    ensures r.Ok? ==> forall i, j | 0 <= i < j < |r.value| :: Dist(v, r.value[i]) >= Dist(v, r.value[j])
    ensures r.Ok? && IsKD(t.root, t.dims, 0) ==>
      forall i, y | 0 <= i < |r.value| && y in Elems(t.root) && y !in r.value :: Dist(v, r.value[i]) <= Dist(v, y)
    ensures r.Ok? && NoDuplicates(t.root) ==> Distinct(r.value)
  {
    if k == 0 {
      return Ok([]);
    }
    r := KNN(t, v, k);
  }

  /** At the end of the search, the queue holds k items when the tree has at least k values,
      and all of them otherwise. */
  lemma QueueFill(q: BoundedQueue, seen: multiset<Item>, pruned: multiset<Item>, kd: bool, all: multiset<Item>, k: nat)
    requires Holds(q, seen, pruned, kd) && q.capacity == k && seen + pruned == all
    ensures |q.data| == if |all| < k then |all| else k
  {
    var kept := multiset(q.data);
    assert |kept| == |q.data|;
    assert seen == kept + (seen - kept);
    assert all == seen + pruned;
  }

  /** The facts the answer lemmas share: the queue is what the search left, and what it
      kept was drained completely into `popped`, whose values are `out`. */
  ghost predicate Drained(t: KDTree, v: Point, k: nat, q: BoundedQueue, seen: multiset<Item>, pruned: multiset<Item>,
                          kd: bool, out: seq<Point>, popped: seq<Item>) {
    && t.dims >= 1 && |v| == t.dims && HasDims(t.root, t.dims) && kd == IsKD(t.root, t.dims, 0)
    && Holds(q, seen, pruned, kd) && seen + pruned == ItemsOf(v, t.root)
    && |q.data| == k == |out| == |popped| && multiset(popped) == multiset(q.data)
    && forall i | 0 <= i < k :: out[i] == popped[i].data
  }

  /** Every drained value is stored, with its own distance as priority. */
  lemma AnswerStored(t: KDTree, v: Point, k: nat, q: BoundedQueue, seen: multiset<Item>, pruned: multiset<Item>,
                     kd: bool, out: seq<Point>, popped: seq<Item>)
    requires Drained(t, v, k, q, seen, pruned, kd, out, popped)
    ensures forall i | 0 <= i < k :: out[i] in Elems(t.root) && |out[i]| == |v| && popped[i] == ItemOf(v, out[i])
  {
    ItemsOfMembers(v, t.root);
    assert multiset(q.data) <= seen;
    forall i | 0 <= i < k
      ensures out[i] in Elems(t.root) && |out[i]| == |v| && popped[i] == ItemOf(v, out[i])
    {
      assert popped[i] in multiset(popped);
      assert popped[i] in ItemsOf(v, t.root);
    }
  }

  /** The drained values come farthest first. */
  lemma AnswerOrder(t: KDTree, v: Point, k: nat, q: BoundedQueue, seen: multiset<Item>, pruned: multiset<Item>,
                    kd: bool, out: seq<Point>, popped: seq<Item>)
    requires Drained(t, v, k, q, seen, pruned, kd, out, popped) && Descending(popped)
    ensures forall i | 0 <= i < k :: |out[i]| == |v|
    ensures forall i, j | 0 <= i < j < k :: Dist(v, out[i]) >= Dist(v, out[j])
  {
    AnswerStored(t, v, k, q, seen, pruned, kd, out, popped);
  }

  /** On a k-d tree, no drained value is farther from v than a stored value not drained. */
  lemma AnswerNearest(t: KDTree, v: Point, k: nat, q: BoundedQueue, seen: multiset<Item>, pruned: multiset<Item>,
                      kd: bool, out: seq<Point>, popped: seq<Item>)
    requires Drained(t, v, k, q, seen, pruned, kd, out, popped)
    ensures forall i | 0 <= i < k :: |out[i]| == |v|
    ensures kd ==> forall i, y | 0 <= i < k && y in Elems(t.root) && y !in out :: Dist(v, out[i]) <= Dist(v, y)
  {
    AnswerStored(t, v, k, q, seen, pruned, kd, out, popped);
    if kd {
      HasDimsElems(t.root, t.dims);
      ItemsOfMembers(v, t.root);
      forall i, y | 0 <= i < k && y in Elems(t.root) && y !in out
        ensures Dist(v, out[i]) <= Dist(v, y)
      {
        var it := ItemOf(v, y);
        assert it !in multiset(q.data);
        assert popped[i] in q.data by {
          assert popped[i] in multiset(popped);
        }
        if it !in pruned {
          assert it in seen - multiset(q.data);
        }
      }
    }
  }

  /** Without stored duplicates the drained values are distinct. */
  lemma AnswerDistinct(t: KDTree, v: Point, k: nat, q: BoundedQueue, seen: multiset<Item>, pruned: multiset<Item>,
                       kd: bool, out: seq<Point>, popped: seq<Item>)
    requires Drained(t, v, k, q, seen, pruned, kd, out, popped)
    ensures NoDuplicates(t.root) ==> Distinct(out)
  {
    if NoDuplicates(t.root) {
      AnswerStored(t, v, k, q, seen, pruned, kd, out, popped);
      assert multiset(popped) <= ItemsOf(v, t.root) by {
        assert multiset(q.data) <= seen;
      }
      ItemsOfSingle(v, t.root);
      forall i, j | 0 <= i < j < k
        ensures out[i] != out[j]
      {
        if out[i] == out[j] {
          TwiceCounted(popped, i, j);
        }
      }
    }
  }

  /** Without stored duplicates no item occurs twice in ItemsOf. */
  lemma ItemsOfSingle(v: Point, t: Tree)
    requires HasDims(t, |v|) && NoDuplicates(t)
    ensures forall it :: ItemsOf(v, t)[it] <= 1
  {
    forall it
      ensures ItemsOf(v, t)[it] <= 1
    {
      ItemsOfCount(v, t, it);
    }
  }

  /** An item at two positions of a sequence is counted at least twice. */
  lemma TwiceCounted(s: seq<Item>, i: nat, j: nat)
    requires i < j < |s| && s[i] == s[j]
    ensures multiset(s)[s[i]] >= 2
  {
    assert s == s[..j] + [s[j]] + s[j + 1..];
    assert s[..j][i] == s[i];
  }
}
