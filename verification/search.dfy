/**
 * Read-only queries of kdtree.go: the nearest stored value to a query point (a descent to
 * the query's side of each split, then the far side only when the splitting plane is no
 * farther than the best distance so far), and orthogonal range search driven by a caller's
 * classifier.
 */
module Search {
  import opened Outcomes
  import opened Points
  import opened Trees
  import Comparables

  /** `nearestNeighbor`: the query's side of the node's split is searched first (see
      NearestVia). The Go function's incoming best-so-far argument is never read (every path
      overwrites it with a recursive result before using it), so it is not a parameter. */
  function NearestAt(t: Tree, v: Point, cd: nat, d: nat): (r: Option<Point>)
    requires cd < d && |v| == d && HasDims(t, d)
    ensures r.None? <==> t == Nil
    ensures r.Some? ==> |r.value| == d
    decreases CountNodes(t), 1
  {
    match t
    case Nil => None
    case Node(l, x, rt) =>
      if Order(v, x, cd) == Lesser then Some(NearestVia(l, x, rt, v, cd, d))
      else Some(NearestVia(rt, x, l, v, cd, d))
  }

  /** The body of nearestNeighbor at a node with value x, given its next (query-side) and
      other branch: the best of the next branch's answer and x through `closest`, then the
      other branch's answer through `closest` when the distance to the splitting plane on cd
      is at most the best distance so far. */
  function NearestVia(next: Tree, x: Point, other: Tree, v: Point, cd: nat, d: nat): (m: Point)
    requires cd < d && |v| == d && |x| == d && HasDims(next, d) && HasDims(other, d)
    ensures |m| == d
    ensures Dist(v, m) <= Dist(v, x)
    decreases CountNodes(next) + CountNodes(other) + 1, 0
  {
    var ncd := NextAxis(cd, d);
    var nn := Comparables.Closest(v, NearestAt(next, v, ncd, d), Some(x)).value;
    if DistDim(v, x, cd) <= Dist(v, nn) then
      Comparables.Closest(v, NearestAt(other, v, ncd, d), Some(nn)).value
    else
      nn
  }

  /** The answer is a stored value. */
  lemma {:induction false} NearestAtStored(t: Tree, v: Point, cd: nat, d: nat)
    requires cd < d && |v| == d && HasDims(t, d)
    ensures t != Nil ==> NearestAt(t, v, cd, d).value in Elems(t)
    decreases t
  {
    match t
    case Nil =>
    case Node(l, x, rt) =>
      var ncd := NextAxis(cd, d);
      NearestAtStored(l, v, ncd, d);
      NearestAtStored(rt, v, ncd, d);
      var m := NearestAt(t, v, cd, d).value;
      assert m == x || m in Elems(l) || m in Elems(rt) by {
        if Order(v, x, cd) == Lesser {
          NearestViaFrom(l, x, rt, v, cd, d);
        } else {
          NearestViaFrom(rt, x, l, v, cd, d);
        }
      }
      InNode(l, x, rt, m);
  }

  /** NearestVia answers x or one of the two branches' answers. */
  lemma NearestViaFrom(next: Tree, x: Point, other: Tree, v: Point, cd: nat, d: nat)
    requires cd < d && |v| == d && |x| == d && HasDims(next, d) && HasDims(other, d)
    ensures var m := NearestVia(next, x, other, v, cd, d);
      || m == x
      || Some(m) == NearestAt(next, v, NextAxis(cd, d), d)
      || Some(m) == NearestAt(other, v, NextAxis(cd, d), d)
  {
  }

  /** m is at least as close to v as every value stored in t. */
  ghost predicate NearestIn(v: Point, m: Point, t: Tree)
    requires |m| == |v|
  {
    forall y | y in Elems(t) :: |y| == |v| && Dist(v, m) <= Dist(v, y)
  }

  /** Values on the far side of the plane through x on cd are no nearer to v than x's
      distance to the plane on that axis. */
  lemma FarSide(l: Tree, x: Point, rt: Tree, v: Point, cd: nat, d: nat)
    requires cd < d && |v| == d && IsKD(Node(l, x, rt), d, cd)
    ensures Order(v, x, cd) == Lesser ==> forall y | y in Elems(rt) :: Dist(v, y) >= DistDim(v, x, cd)
    ensures Order(v, x, cd) != Lesser ==> forall y | y in Elems(l) :: Dist(v, y) >= DistDim(v, x, cd)
  {
    if Order(v, x, cd) == Lesser {
      forall y | y in Elems(rt)
        ensures Dist(v, y) >= DistDim(v, x, cd)
      {
        OrderEqualIff(y, x, cd);
        DistDimAcrossPlane(v, y, x, cd);
      }
    } else {
      OrderEqualIff(v, x, cd);
      forall y | y in Elems(l)
        ensures Dist(v, y) >= DistDim(v, x, cd)
      {
        DistDimAcrossPlane(v, y, x, cd);
      }
    }
  }

  /** One node of nearestNeighbor: when both branches' answers are nearest within their
      branches and nothing in the other branch is nearer than the splitting plane, the node's
      answer is nearest within both branches and no farther than x. */
  lemma NearestViaNearest(next: Tree, x: Point, other: Tree, v: Point, cd: nat, d: nat)
    requires cd < d && |v| == d && |x| == d && HasDims(next, d) && HasDims(other, d)
    requires next != Nil ==> NearestIn(v, NearestAt(next, v, NextAxis(cd, d), d).value, next)
    requires other != Nil ==> NearestIn(v, NearestAt(other, v, NextAxis(cd, d), d).value, other)
    requires forall y | y in Elems(other) :: Dist(v, y) >= DistDim(v, x, cd)
    ensures var m := NearestVia(next, x, other, v, cd, d);
      NearestIn(v, m, next) && NearestIn(v, m, other) && Dist(v, m) <= Dist(v, x)
  {
    var ncd := NextAxis(cd, d);
    var nn := Comparables.Closest(v, NearestAt(next, v, ncd, d), Some(x)).value;
    var m := NearestVia(next, x, other, v, cd, d);
    assert Dist(v, m) <= Dist(v, nn);
    if next != Nil {
      CloserThrough(v, nn, NearestAt(next, v, ncd, d).value, next);
    }
    if other != Nil && DistDim(v, x, cd) <= Dist(v, nn) {
      CloserThrough(v, m, NearestAt(other, v, ncd, d).value, other);
    }
    CloserThrough(v, m, nn, next);
  }

  /** On a k-d tree the answer is a stored value nearest to v: pruning the far side loses
      nothing, because every value there is at least the plane's distance away. */
  lemma {:induction false} NearestIsNearest(t: Tree, v: Point, cd: nat, d: nat)
    requires cd < d && |v| == d && HasDims(t, d)
    ensures IsKD(t, d, cd) && t != Nil ==> NearestIn(v, NearestAt(t, v, cd, d).value, t)
    decreases t
  {
    match t
    case Nil =>
    case Node(l, x, rt) =>
      if IsKD(t, d, cd) {
        var ncd := NextAxis(cd, d);
        NearestIsNearest(l, v, ncd, d);
        NearestIsNearest(rt, v, ncd, d);
        FarSide(l, x, rt, v, cd, d);
        var m := NearestAt(t, v, cd, d).value;
        if Order(v, x, cd) == Lesser {
          NearestViaNearest(l, x, rt, v, cd, d);
        } else {
          NearestViaNearest(rt, x, l, v, cd, d);
        }
        NearestNode(l, x, rt, v, m);
      }
  }

  lemma CloserThrough(v: Point, m: Point, a: Point, t: Tree)
    requires |m| == |v| && |a| == |v| && Dist(v, m) <= Dist(v, a) && NearestIn(v, a, t)
    ensures NearestIn(v, m, t)
  {
  }

  /** Nearest over a node from nearest over its parts. */
  lemma NearestNode(l: Tree, x: Point, rt: Tree, v: Point, m: Point)
    requires |m| == |v| == |x| && Dist(v, m) <= Dist(v, x)
    requires NearestIn(v, m, l) && NearestIn(v, m, rt)
    ensures NearestIn(v, m, Node(l, x, rt))
  {
  }

  /** `NearestNeighbor`: nothing exactly when the tree is empty; otherwise a stored value at
      minimum distance from v. */
  function NearestNeighbor(t: KDTree, v: Point): (r: Option<Point>)
    requires t.dims >= 1 && |v| == t.dims && HasDims(t.root, t.dims)
    ensures r.None? <==> t.root == Nil
    ensures r.Some? ==> r.value in Elems(t.root)
    ensures r.Some? && IsKD(t.root, t.dims, 0) ==>
      forall y | y in Elems(t.root) :: Dist(v, r.value) <= Dist(v, y)
  {
    NearestAtStored(t.root, v, 0, t.dims);
    NearestIsNearest(t.root, v, 0, t.dims);
    NearestAt(t.root, v, 0, t.dims)
  }

  /** The classifier's answers: before, inside or after the range. Any other value is a
      caller error that range search reports by panicking. */
  const BeforeRange := 0
  const InRange := 1
  const AfterRange := 2

  /** The classifier of RangeSearch: asked with axis -1, whether a value lies in the range;
      asked with an axis, where the value's coordinate lies relative to the range on it. */
  type Classifier = (Point, int) -> int

  /** `rangeSearch`: adds the node when the classifier puts it in range, then continues
      right only when the node is before the range on cd, left only when after, both ways
      when inside, and panics on any other answer. Results are in pre-order. */
  function RangeAt(f: Classifier, t: Tree, cd: nat, d: nat): (r: Result<seq<Point>>)
    requires cd < d
    ensures r.Ok? ==> forall k | 0 <= k < |r.value| :: r.value[k] in Elems(t) && f(r.value[k], -1) == InRange
    decreases t
  {
    match t
    case Nil => Ok([])
    case Node(l, x, rt) =>
      var here := if f(x, -1) == InRange then [x] else [];
      var ncd := NextAxis(cd, d);
      var rel := f(x, cd);
      if rel == BeforeRange then
        Follow(here, RangeAt(f, rt, ncd, d))
      else if rel == AfterRange then
        Follow(here, RangeAt(f, l, ncd, d))
      else if rel == InRange then
        Both(here, RangeAt(f, l, ncd, d), RangeAt(f, rt, ncd, d))
      else
        Panic("Invalid value returned")
  }

  /** The node's contribution followed by one child's results; a panic below propagates. */
  function Follow(here: seq<Point>, below: Result<seq<Point>>): (r: Result<seq<Point>>)
    ensures r.Panic? <==> below.Panic?
    ensures r.Ok? ==> r.value == here + below.value
  {
    match below
    case Ok(vs) => Ok(here + vs)
    case Panic(reason) => Panic(reason)
  }

  /** The node's contribution followed by the left child's and then the right child's results;
      the first panic propagates. */
  function Both(here: seq<Point>, left: Result<seq<Point>>, right: Result<seq<Point>>): (r: Result<seq<Point>>)
    ensures r.Panic? <==> left.Panic? || right.Panic?
    ensures r.Ok? ==> r.value == here + left.value + right.value
  {
    match left
    case Panic(reason) => Panic(reason)
    case Ok(ls) => Follow(here + ls, right)
  }

  /** The stored values the classifier puts in range, in pre-order. */
  function InRangeValues(f: Classifier, vs: seq<Point>): seq<Point> {
    if |vs| == 0 then []
    else (if f(vs[0], -1) == InRange then [vs[0]] else []) + InRangeValues(f, vs[1..])
  }

  lemma {:induction false} InRangeValuesAppend(f: Classifier, a: seq<Point>, b: seq<Point>)
    ensures InRangeValues(f, a + b) == InRangeValues(f, a) + InRangeValues(f, b)
  {
    if |a| == 0 {
      assert a + b == b;
    } else {
      assert (a + b)[1..] == a[1..] + b;
      InRangeValuesAppend(f, a[1..], b);
    }
  }

  /** The in-range values are exactly the members of vs the classifier puts in range. */
  lemma {:induction false} InRangeValuesMembers(f: Classifier, vs: seq<Point>)
    ensures forall y :: y in InRangeValues(f, vs) <==> y in vs && f(y, -1) == InRange
  {
    if |vs| > 0 {
      InRangeValuesMembers(f, vs[1..]);
      assert vs == [vs[0]] + vs[1..];
    }
  }

  /** The classifier only answers before, inside or after on the tree's axes. */
  ghost predicate Answers(f: Classifier, d: nat) {
    forall a: Point, cd: nat | cd < d :: BeforeRange <= f(a, cd) <= AfterRange
  }

  /** The classifier prunes honestly: when it puts a value before the range on an axis,
      nothing ordering before that value there is in range, and when it puts a value after
      the range, nothing ordering at or after it is. */
  ghost predicate Honest(f: Classifier, d: nat) {
    && (forall a: Point, b: Point, cd: nat | |a| == d && |b| == d && cd < d && f(a, cd) == BeforeRange && Order(b, a, cd) == Lesser ::
          f(b, -1) != InRange)
    && (forall a: Point, b: Point, cd: nat | |a| == d && |b| == d && cd < d && f(a, cd) == AfterRange && Order(b, a, cd) != Lesser ::
          f(b, -1) != InRange)
  }

  /** None of the values of t is in range. */
  ghost predicate NoneInRange(f: Classifier, t: Tree) {
    forall y | y in Elems(t) :: f(y, -1) != InRange
  }

  lemma NoneInRangeValues(f: Classifier, t: Tree)
    requires NoneInRange(f, t)
    ensures InRangeValues(f, Values(t)) == []
  {
    var vs := Values(t);
    forall k | 0 <= k < |vs|
      ensures f(vs[k], -1) != InRange
    {
      assert vs[k] in multiset(vs);
    }
    NoneInRangeSeq(f, vs);
  }

  lemma {:induction false} NoneInRangeSeq(f: Classifier, vs: seq<Point>)
    requires forall k | 0 <= k < |vs| :: f(vs[k], -1) != InRange
    ensures InRangeValues(f, vs) == []
  {
    if |vs| > 0 {
      NoneInRangeSeq(f, vs[1..]);
    }
  }

  /** With a classifier that answers within range and prunes honestly, range search on a k-d
      tree does not panic and returns exactly the stored values in range, in pre-order. */
  lemma {:induction false} RangeAtComplete(f: Classifier, t: Tree, cd: nat, d: nat)
    requires cd < d
    ensures Answers(f, d) && Honest(f, d) && IsKD(t, d, cd) ==> RangeAt(f, t, cd, d) == Ok(InRangeValues(f, Values(t)))
    decreases t
  {
    match t
    case Nil =>
    case Node(l, x, rt) =>
      if Answers(f, d) && Honest(f, d) && IsKD(t, d, cd) {
        var ncd := NextAxis(cd, d);
        RangeAtComplete(f, l, ncd, d);
        RangeAtComplete(f, rt, ncd, d);
        if f(x, cd) == BeforeRange {
          PrunedLeft(f, l, x, rt, cd, d);
        } else if f(x, cd) == AfterRange {
          PrunedRight(f, l, x, rt, cd, d);
        }
        NodeInRange(f, l, x, rt);
        RangeNode(f, l, x, rt, cd, d, InRangeValues(f, Values(l)), InRangeValues(f, Values(rt)));
      }
  }

  /** One node of range search: from exact answers il and ir for the children, with nothing
      in range in a branch the classifier prunes, the node's answer is its own value when in
      range, then il, then ir. */
  lemma RangeNode(f: Classifier, l: Tree, x: Point, rt: Tree, cd: nat, d: nat, il: seq<Point>, ir: seq<Point>)
    requires cd < d && BeforeRange <= f(x, cd) <= AfterRange
    requires f(x, cd) == BeforeRange ==> il == []
    requires f(x, cd) == AfterRange ==> ir == []
    requires RangeAt(f, l, NextAxis(cd, d), d) == Ok(il)
    requires RangeAt(f, rt, NextAxis(cd, d), d) == Ok(ir)
    ensures RangeAt(f, Node(l, x, rt), cd, d) == Ok((if f(x, -1) == InRange then [x] else []) + il + ir)
  {
    if f(x, cd) == BeforeRange {
      RangeNodeBefore(f, l, x, rt, cd, d, ir);
    } else if f(x, cd) == AfterRange {
      RangeNodeAfter(f, l, x, rt, cd, d, il);
    } else {
      RangeNodeInside(f, l, x, rt, cd, d, il, ir);
    }
  }

  /** The node before the range on cd: only the right branch is searched. */
  lemma RangeNodeBefore(f: Classifier, l: Tree, x: Point, rt: Tree, cd: nat, d: nat, ir: seq<Point>)
    requires cd < d && f(x, cd) == BeforeRange
    requires RangeAt(f, rt, NextAxis(cd, d), d) == Ok(ir)
    ensures RangeAt(f, Node(l, x, rt), cd, d) == Ok((if f(x, -1) == InRange then [x] else []) + [] + ir)
  {
    var here := if f(x, -1) == InRange then [x] else [];
    assert here + [] + ir == here + ir;
  }

  /** The node after the range on cd: only the left branch is searched. */
  lemma RangeNodeAfter(f: Classifier, l: Tree, x: Point, rt: Tree, cd: nat, d: nat, il: seq<Point>)
    requires cd < d && f(x, cd) == AfterRange
    requires RangeAt(f, l, NextAxis(cd, d), d) == Ok(il)
    ensures RangeAt(f, Node(l, x, rt), cd, d) == Ok((if f(x, -1) == InRange then [x] else []) + il + [])
  {
    var here := if f(x, -1) == InRange then [x] else [];
    assert here + il + [] == here + il;
  }

  /** The node inside the range on cd: both branches are searched, left first. */
  lemma RangeNodeInside(f: Classifier, l: Tree, x: Point, rt: Tree, cd: nat, d: nat, il: seq<Point>, ir: seq<Point>)
    requires cd < d && f(x, cd) == InRange
    requires RangeAt(f, l, NextAxis(cd, d), d) == Ok(il) && RangeAt(f, rt, NextAxis(cd, d), d) == Ok(ir)
    ensures RangeAt(f, Node(l, x, rt), cd, d) == Ok((if f(x, -1) == InRange then [x] else []) + il + ir)
  {
  }

  /** The in-range values of a node in pre-order: the node's own, then the left branch's,
      then the right branch's. */
  lemma NodeInRange(f: Classifier, l: Tree, x: Point, rt: Tree)
    ensures InRangeValues(f, Values(Node(l, x, rt))) ==
      (if f(x, -1) == InRange then [x] else []) + InRangeValues(f, Values(l)) + InRangeValues(f, Values(rt))
  {
    InRangeValuesAppend(f, [x] + Values(l), Values(rt));
    InRangeValuesAppend(f, [x], Values(l));
    assert [x][1..] == [];
  }

  /** Before the range on cd at the node: nothing in the left branch is in range. */
  lemma PrunedLeft(f: Classifier, l: Tree, x: Point, rt: Tree, cd: nat, d: nat)
    requires cd < d && Honest(f, d) && IsKD(Node(l, x, rt), d, cd) && f(x, cd) == BeforeRange
    ensures InRangeValues(f, Values(l)) == []
  {
    forall y | y in Elems(l)
      ensures f(y, -1) != InRange
    {
      assert |y| == d && Order(y, x, cd) == Lesser;
    }
    NoneInRangeValues(f, l);
  }

  /** After the range on cd at the node: nothing in the right branch is in range. */
  lemma PrunedRight(f: Classifier, l: Tree, x: Point, rt: Tree, cd: nat, d: nat)
    requires cd < d && Honest(f, d) && IsKD(Node(l, x, rt), d, cd) && f(x, cd) == AfterRange
    ensures InRangeValues(f, Values(rt)) == []
  {
    forall y | y in Elems(rt)
      ensures f(y, -1) != InRange
    {
      assert |y| == d && Order(y, x, cd) != Lesser;
    }
    NoneInRangeValues(f, rt);
  }

  /** `RangeSearch`: range search from the root. */
  function RangeSearch(t: KDTree, f: Classifier): (r: Result<seq<Point>>)
    requires t.dims >= 1
    ensures r.Ok? ==> forall k | 0 <= k < |r.value| :: r.value[k] in Elems(t.root) && f(r.value[k], -1) == InRange
    ensures Answers(f, t.dims) && Honest(f, t.dims) && IsKD(t.root, t.dims, 0) ==>
      r == Ok(InRangeValues(f, Values(t.root)))
  {
    RangeAtComplete(f, t.root, 0, t.dims);
    RangeAt(f, t.root, 0, t.dims)
  }

  /** Inside the half-open box [lo, hi) on every axis. */
  predicate InBox(a: Point, lo: Point, hi: Point) {
    |a| == |lo| == |hi| && forall k | 0 <= k < |a| :: lo[k] <= a[k] < hi[k]
  }

  /** The box classifier of the range-search tests: in range inside [lo, hi); on an axis,
      before when the coordinate is below lo, after when it is at or above hi, and inside
      otherwise; anything else (outside the box, an unknown axis) is after. */
  function BoxClassifier(lo: Point, hi: Point): (f: Classifier)
    ensures forall a: Point :: f(a, -1) == InRange <==> InBox(a, lo, hi)
  {
    (a: Point, i: int) =>
      if i == -1 then (if InBox(a, lo, hi) then InRange else AfterRange)
      else if 0 <= i < |a| && i < |lo| && i < |hi| then
        (if a[i] < lo[i] then BeforeRange else if a[i] >= hi[i] then AfterRange else InRange)
      else AfterRange
  }

  /** The box classifier answers within range and prunes honestly, so range search with it
      returns exactly the stored values inside the box. */
  lemma BoxHonest(lo: Point, hi: Point)
    ensures Answers(BoxClassifier(lo, hi), |lo|)
    ensures Honest(BoxClassifier(lo, hi), |lo|)
  {
    var f := BoxClassifier(lo, hi);
    var d := |lo|;
    forall a: Point, b: Point, cd: nat | |a| == d && |b| == d && cd < d && f(a, cd) == AfterRange && Order(b, a, cd) != Lesser
      ensures f(b, -1) != InRange
    {
      OrderEqualIff(b, a, cd);
    }
  }

  /** Range search with the box classifier on a valid tree returns, in pre-order, exactly the
      stored values inside the box. */
  lemma RangeSearchBox(t: KDTree, lo: Point, hi: Point)
    requires Valid(t) && |lo| == t.dims
    ensures RangeSearch(t, BoxClassifier(lo, hi)).Ok?
    ensures forall y :: y in RangeSearch(t, BoxClassifier(lo, hi)).value <==> y in Elems(t.root) && InBox(y, lo, hi)
  {
    var f := BoxClassifier(lo, hi);
    BoxHonest(lo, hi);
    InRangeValuesMembers(f, Values(t.root));
    forall y
      ensures y in Values(t.root) <==> y in Elems(t.root)
    {
      assert y in Values(t.root) <==> y in multiset(Values(t.root));
    }
  }
}
