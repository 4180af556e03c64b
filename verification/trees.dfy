/**
 * The k-d tree itself (kdtree_types.go): a binary tree of points with the tree's dimension
 * count and its size bookkeeping, the k-d ordering invariant, pre-order Values, and the test
 * helpers of kdtree_internal_utils_test.go (node count, test-tree constructor, child setters,
 * structural equality).
 */
module Trees {
  import opened Outcomes
  import opened Points

  datatype Tree = Nil | Node(left: Tree, value: Point, right: Tree)

  /** KDTree: `size` is the tree's own bookkeeping, which the operations keep by hand and
      which need not match the number of nodes. */
  datatype KDTree = KDTree(dims: nat, root: Tree, size: int)

  /** The stored values, with multiplicity. */
  function Elems(t: Tree): multiset<Point> {
    match t
    case Nil => multiset{}
    case Node(l, x, r) => Elems(l) + multiset{x} + Elems(r)
  }

  /** A node stores its own value and its children's. */
  lemma InNode(l: Tree, x: Point, r: Tree, v: Point)
    ensures v in Elems(Node(l, x, r)) <==> v == x || v in Elems(l) || v in Elems(r)
  {
  }

  /** `countNodes`. */
  function CountNodes(t: Tree): (n: nat)
    ensures n == |Elems(t)|
    ensures n == 0 <==> t == Nil
  {
    match t
    case Nil => 0
    case Node(l, _, r) => 1 + CountNodes(l) + CountNodes(r)
  }

  /** `valuesImpl`: the stored values in pre-order (node, then left, then right). */
  function Values(t: Tree): (vs: seq<Point>)
    ensures multiset(vs) == Elems(t)
    ensures |vs| == CountNodes(t)
  {
    match t
    case Nil => []
    case Node(l, x, r) => [x] + Values(l) + Values(r)
  }

  /** `Values` on a tree: the listing buffer is allocated with the size bookkeeping as its
      capacity, which panics when that bookkeeping is negative; otherwise every stored value
      in pre-order, however far the bookkeeping is from the node count. */
  function ValuesOf(t: KDTree): (r: Result<seq<Point>>)
    ensures r.Panic? <==> t.size < 0
    ensures r.Ok? ==> multiset(r.value) == Elems(t.root) && |r.value| == CountNodes(t.root)
  {
    if t.size < 0 then Panic("makeslice: cap out of range") else Ok(Values(t.root))
  }

  /** Every stored value has d coordinates. */
  predicate HasDims(t: Tree, d: nat) {
    match t
    case Nil => true
    case Node(l, x, r) => |x| == d && HasDims(l, d) && HasDims(r, d)
  }

  lemma {:induction false} HasDimsElems(t: Tree, d: nat)
    requires HasDims(t, d)
    ensures forall x | x in Elems(t) :: |x| == d
  {
    match t
    case Nil =>
    case Node(l, x, r) =>
      HasDimsElems(l, d);
      HasDimsElems(r, d);
  }

  /** The k-d invariant for a subtree whose root splits on axis cd: every value of the left
      subtree orders Lesser than the node on cd, no value of the right subtree does, and the
      children split on the next axis. */
  ghost predicate IsKD(t: Tree, d: nat, cd: nat)
    requires cd < d
  {
    match t
    case Nil => true
    case Node(l, x, r) =>
      && |x| == d
      && (forall y | y in Elems(l) :: |y| == d && Order(y, x, cd) == Lesser)
      && (forall y | y in Elems(r) :: |y| == d && Order(y, x, cd) != Lesser)
      && IsKD(l, d, NextAxis(cd, d))
      && IsKD(r, d, NextAxis(cd, d))
  }

  lemma {:induction false} IsKDHasDims(t: Tree, d: nat, cd: nat)
    requires cd < d && IsKD(t, d, cd)
    ensures HasDims(t, d)
  {
    match t
    case Nil =>
    case Node(l, x, r) =>
      IsKDHasDims(l, d, NextAxis(cd, d));
      IsKDHasDims(r, d, NextAxis(cd, d));
  }

  /** The k-d invariant at one node, from its parts. */
  lemma IsKDNode(l: Tree, x: Point, r: Tree, d: nat, cd: nat)
    requires cd < d && |x| == d
    requires forall y | y in Elems(l) :: |y| == d && Order(y, x, cd) == Lesser
    requires forall y | y in Elems(r) :: |y| == d && Order(y, x, cd) != Lesser
    requires IsKD(l, d, NextAxis(cd, d)) && IsKD(r, d, NextAxis(cd, d))
    ensures IsKD(Node(l, x, r), d, cd)
  {
  }

  /** No value is stored twice. Insert refuses a value that is already there, and bulk
      construction is given distinct values. */
  predicate NoDuplicates(t: Tree) {
    forall x | x in Elems(t) :: Elems(t)[x] == 1
  }

  /** A well-kept tree: at least one axis, the k-d invariant from axis 0 at the root, no
      repeated value, and size bookkeeping equal to the node count. */
  ghost predicate Valid(t: KDTree) {
    t.dims >= 1 && IsKD(t.root, t.dims, 0) && NoDuplicates(t.root) && t.size == CountNodes(t.root)
  }

  /** `NewTestKDTree`: wraps a hand-built root with its node count as size, so the result is
      valid exactly when the root satisfies the invariant. */
  function NewTestKDTree(d: nat, r: Tree): (t: KDTree)
    ensures t.root == r && t.dims == d
    ensures |Values(t.root)| == t.size
    ensures d >= 1 ==> (Valid(t) <==> IsKD(r, d, 0) && NoDuplicates(r))
  {
    KDTree(d, r, CountNodes(r))
  }

  /** `SetLeft`: replaces the left child only. */
  function SetLeft(n: Tree, nn: Tree): (r: Tree)
    requires n.Node?
    ensures r.Node? && r.left == nn && r.value == n.value && r.right == n.right
    ensures Elems(r) + Elems(n.left) == Elems(n) + Elems(nn)
  {
    Node(nn, n.value, n.right)
  }

  /** `SetRight`: replaces the right child only. */
  function SetRight(n: Tree, nn: Tree): (r: Tree)
    requires n.Node?
    ensures r.Node? && r.right == nn && r.value == n.value && r.left == n.left
    ensures Elems(r) + Elems(n.right) == Elems(n) + Elems(nn)
  {
    Node(n.left, n.value, nn)
  }

  /** The number of nodes, plus one per pair, still to be compared by IdenticalTrees. */
  function PendingWork(stk: seq<(Tree, Tree)>): nat {
    if |stk| == 0 then 0
    else PendingWork(stk[..|stk| - 1]) + CountNodes(stk[|stk| - 1].0) + CountNodes(stk[|stk| - 1].1) + 1
  }

  lemma PendingWorkExpand(rest: seq<(Tree, Tree)>, p: Tree, q: Tree)
    requires p.Node? && q.Node?
    ensures PendingWork(rest + [(p.left, q.left), (p.right, q.right)]) < PendingWork(rest + [(p, q)])
  {
    var b := rest + [(p.left, q.left), (p.right, q.right)];
    assert b[..|b| - 1] == rest + [(p.left, q.left)];
    assert (rest + [(p.left, q.left)])[..|rest|] == rest;
    assert (rest + [(p, q)])[..|rest|] == rest;
  }

  /** Every pair still on the comparison stack holds equal trees. */
  predicate AllSame(stk: seq<(Tree, Tree)>) {
    forall k | 0 <= k < |stk| :: stk[k].0 == stk[k].1
  }

  /** Replacing a pair of nodes with equal values by the pairs of their children keeps the
      answer: the nodes are equal exactly when both child pairs are. */
  lemma AllSameExpand(rest: seq<(Tree, Tree)>, p: Tree, q: Tree)
    requires p.Node? && q.Node? && p.value == q.value
    ensures AllSame(rest + [(p, q)]) <==> AllSame(rest + [(p.left, q.left), (p.right, q.right)])
  {
    var a := rest + [(p, q)];
    var b := rest + [(p.left, q.left), (p.right, q.right)];
    if AllSame(b) {
      assert b[|rest|].0 == b[|rest|].1 && b[|rest| + 1].0 == b[|rest| + 1].1;
      forall k | 0 <= k < |a|
        ensures a[k].0 == a[k].1
      {
        if k < |rest| {
          assert a[k] == b[k];
        }
      }
    }
    if AllSame(a) {
      assert a[|rest|].0 == a[|rest|].1;
      forall k | 0 <= k < |b|
        ensures b[k].0 == b[k].1
      {
        if k < |rest| {
          assert a[k] == b[k];
        }
      }
    }
  }

  /** Every tree on the comparison stack has d-coordinate values. */
  predicate StackDims(stk: seq<(Tree, Tree)>, d: nat) {
    forall k | 0 <= k < |stk| :: HasDims(stk[k].0, d) && HasDims(stk[k].1, d)
  }

  /** Splitting the top pair off the stack. */
  lemma AllSameDrop(stk: seq<(Tree, Tree)>, d: nat)
    requires |stk| > 0 && StackDims(stk, d)
    ensures stk == stk[..|stk| - 1] + [stk[|stk| - 1]]
    ensures AllSame(stk) <==> AllSame(stk[..|stk| - 1]) && stk[|stk| - 1].0 == stk[|stk| - 1].1
    ensures StackDims(stk[..|stk| - 1], d)
    ensures HasDims(stk[|stk| - 1].0, d) && HasDims(stk[|stk| - 1].1, d)
    ensures PendingWork(stk[..|stk| - 1]) < PendingWork(stk)
  {
  }

  lemma StackDimsExpand(rest: seq<(Tree, Tree)>, p: Tree, q: Tree, d: nat)
    requires p.Node? && q.Node? && StackDims(rest + [(p, q)], d)
    ensures StackDims(rest, d) && HasDims(p, d) && HasDims(q, d)
    ensures StackDims(rest + [(p.left, q.left), (p.right, q.right)], d)
  {
    var a := rest + [(p, q)];
    assert a[|rest|] == (p, q);
    assert forall k | 0 <= k < |rest| :: a[k] == rest[k];
  }

  /** `IdenticalTrees`: compares the two roots with an explicit stack of node pairs; two
      values match when their distance is 0. The trees' dims and size are not compared. */
  method IdenticalTrees(lhs: KDTree, rhs: KDTree) returns (same: bool)
    requires HasDims(lhs.root, lhs.dims) && HasDims(rhs.root, lhs.dims)
    ensures same <==> lhs.root == rhs.root
  {
    var stk := [(lhs.root, rhs.root)];
    while |stk| != 0
      invariant StackDims(stk, lhs.dims)
      invariant lhs.root == rhs.root <==> AllSame(stk)
      decreases PendingWork(stk)
    {
      var p := stk[|stk| - 1].0;
      var q := stk[|stk| - 1].1;
      var rest := stk[..|stk| - 1];
      AllSameDrop(stk, lhs.dims);
      if p.Node? && q.Node? && Dist(p.value, q.value) == 0 {
        AllSameExpand(rest, p, q);
        StackDimsExpand(rest, p, q, lhs.dims);
        PendingWorkExpand(rest, p, q);
        stk := rest + [(p.left, q.left), (p.right, q.right)];
      } else if p.Node? || q.Node? {
        return false;
      } else {
        stk := rest;
      }
    }
    return true;
  }
}
