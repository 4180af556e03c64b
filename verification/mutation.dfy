/**
 * Single-value updates of kdtree.go: Insert (a loop down the search path that hangs a new
 * leaf on the first empty child), FindMin / FindMax on one target axis, and Remove (which
 * replaces a matched node's value by the least value of a subtree on the node's axis and
 * removes that value from the subtree instead).
 *
 * Go mutates the nodes in place; here every operation returns the new tree. A value is
 * matched when its distance to the node's value is 0, which for these points is equality.
 */
module Mutation {
  import opened Outcomes
  import opened Points
  import opened Trees
  import Comparables
  import Construction

  /** `insert`: follows the search path from a node splitting on cd; returns the tree unchanged
      and false on meeting a value at distance 0, and otherwise the tree with a new leaf at the
      first empty child and true. */
  function InsertAt(t: Tree, v: Point, cd: nat, d: nat): (r: (Tree, bool))
    requires cd < d && |v| == d && HasDims(t, d)
    ensures r.0.Node? && HasDims(r.0, d)
    ensures !r.1 ==> r.0 == t && v in Elems(t)
    ensures r.1 ==> Elems(r.0) == Elems(t) + multiset{v}
    decreases t
  {
    match t
    case Nil => (Node(Nil, v, Nil), true)
    case Node(l, x, rt) =>
      if Dist(v, x) == 0 then (t, false)
      else if Order(v, x, cd) == Lesser then
        var (l', ok) := InsertAt(l, v, NextAxis(cd, d), d);
        (Node(l', x, rt), ok)
      else
        var (rt', ok) := InsertAt(rt, v, NextAxis(cd, d), d);
        (Node(l, x, rt'), ok)
  }

  /** On a k-d tree the search path meets v exactly when v is stored. */
  lemma {:induction false} InsertAtFinds(t: Tree, v: Point, cd: nat, d: nat)
    requires cd < d && |v| == d && HasDims(t, d)
    ensures IsKD(t, d, cd) ==> (InsertAt(t, v, cd, d).1 <==> v !in Elems(t))
    decreases t
  {
    match t
    case Nil =>
    case Node(l, x, rt) =>
      if IsKD(t, d, cd) && Dist(v, x) != 0 {
        InsertAtFinds(l, v, NextAxis(cd, d), d);
        InsertAtFinds(rt, v, NextAxis(cd, d), d);
        if Order(v, x, cd) == Lesser {
          OrderConverse(v, x, cd);
          assert v !in Elems(rt);
        } else {
          assert v !in Elems(l);
        }
      }
  }

  /** The new leaf keeps the k-d invariant. */
  lemma {:induction false} InsertAtKD(t: Tree, v: Point, cd: nat, d: nat)
    requires cd < d && |v| == d && HasDims(t, d)
    ensures IsKD(t, d, cd) ==> IsKD(InsertAt(t, v, cd, d).0, d, cd)
    decreases t
  {
    match t
    case Nil =>
    case Node(l, x, rt) =>
      var ncd := NextAxis(cd, d);
      if IsKD(t, d, cd) && Dist(v, x) != 0 {
        if Order(v, x, cd) == Lesser {
          InsertAtKD(l, v, ncd, d);
          var (l', ok) := InsertAt(l, v, ncd, d);
          if ok {
            GrowLeft(l, x, rt, l', v, cd, d);
          }
        } else {
          InsertAtKD(rt, v, ncd, d);
          var (rt', ok) := InsertAt(rt, v, ncd, d);
          if ok {
            GrowRight(l, x, rt, rt', v, cd, d);
          }
        }
      }
  }

  /** A left child that gains a value ordering before the node keeps the node a k-d node. */
  lemma GrowLeft(l: Tree, x: Point, rt: Tree, l': Tree, v: Point, cd: nat, d: nat)
    requires cd < d && IsKD(Node(l, x, rt), d, cd) && IsKD(l', d, NextAxis(cd, d))
    requires |v| == d && Order(v, x, cd) == Lesser && Elems(l') == Elems(l) + multiset{v}
    ensures IsKD(Node(l', x, rt), d, cd)
  {
    forall y | y in Elems(l')
      ensures |y| == d && Order(y, x, cd) == Lesser
    {
      if y != v {
        assert y in Elems(l);
      }
    }
    IsKDNode(l', x, rt, d, cd);
  }

  /** A right child that gains a value not ordering before the node keeps it a k-d node. */
  lemma GrowRight(l: Tree, x: Point, rt: Tree, rt': Tree, v: Point, cd: nat, d: nat)
    requires cd < d && IsKD(Node(l, x, rt), d, cd) && IsKD(rt', d, NextAxis(cd, d))
    requires |v| == d && Order(v, x, cd) != Lesser && Elems(rt') == Elems(rt) + multiset{v}
    ensures IsKD(Node(l, x, rt'), d, cd)
  {
    forall y | y in Elems(rt')
      ensures |y| == d && Order(y, x, cd) != Lesser
    {
      if y != v {
        assert y in Elems(rt);
      }
    }
    IsKDNode(l, x, rt', d, cd);
  }

  /** A left child that loses values keeps the node a k-d node. */
  lemma ShrinkLeft(l: Tree, x: Point, rt: Tree, l': Tree, cd: nat, d: nat)
    requires cd < d && IsKD(Node(l, x, rt), d, cd) && IsKD(l', d, NextAxis(cd, d))
    requires Elems(l') <= Elems(l)
    ensures IsKD(Node(l', x, rt), d, cd)
  {
    forall y | y in Elems(l')
      ensures |y| == d && Order(y, x, cd) == Lesser
    {
      assert y in Elems(l);
    }
    IsKDNode(l', x, rt, d, cd);
  }

  /** A right child that loses values keeps the node a k-d node. */
  lemma ShrinkRight(l: Tree, x: Point, rt: Tree, rt': Tree, cd: nat, d: nat)
    requires cd < d && IsKD(Node(l, x, rt), d, cd) && IsKD(rt', d, NextAxis(cd, d))
    requires Elems(rt') <= Elems(rt)
    ensures IsKD(Node(l, x, rt'), d, cd)
  {
    forall y | y in Elems(rt')
      ensures |y| == d && Order(y, x, cd) != Lesser
    {
      assert y in Elems(rt);
    }
    IsKDNode(l, x, rt', d, cd);
  }

  /** `Insert`, as written: an empty tree gets the value as its root WITHOUT the size being
      incremented; otherwise size grows by one exactly when insert reports a new leaf. */
  function Insert(t: KDTree, v: Point): (r: KDTree)
    requires t.dims >= 1 && |v| == t.dims && HasDims(t.root, t.dims)
    ensures r.dims == t.dims && r.root.Node? && HasDims(r.root, t.dims)
    ensures t.root == Nil ==> r.size == t.size && Elems(r.root) == multiset{v}
    ensures IsKD(t.root, t.dims, 0) ==>
      && Elems(r.root) == (if v in Elems(t.root) then Elems(t.root) else Elems(t.root) + multiset{v})
      && IsKD(r.root, t.dims, 0)
      && (t.root != Nil ==> r.size == if v in Elems(t.root) then t.size else t.size + 1)
  {
    if t.root == Nil then
      t.(root := Node(Nil, v, Nil))
    else
      InsertAtFinds(t.root, v, 0, t.dims);
      InsertAtKD(t.root, v, 0, t.dims);
      var (root, ok) := InsertAt(t.root, v, 0, t.dims);
      if ok then KDTree(t.dims, root, t.size + 1) else t.(root := root)
  }

  /** Inserting into an empty valid tree leaves its size bookkeeping one short: the tree is
      no longer valid (and Encode would then panic on it). */
  lemma InsertIntoEmptyLosesCount(d: nat, v: Point)
    requires d >= 1 && |v| == d
    ensures var t := KDTree(d, Nil, 0);
      Valid(t) && !Valid(Insert(t, v)) && Insert(t, v).size == 0 && CountNodes(Insert(t, v).root) == 1
  {
  }

  /** Insert with the size bookkeeping of the non-empty branch applied to the empty one too. */
  function InsertCounted(t: KDTree, v: Point): (r: KDTree)
    requires t.dims >= 1 && |v| == t.dims && HasDims(t.root, t.dims)
    ensures r.dims == t.dims && r.root.Node?
    ensures r.root == Insert(t, v).root
    ensures t.root != Nil ==> r == Insert(t, v)
  {
    if t.root == Nil then KDTree(t.dims, Node(Nil, v, Nil), t.size + 1) else Insert(t, v)
  }

  /** The corrected insert keeps a valid tree valid and adds v exactly when it is new. */
  lemma InsertCountedValid(t: KDTree, v: Point)
    requires Valid(t) && |v| == t.dims
    ensures HasDims(t.root, t.dims) && Valid(InsertCounted(t, v))
    ensures Elems(InsertCounted(t, v).root) == Elems(t.root) + (if v in Elems(t.root) then multiset{} else multiset{v})
  {
    IsKDHasDims(t.root, t.dims, 0);
    var r := InsertCounted(t, v);
    if v !in Elems(t.root) {
      NoDuplicatesGrow(t.root, r.root, v);
    }
  }

  /** Adding a value not yet stored keeps every value stored once. */
  lemma NoDuplicatesGrow(t: Tree, t': Tree, v: Point)
    requires NoDuplicates(t) && v !in Elems(t) && Elems(t') == Elems(t) + multiset{v}
    ensures NoDuplicates(t')
  {
    forall y | y in Elems(t')
      ensures Elems(t')[y] == 1
    {
      if y != v {
        assert Elems(t')[y] == Elems(t)[y];
      }
    }
  }

  /** Dropping values keeps every value stored once. */
  lemma NoDuplicatesShrink(t: Tree, t': Tree)
    requires NoDuplicates(t) && Elems(t') <= Elems(t)
    ensures NoDuplicates(t')
  {
    forall y | y in Elems(t')
      ensures Elems(t')[y] == 1
    {
      assert Elems(t)[y] == 1;
    }
  }

  /** `findMin`: the least value of a subtree under the super-key on the target axis tcd,
      from a node splitting on cd. The right child is searched only when cd is not tcd. */
  function FindMinAt(t: Tree, tcd: nat, cd: nat, d: nat): (r: Option<Point>)
    requires tcd < d && cd < d && HasDims(t, d)
    ensures r.None? <==> t == Nil
    ensures r.Some? ==> r.value in Elems(t) && |r.value| == d
    decreases t
  {
    match t
    case Nil => None
    case Node(l, x, rt) =>
      var lMin := FindMinAt(l, tcd, NextAxis(cd, d), d);
      var rMin := if tcd != cd then FindMinAt(rt, tcd, NextAxis(cd, d), d) else None;
      var m := Smallest(lMin, rMin, x, tcd);
      ChosenIn(l, x, rt, m, lMin, rMin);
      Some(m)
  }

  /** A value chosen from the node's own value and the children's answers is stored in the
      node's subtree. */
  lemma ChosenIn(l: Tree, x: Point, rt: Tree, m: Point, a: Option<Point>, b: Option<Point>)
    requires a.Some? ==> a.value in Elems(l)
    requires b.Some? ==> b.value in Elems(rt)
    requires Some(m) == a || Some(m) == b || m == x
    ensures m in Elems(Node(l, x, rt))
  {
  }

  /** findMin's choice at a node among the children's answers (when present) and the node's
      own value: a child's answer only when it orders strictly before the node, and with
      both present, `min` of the left one and `min` of the right one and the node. */
  function Smallest(lMin: Option<Point>, rMin: Option<Point>, x: Point, tcd: nat): (m: Point)
    requires tcd < |x|
    requires lMin.Some? ==> |lMin.value| == |x|
    requires rMin.Some? ==> |rMin.value| == |x|
    ensures Some(m) == lMin || Some(m) == rMin || m == x
    ensures Order(m, x, tcd) != Greater
    ensures lMin.Some? ==> Order(m, lMin.value, tcd) != Greater
    ensures rMin.Some? ==> Order(m, rMin.value, tcd) != Greater
    ensures m != x ==> Order(m, x, tcd) == Lesser
    ensures lMin.Some? && Some(m) == rMin && m != lMin.value ==> Order(m, lMin.value, tcd) == Lesser
  {
    OrderEqualIff(x, x, tcd);
    if lMin.None? && rMin.None? then x
    else if lMin.None? then
      OrderConverse(rMin.value, x, tcd);
      OrderEqualIff(rMin.value, rMin.value, tcd);
      if Order(rMin.value, x, tcd) == Lesser then rMin.value else x
    else if rMin.None? then
      OrderConverse(lMin.value, x, tcd);
      OrderEqualIff(lMin.value, lMin.value, tcd);
      if Order(lMin.value, x, tcd) == Lesser then lMin.value else x
    else
      var inner := Comparables.Min(rMin.value, x, tcd);
      var m := Comparables.Min(lMin.value, inner, tcd);
      OrderConverse(lMin.value, inner, tcd);
      OrderEqualIff(lMin.value, inner, tcd);
      OrderLeTransitive(m, inner, x, tcd);
      OrderLeTransitive(m, inner, rMin.value, tcd);
      m
  }

  /** m orders no later than any value stored in t, on axis tcd. */
  ghost predicate LeastIn(m: Point, t: Tree, tcd: nat)
    requires tcd < |m|
  {
    forall y | y in Elems(t) :: |y| == |m| && Order(m, y, tcd) != Greater
  }

  /** m orders no earlier than any value stored in t, on axis tcd. */
  ghost predicate GreatestIn(m: Point, t: Tree, tcd: nat)
    requires tcd < |m|
  {
    forall y | y in Elems(t) :: |y| == |m| && Order(m, y, tcd) != Lesser
  }

  lemma LeastThrough(m: Point, a: Point, t: Tree, tcd: nat)
    requires tcd < |m| && |a| == |m| && Order(m, a, tcd) != Greater && LeastIn(a, t, tcd)
    ensures LeastIn(m, t, tcd)
  {
    forall y | y in Elems(t)
      ensures Order(m, y, tcd) != Greater
    {
      OrderLeTransitive(m, a, y, tcd);
    }
  }

  lemma GreatestThrough(m: Point, a: Point, t: Tree, tcd: nat)
    requires tcd < |m| && |a| == |m| && Order(m, a, tcd) != Lesser && GreatestIn(a, t, tcd)
    ensures GreatestIn(m, t, tcd)
  {
    forall y | y in Elems(t)
      ensures Order(m, y, tcd) != Lesser
    {
      GreaterThrough(m, a, y, tcd);
    }
  }

  /** The right child of a k-d node splitting on cd stores nothing ordering before the node. */
  lemma RightAbove(l: Tree, x: Point, rt: Tree, cd: nat, d: nat)
    requires cd < d && IsKD(Node(l, x, rt), d, cd)
    ensures LeastIn(x, rt, cd)
  {
    forall y | y in Elems(rt)
      ensures Order(x, y, cd) != Greater
    {
      OrderConverse(y, x, cd);
    }
  }

  /** The left child of a k-d node splitting on cd stores nothing ordering after the node. */
  lemma LeftBelow(l: Tree, x: Point, rt: Tree, cd: nat, d: nat)
    requires cd < d && IsKD(Node(l, x, rt), d, cd)
    ensures GreatestIn(x, l, cd)
  {
    forall y | y in Elems(l)
      ensures Order(x, y, cd) != Lesser
    {
      OrderConverse(y, x, cd);
    }
  }

  /** The least value of a k-d subtree: no stored value orders before it on tcd. */
  lemma {:induction false} FindMinIsLeast(t: Tree, tcd: nat, cd: nat, d: nat)
    requires tcd < d && cd < d && HasDims(t, d)
    ensures IsKD(t, d, cd) && t != Nil ==> LeastIn(FindMinAt(t, tcd, cd, d).value, t, tcd)
    decreases t
  {
    match t
    case Nil =>
    case Node(l, x, rt) =>
      if IsKD(t, d, cd) {
        var ncd := NextAxis(cd, d);
        var m := FindMinAt(t, tcd, cd, d).value;
        FindMinIsLeast(l, tcd, ncd, d);
        FindMinIsLeast(rt, tcd, ncd, d);
        if l != Nil {
          LeastThrough(m, FindMinAt(l, tcd, ncd, d).value, l, tcd);
        }
        if tcd == cd {
          RightAbove(l, x, rt, cd, d);
          LeastThrough(m, x, rt, tcd);
        } else if rt != Nil {
          LeastThrough(m, FindMinAt(rt, tcd, ncd, d).value, rt, tcd);
        }
      }
  }

  /** `findMax`: the greatest value of a subtree under the super-key on tcd; the left child is
      searched only when cd is not tcd. */
  function FindMaxAt(t: Tree, tcd: nat, cd: nat, d: nat): (r: Option<Point>)
    requires tcd < d && cd < d && HasDims(t, d)
    ensures r.None? <==> t == Nil
    ensures r.Some? ==> r.value in Elems(t) && |r.value| == d
    decreases t
  {
    match t
    case Nil => None
    case Node(l, x, rt) =>
      var rMax := FindMaxAt(rt, tcd, NextAxis(cd, d), d);
      var lMax := if tcd != cd then FindMaxAt(l, tcd, NextAxis(cd, d), d) else None;
      var m := Largest(lMax, rMax, x, tcd);
      ChosenIn(l, x, rt, m, lMax, rMax);
      Some(m)
  }

  /** findMax's choice at a node: a child's answer only when it orders strictly after the
      node, and with both present, `max` of the left one and `max` of the right one and the
      node. */
  function Largest(lMax: Option<Point>, rMax: Option<Point>, x: Point, tcd: nat): (m: Point)
    requires tcd < |x|
    requires lMax.Some? ==> |lMax.value| == |x|
    requires rMax.Some? ==> |rMax.value| == |x|
    ensures Some(m) == lMax || Some(m) == rMax || m == x
    ensures Order(m, x, tcd) != Lesser
    ensures lMax.Some? ==> Order(m, lMax.value, tcd) != Lesser
    ensures rMax.Some? ==> Order(m, rMax.value, tcd) != Lesser
    ensures m != x ==> Order(m, x, tcd) == Greater
    ensures lMax.Some? && Some(m) == rMax && m != lMax.value ==> Order(m, lMax.value, tcd) == Greater
  {
    OrderEqualIff(x, x, tcd);
    if lMax.None? && rMax.None? then x
    else if lMax.None? then
      OrderConverse(rMax.value, x, tcd);
      OrderEqualIff(rMax.value, rMax.value, tcd);
      if Order(rMax.value, x, tcd) == Greater then rMax.value else x
    else if rMax.None? then
      OrderConverse(lMax.value, x, tcd);
      OrderEqualIff(lMax.value, lMax.value, tcd);
      if Order(lMax.value, x, tcd) == Greater then lMax.value else x
    else
      var inner := Comparables.Max(rMax.value, x, tcd);
      var m := Comparables.Max(lMax.value, inner, tcd);
      OrderConverse(lMax.value, inner, tcd);
      OrderEqualIff(lMax.value, inner, tcd);
      GreaterThrough(m, inner, x, tcd);
      GreaterThrough(m, inner, rMax.value, tcd);
      m
  }

  /** Transitivity of "orders no earlier than". */
  lemma GreaterThrough(a: Point, b: Point, c: Point, tcd: nat)
    requires |a| == |b| == |c| && tcd < |a|
    requires Order(a, b, tcd) != Lesser && Order(b, c, tcd) != Lesser
    ensures Order(a, c, tcd) != Lesser
    ensures Order(a, b, tcd) == Greater || Order(b, c, tcd) == Greater ==> Order(a, c, tcd) == Greater
  {
    OrderConverse(a, b, tcd);
    OrderConverse(b, c, tcd);
    OrderConverse(a, c, tcd);
    OrderLeTransitive(c, b, a, tcd);
  }

  /** The greatest value of a k-d subtree: no stored value orders after it on tcd. */
  lemma {:induction false} FindMaxIsGreatest(t: Tree, tcd: nat, cd: nat, d: nat)
    requires tcd < d && cd < d && HasDims(t, d)
    ensures IsKD(t, d, cd) && t != Nil ==> GreatestIn(FindMaxAt(t, tcd, cd, d).value, t, tcd)
    decreases t
  {
    match t
    case Nil =>
    case Node(l, x, rt) =>
      if IsKD(t, d, cd) {
        var ncd := NextAxis(cd, d);
        var m := FindMaxAt(t, tcd, cd, d).value;
        FindMaxIsGreatest(l, tcd, ncd, d);
        FindMaxIsGreatest(rt, tcd, ncd, d);
        if rt != Nil {
          GreatestThrough(m, FindMaxAt(rt, tcd, ncd, d).value, rt, tcd);
        }
        if tcd == cd {
          LeftBelow(l, x, rt, cd, d);
          GreatestThrough(m, x, l, tcd);
        } else if l != Nil {
          GreatestThrough(m, FindMaxAt(l, tcd, ncd, d).value, l, tcd);
        }
      }
  }

  /** `FindMin`: nothing for an empty tree or a target axis past the last one; otherwise the
      least stored value on that axis. */
  function FindMin(t: KDTree, tcd: nat): (r: Option<Point>)
    requires HasDims(t.root, t.dims)
    ensures r.None? <==> t.root == Nil || tcd >= t.dims
    ensures r.Some? ==> r.value in Elems(t.root)
    ensures r.Some? && IsKD(t.root, t.dims, 0) ==>
      forall y | y in Elems(t.root) :: Order(r.value, y, tcd) != Greater
  {
    if t.root == Nil || tcd >= t.dims then None
    else
      FindMinIsLeast(t.root, tcd, 0, t.dims);
      FindMinAt(t.root, tcd, 0, t.dims)
  }

  /** `FindMax`: nothing for an empty tree or a target axis past the last one; otherwise the
      greatest stored value on that axis. */
  function FindMax(t: KDTree, tcd: nat): (r: Option<Point>)
    requires HasDims(t.root, t.dims)
    ensures r.None? <==> t.root == Nil || tcd >= t.dims
    ensures r.Some? ==> r.value in Elems(t.root)
    ensures r.Some? && IsKD(t.root, t.dims, 0) ==>
      forall y | y in Elems(t.root) :: Order(r.value, y, tcd) != Lesser
  {
    if t.root == Nil || tcd >= t.dims then None
    else
      FindMaxIsGreatest(t.root, tcd, 0, t.dims);
      FindMaxAt(t.root, tcd, 0, t.dims)
  }

  /** `removeNode`: a matched node with a right child takes the least value of that child on
      the node's axis, which is then removed from the child; a matched node with only a left
      child takes the least value of the left child, and what is left of the left child
      becomes the right child; a matched leaf disappears. The flag is the inner removal's. */
  function RemoveAt(t: Tree, v: Point, cd: nat, d: nat): (r: (Tree, bool))
    requires cd < d && |v| == d && HasDims(t, d)
    ensures HasDims(r.0, d)
    ensures r.1 ==> Elems(r.0) + multiset{v} == Elems(t)
    ensures t == Nil ==> r == (Nil, false)
    decreases t, 1
  {
    match t
    case Nil => (Nil, false)
    case Node(l, x, rt) =>
      var ncd := NextAxis(cd, d);
      if Dist(x, v) == 0 then
        RemoveMatched(l, x, rt, cd, d)
      else if Order(v, x, cd) == Lesser then
        var (l', ok) := RemoveAt(l, v, ncd, d);
        ChildLoses(l, l', x, rt, v, true);
        (Node(l', x, rt), ok)
      else
        var (rt', ok) := RemoveAt(rt, v, ncd, d);
        ChildLoses(rt, rt', x, l, v, false);
        (Node(l, x, rt'), ok)
  }

  /** A node one of whose children (c, with sibling s) loses v loses v. */
  lemma ChildLoses(c: Tree, c': Tree, x: Point, s: Tree, v: Point, left: bool)
    ensures Elems(c') + multiset{v} == Elems(c) ==>
      if left then Elems(Node(c', x, s)) + multiset{v} == Elems(Node(c, x, s))
      else Elems(Node(s, x, c')) + multiset{v} == Elems(Node(s, x, c))
  {
  }

  /** removeNode on the node that matched: the node's value is replaced by the least value on
      cd of the right child, or of the left child when there is no right child (what remains
      of the left child then becomes the right child), and that value is removed from the
      child; a leaf disappears. */
  function RemoveMatched(l: Tree, x: Point, rt: Tree, cd: nat, d: nat): (r: (Tree, bool))
    requires cd < d && HasDims(Node(l, x, rt), d)
    ensures HasDims(r.0, d)
    ensures r.1 ==> Elems(r.0) + multiset{x} == Elems(Node(l, x, rt))
    decreases Node(l, x, rt), 0
  {
    var ncd := NextAxis(cd, d);
    if rt != Nil then
      var m := FindMinAt(rt, cd, ncd, d).value;
      var (rt', ok) := RemoveAt(rt, m, ncd, d);
      ReplaceKeeps(l, x, m, rt, rt');
      (Node(l, m, rt'), ok)
    else if l != Nil then
      var m := FindMinAt(l, cd, ncd, d).value;
      var (rt', ok) := RemoveAt(l, m, ncd, d);
      ReplaceKeeps(Nil, x, m, l, rt');
      (Node(Nil, m, rt'), ok)
    else
      (Nil, true)
  }

  /** Replacing a node's value x by m while a child c loses m (becoming c') loses x overall. */
  lemma ReplaceKeeps(l: Tree, x: Point, m: Point, c: Tree, c': Tree)
    ensures Elems(c') + multiset{m} == Elems(c) ==>
      Elems(Node(l, m, c')) + multiset{x} == Elems(l) + multiset{x} + Elems(c)
  {
  }

  /** On a k-d tree, removal succeeds exactly when v is stored, and a failed removal changes
      nothing. */
  lemma {:induction false} RemoveAtFinds(t: Tree, v: Point, cd: nat, d: nat)
    requires cd < d && |v| == d && HasDims(t, d)
    ensures IsKD(t, d, cd) ==> (RemoveAt(t, v, cd, d).1 <==> v in Elems(t))
    ensures IsKD(t, d, cd) && !RemoveAt(t, v, cd, d).1 ==> RemoveAt(t, v, cd, d).0 == t
    decreases t
  {
    match t
    case Nil =>
    case Node(l, x, rt) =>
      if IsKD(t, d, cd) {
        var ncd := NextAxis(cd, d);
        if Dist(x, v) == 0 {
          if rt != Nil {
            RemoveAtFinds(rt, FindMinAt(rt, cd, ncd, d).value, ncd, d);
          } else if l != Nil {
            RemoveAtFinds(l, FindMinAt(l, cd, ncd, d).value, ncd, d);
          }
        } else {
          RemoveAtFinds(l, v, ncd, d);
          RemoveAtFinds(rt, v, ncd, d);
          if Order(v, x, cd) == Lesser {
            OrderConverse(v, x, cd);
            assert v !in Elems(rt);
          } else {
            assert v !in Elems(l);
          }
        }
      }
  }

  /** On a k-d tree, the result of a removal is again a k-d tree. */
  lemma {:induction false} RemoveAtKD(t: Tree, v: Point, cd: nat, d: nat)
    requires cd < d && |v| == d && HasDims(t, d)
    ensures IsKD(t, d, cd) ==> IsKD(RemoveAt(t, v, cd, d).0, d, cd)
    decreases t, 1
  {
    match t
    case Nil =>
    case Node(l, x, rt) =>
      if IsKD(t, d, cd) {
        var ncd := NextAxis(cd, d);
        if Dist(x, v) == 0 {
          RemoveMatchedKD(l, x, rt, v, cd, d);
        } else if Order(v, x, cd) == Lesser {
          RemoveLeftKD(l, x, rt, v, cd, d);
        } else {
          RemoveRightKD(l, x, rt, v, cd, d);
        }
      }
  }

  /** Removal at a node that does not match and orders v before itself descends left. */
  lemma RemoveAtLeft(l: Tree, x: Point, rt: Tree, v: Point, cd: nat, d: nat)
    requires cd < d && |v| == d && HasDims(Node(l, x, rt), d) && Dist(x, v) != 0
    requires Order(v, x, cd) == Lesser
    ensures var (l', ok) := RemoveAt(l, v, NextAxis(cd, d), d);
      RemoveAt(Node(l, x, rt), v, cd, d) == (Node(l', x, rt), ok)
  {
  }

  /** Removal at a node that does not match and does not order v before itself descends
      right. */
  lemma RemoveAtRight(l: Tree, x: Point, rt: Tree, v: Point, cd: nat, d: nat)
    requires cd < d && |v| == d && HasDims(Node(l, x, rt), d) && Dist(x, v) != 0
    requires Order(v, x, cd) != Lesser
    ensures var (rt', ok) := RemoveAt(rt, v, NextAxis(cd, d), d);
      RemoveAt(Node(l, x, rt), v, cd, d) == (Node(l, x, rt'), ok)
  {
  }

  /** A removal from a k-d subtree leaves a k-d subtree holding part of what it held. */
  lemma RemoveAtShrinks(t: Tree, v: Point, cd: nat, d: nat)
    requires cd < d && |v| == d && IsKD(t, d, cd)
    ensures HasDims(t, d)
    ensures IsKD(RemoveAt(t, v, cd, d).0, d, cd) && Elems(RemoveAt(t, v, cd, d).0) <= Elems(t)
    decreases t, 2
  {
    IsKDHasDims(t, d, cd);
    RemoveAtKD(t, v, cd, d);
    RemoveAtFinds(t, v, cd, d);
  }

  /** The case of RemoveAtKD that descends left. */
  lemma {:induction false} RemoveLeftKD(l: Tree, x: Point, rt: Tree, v: Point, cd: nat, d: nat)
    requires cd < d && |v| == d && IsKD(Node(l, x, rt), d, cd) && Dist(x, v) != 0
    requires Order(v, x, cd) == Lesser
    ensures HasDims(Node(l, x, rt), d)
    ensures IsKD(RemoveAt(Node(l, x, rt), v, cd, d).0, d, cd)
    decreases Node(l, x, rt), 0
  {
    IsKDHasDims(Node(l, x, rt), d, cd);
    var ncd := NextAxis(cd, d);
    RemoveAtShrinks(l, v, ncd, d);
    RemoveAtLeft(l, x, rt, v, cd, d);
    ShrinkLeft(l, x, rt, RemoveAt(l, v, ncd, d).0, cd, d);
  }

  /** The case of RemoveAtKD that descends right. */
  lemma {:induction false} RemoveRightKD(l: Tree, x: Point, rt: Tree, v: Point, cd: nat, d: nat)
    requires cd < d && |v| == d && IsKD(Node(l, x, rt), d, cd) && Dist(x, v) != 0
    requires Order(v, x, cd) != Lesser
    ensures HasDims(Node(l, x, rt), d)
    ensures IsKD(RemoveAt(Node(l, x, rt), v, cd, d).0, d, cd)
    decreases Node(l, x, rt), 0
  {
    IsKDHasDims(Node(l, x, rt), d, cd);
    var ncd := NextAxis(cd, d);
    RemoveAtShrinks(rt, v, ncd, d);
    RemoveAtRight(l, x, rt, v, cd, d);
    ShrinkRight(l, x, rt, RemoveAt(rt, v, ncd, d).0, cd, d);
  }

  /** The matched-node case of RemoveAtKD. */
  lemma {:induction false} RemoveMatchedKD(l: Tree, x: Point, rt: Tree, v: Point, cd: nat, d: nat)
    requires cd < d && |v| == d && IsKD(Node(l, x, rt), d, cd) && Dist(x, v) == 0
    ensures HasDims(Node(l, x, rt), d)
    ensures IsKD(RemoveAt(Node(l, x, rt), v, cd, d).0, d, cd)
    decreases Node(l, x, rt), 0
  {
    IsKDHasDims(Node(l, x, rt), d, cd);
    var ncd := NextAxis(cd, d);
    if rt != Nil {
      var m := FindMinAt(rt, cd, ncd, d).value;
      RemoveAtFinds(rt, m, ncd, d);
      RemoveAtKD(rt, m, ncd, d);
      FindMinIsLeast(rt, cd, ncd, d);
      TakeRightMin(l, x, rt, m, RemoveAt(rt, m, ncd, d).0, cd, d);
    } else if l != Nil {
      var m := FindMinAt(l, cd, ncd, d).value;
      RemoveAtFinds(l, m, ncd, d);
      RemoveAtKD(l, m, ncd, d);
      FindMinIsLeast(l, cd, ncd, d);
      TakeLeftMin(l, m, RemoveAt(l, m, ncd, d).0, cd, d);
    }
  }

  /** What remains of a subtree after removing its least value m on cd orders no value
      before m. */
  lemma AboveMin(t: Tree, m: Point, t': Tree, cd: nat, d: nat)
    requires cd < d && |m| == d && LeastIn(m, t, cd) && Elems(t') + multiset{m} == Elems(t)
    ensures forall y | y in Elems(t') :: |y| == d && Order(y, m, cd) != Lesser
  {
    forall y | y in Elems(t')
      ensures |y| == d && Order(y, m, cd) != Lesser
    {
      assert y in Elems(t);
      OrderConverse(m, y, cd);
    }
  }

  /** Values ordering before x order before any m that does not order before x. */
  lemma BelowMin(l: Tree, x: Point, m: Point, cd: nat, d: nat)
    requires cd < d && |x| == d && |m| == d && Order(m, x, cd) != Lesser
    requires forall y | y in Elems(l) :: |y| == d && Order(y, x, cd) == Lesser
    ensures forall y | y in Elems(l) :: |y| == d && Order(y, m, cd) == Lesser
  {
    OrderConverse(m, x, cd);
    forall y | y in Elems(l)
      ensures Order(y, m, cd) == Lesser
    {
      OrderLeTransitive(y, x, m, cd);
    }
  }

  /** A k-d node whose value is replaced by the least value m of its right child on cd, with
      what remains of that child after removing m, is a k-d node: the left values order before
      the old value and so before m, the remaining right values not before m. */
  lemma TakeRightMin(l: Tree, x: Point, rt: Tree, m: Point, rt': Tree, cd: nat, d: nat)
    requires cd < d && IsKD(Node(l, x, rt), d, cd) && IsKD(rt', d, NextAxis(cd, d))
    requires m in Elems(rt) && LeastIn(m, rt, cd) && Elems(rt') + multiset{m} == Elems(rt)
    ensures IsKD(Node(l, m, rt'), d, cd)
  {
    BelowMin(l, x, m, cd, d);
    AboveMin(rt, m, rt', cd, d);
    IsKDNode(l, m, rt', d, cd);
  }

  /** A k-d node with only a left child, whose value is replaced by that child's least value
      m on cd and whose right child becomes what remains of the left one, is a k-d node. */
  lemma TakeLeftMin(l: Tree, m: Point, rt': Tree, cd: nat, d: nat)
    requires cd < d && |m| == d && IsKD(rt', d, NextAxis(cd, d))
    requires m in Elems(l) && LeastIn(m, l, cd) && Elems(rt') + multiset{m} == Elems(l)
    ensures IsKD(Node(Nil, m, rt'), d, cd)
  {
    AboveMin(l, m, rt', cd, d);
    IsKDNode(Nil, m, rt', d, cd);
  }

  /** Removal from a valid tree, with size decremented exactly when removeNode reports the
      value found, leaves a valid tree. */
  lemma RemoveAtValid(t: KDTree, v: Point)
    requires t.dims >= 1 && |v| == t.dims && HasDims(t.root, t.dims)
    ensures var (root, ok) := RemoveAt(t.root, v, 0, t.dims);
      Valid(t) ==> Valid(KDTree(t.dims, root, if ok then t.size - 1 else t.size))
  {
    if Valid(t) {
      RemoveAtFinds(t.root, v, 0, t.dims);
      RemoveAtKD(t.root, v, 0, t.dims);
      var (root, ok) := RemoveAt(t.root, v, 0, t.dims);
      if ok {
        NoDuplicatesShrink(t.root, root);
        assert |Elems(root)| + 1 == |Elems(t.root)|;
      }
    }
  }

  /** `Remove`: removes one occurrence of v and decrements size when removeNode reports it. */
  function Remove(t: KDTree, v: Point): (r: (KDTree, bool))
    requires t.dims >= 1 && |v| == t.dims && HasDims(t.root, t.dims)
    ensures r.0.dims == t.dims && HasDims(r.0.root, t.dims)
    ensures r.1 ==> Elems(r.0.root) == Elems(t.root) - multiset{v} && v in Elems(t.root) && r.0.size == t.size - 1
    ensures IsKD(t.root, t.dims, 0) ==> (r.1 <==> v in Elems(t.root)) && (!r.1 ==> r.0 == t)
    ensures Valid(t) ==> Valid(r.0)
  {
    RemoveAtFinds(t.root, v, 0, t.dims);
    RemoveAtValid(t, v);
    var (root, ok) := RemoveAt(t.root, v, 0, t.dims);
    (KDTree(t.dims, root, if ok then t.size - 1 else t.size), ok)
  }

  /** The lost count of an insert into an empty root reaches Balance: removing the value again
      leaves the size at -1, and balancing the tree after any further insert panics where
      Values allocates its listing buffer. */
  lemma LostCountPanicsBalance(d: nat, v: Point, w: Point)
    requires d >= 1 && |v| == d && |w| == d
    ensures var t1 := Insert(KDTree(d, Nil, 0), v);
      var t2 := Remove(t1, v);
      var t3 := Insert(t2.0, w);
      t2.1 && t2.0.size == -1 && t3.size == -1 && NoDuplicates(t3.root) && Construction.Balance(t3).Panic?
  {
  }
}
