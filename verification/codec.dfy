/**
 * Serialisation of kdtree.go (Encode, inorderTraversal, NewKDTreeFromBytes). A tree is
 * written as its values in pre-order together with, for each in-order position, the
 * pre-order position of the value there; reading it back checks the format version and the
 * two lengths and then bulk-builds a balanced tree from the values. The byte container is
 * modelled as a record of its four fields, and each value stands for its own encoding.
 */
module Codec {
  import opened Outcomes
  import opened Points
  import opened Trees
  import Construction

  /** encodingVersion: the only format version written and accepted. */
  const EncodingVersion: nat := 0

  /** The serialised tree: format version, dimension count, the values in pre-order, and the
      in-order to pre-order index table. */
  datatype Encoded = Encoded(version: nat, dims: nat, items: seq<Point>, inorderIndices: seq<int>)

  /** `preorderTraversal`: each value, encoded, node first, then the left subtree, then the
      right. */
  function Preorder(t: Tree): seq<Point> {
    match t
    case Nil => []
    case Node(l, x, r) => [x] + Preorder(l) + Preorder(r)
  }

  /** The written items are the values `Values` reports, in the same order. */
  lemma {:induction false} PreorderIsValues(t: Tree)
    ensures Preorder(t) == Values(t)
  {
    match t
    case Nil =>
    case Node(l, _, r) =>
      PreorderIsValues(l);
      PreorderIsValues(r);
  }

  /** The values in in-order (left subtree, node, right subtree). */
  function Inorder(t: Tree): seq<Point> {
    match t
    case Nil => []
    case Node(l, x, r) => Inorder(l) + [x] + Inorder(r)
  }

  /** In-order lists the same values as pre-order, in another order. */
  lemma {:induction false} InorderElems(t: Tree)
    ensures multiset(Inorder(t)) == Elems(t)
  {
    match t
    case Nil =>
    case Node(l, x, r) =>
      InorderElems(l);
      InorderElems(r);
  }

  /** `inorderTraversalImpl`: the subtree t, whose root sits at pre-order position pre, lists
      for each of its in-order positions the pre-order position of the value there. The
      pre-order counter moves past the node, then past every node of the left subtree, one
      per entry the left subtree listed, before the right subtree starts. */
  function InorderFrom(t: Tree, pre: int): seq<int> {
    match t
    case Nil => []
    case Node(l, _, rt) =>
      var left := InorderFrom(l, pre + 1);
      left + [pre] + InorderFrom(rt, pre + 1 + |left|)
  }

  /** `inorderTraversal`: the table for a whole tree, whose root is pre-order position 0. */
  function InorderTraversal(t: Tree): seq<int> {
    InorderFrom(t, 0)
  }

  /** The table r over a subtree whose root sits at pre-order position p, whose values are vs
      in pre-order and ins in in-order: one entry per value; entry i names, relative to p, the
      pre-order position of the value at in-order position i; no two entries name the same
      position, so the table is a permutation of p, ..., p + |r| - 1. */
  predicate Table(r: seq<int>, vs: seq<Point>, ins: seq<Point>, p: int) {
    && |r| == |vs| == |ins|
    && (forall i | 0 <= i < |r| :: p <= r[i] < p + |vs| && vs[r[i] - p] == ins[i])
    && (forall i, j | 0 <= i < j < |r| :: r[i] != r[j])
  }

  /** What the table says about one node, given what it says about each child: sl and sr are
      the children's tables over their pre-order values vl and vr and in-order values il and
      ir, the node's value x sits at pre-order position p. */
  lemma TableStep(sl: seq<int>, sr: seq<int>, vl: seq<Point>, vr: seq<Point>, il: seq<Point>, ir: seq<Point>, x: Point, p: int)
    requires Table(sl, vl, il, p + 1) && Table(sr, vr, ir, p + 1 + |vl|)
    ensures Table(sl + [p] + sr, [x] + vl + vr, il + [x] + ir, p)
  {
    var r, vs, ins := sl + [p] + sr, [x] + vl + vr, il + [x] + ir;
    var a := |sl|;
    forall i | 0 <= i < |r|
      ensures p <= r[i] < p + |vs| && vs[r[i] - p] == ins[i]
    {
      if i < a {
        assert r[i] == sl[i] && ins[i] == il[i];
        assert vs[r[i] - p] == vl[r[i] - p - 1];
      } else if i > a {
        assert r[i] == sr[i - a - 1] && ins[i] == ir[i - a - 1];
        assert vs[r[i] - p] == vr[r[i] - p - 1 - a];
      }
    }
    forall i, j | 0 <= i < j < |r|
      ensures r[i] != r[j]
    {
      if j < a {
        assert r[i] == sl[i] && r[j] == sl[j];
      } else if i > a {
        assert r[i] == sr[i - a - 1] && r[j] == sr[j - a - 1];
      } else if i < a && j > a {
        assert r[i] == sl[i] && r[j] == sr[j - a - 1];
      } else if i < a {
        assert r[i] == sl[i];
      } else {
        assert r[j] == sr[j - a - 1];
      }
    }
  }

  /** The table for a subtree at pre-order position p is a Table over its pre-order and
      in-order values. */
  lemma {:induction false} InorderFromMeaning(t: Tree, p: int)
    ensures Table(InorderFrom(t, p), Preorder(t), Inorder(t), p)
  {
    match t
    case Nil =>
    case Node(l, x, rt) =>
      var sl := InorderFrom(l, p + 1);
      InorderFromMeaning(l, p + 1);
      InorderFromMeaning(rt, p + 1 + |sl|);
      TableStep(sl, InorderFrom(rt, p + 1 + |sl|), Preorder(l), Preorder(rt), Inorder(l), Inorder(rt), x, p);
  }

  /** `Encode`: refuses (panics) when the number of written items disagrees with the size
      bookkeeping; otherwise writes the current version, the dimension count, the values in
      pre-order and the in-order table. */
  function Encode(t: KDTree): (r: Result<Encoded>)
    ensures r.Panic? <==> CountNodes(t.root) != t.size
    ensures r.Ok? ==> r.value.version == EncodingVersion && r.value.dims == t.dims
    ensures r.Ok? ==> |r.value.items| == |r.value.inorderIndices| == t.size
    ensures r.Ok? ==> r.value.items == Values(t.root)
  {
    var items := Preorder(t.root);
    PreorderIsValues(t.root);
    if |items| != t.size then Panic("itemCount and t.size don't have the same size! Some bookkeeping has gone wrong!")
    else
      InorderFromMeaning(t.root, 0);
      Ok(Encoded(EncodingVersion, t.dims, items, InorderTraversal(t.root)))
  }

  /** The written table has one entry per item, no two entries alike, and entry i names the
      item holding the tree's i-th value in in-order: the table is a permutation of the item
      positions that recovers the in-order sequence from the pre-order one. */
  lemma EncodeTable(t: KDTree)
    requires Encode(t).Ok?
    ensures var e := Encode(t).value;
      && |Inorder(t.root)| == t.size
      && (forall i, j | 0 <= i < j < t.size :: e.inorderIndices[i] != e.inorderIndices[j])
      && forall i | 0 <= i < t.size :: 0 <= e.inorderIndices[i] < t.size && e.items[e.inorderIndices[i]] == Inorder(t.root)[i]
  {
    InorderFromMeaning(t.root, 0);
    PreorderIsValues(t.root);
  }

  /** `NewKDTreeFromBytes`: panics on a version other than the current one and on tables of
      different lengths; otherwise bulk-builds a new balanced tree from the items (the index
      table is not used, so the tree read back is balanced rather than the shape written). */
  function Decode(e: Encoded): (r: Result<KDTree>)
    requires e.dims >= 1 ==> AllDims(e.items, e.dims) && Distinct(e.items)
    ensures r.Panic? <==> e.version != EncodingVersion || |e.items| != |e.inorderIndices| || e.dims < 1
    ensures r.Ok? ==> Valid(r.value) && r.value.dims == e.dims && r.value.size == |e.items|
    ensures r.Ok? ==> Elems(r.value.root) == multiset(e.items)
  {
    if e.version != EncodingVersion then Panic("Unsupported encoding version number!")
    else if |e.items| != |e.inorderIndices| then
      Panic("The number of the indices are not the same as the number of items!")
    else Construction.NewKDTreeWithValues(e.dims, e.items)
  }

  /** Reading back what a valid tree wrote gives that tree rebalanced. */
  lemma DecodeEncode(t: KDTree)
    requires Valid(t)
    ensures Encode(t).Ok? && HasDims(t.root, t.dims)
    ensures var e := Encode(t).value; AllDims(e.items, e.dims) && Distinct(e.items)
    ensures Decode(Encode(t).value) == Construction.Balance(t)
  {
    IsKDHasDims(t.root, t.dims, 0);
    Construction.ValuesShape(t.root, t.dims);
  }

  /** A bulk-built tree reads back as itself: bulk construction depends only on the stored
      values, which the encoding keeps. */
  lemma DecodeEncodeBuilt(d: nat, vs: seq<Point>)
    requires d >= 1 && AllDims(vs, d) && Distinct(vs)
    ensures var t := Construction.NewKDTreeWithValues(d, vs).value;
      && Encode(t).Ok?
      && AllDims(Encode(t).value.items, d) && Distinct(Encode(t).value.items)
      && Decode(Encode(t).value) == Ok(t)
  {
    var t := Construction.NewKDTreeWithValues(d, vs).value;
    IsKDHasDims(t.root, t.dims, 0);
    Construction.ValuesShape(t.root, t.dims);
    Construction.BuildOldPerm(Values(t.root), vs, 0, d);
  }
}
