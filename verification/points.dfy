/** Result shapes shared by the model: an optional value, and an outcome that is either a
    value or one of the source's fatal panics. */
module Outcomes {

  datatype Option<+T> = None | Some(value: T)

  datatype Result<+T> = Ok(value: T) | Panic(reason: string)
}

/**
 * The point contract every stored value satisfies (Order, Dist, DistDim), instantiated as an
 * integer point with d coordinates. internal/types/tensor2d.go is the case d = 2: its Order
 * walks at most d axes starting from `dim`, wrapping around, and its distances are squared
 * coordinate differences.
 */
module Points {

  type Point = seq<int>

  /** The three outcomes of a super-key comparison. The tree's `Order(..) < 0` tests and the
      helpers' comparisons against the constant `Lesser` both mean `Lesser` here. */
  datatype Relation = Lesser | Equal | Greater

  function Converse(r: Relation): Relation {
    match r
    case Lesser => Greater
    case Equal => Equal
    case Greater => Lesser
  }

  /** Every point of the sequence has d coordinates. */
  predicate AllDims(s: seq<Point>, d: nat) {
    forall k | 0 <= k < |s| :: |s[k]| == d
  }

  /** No point occurs twice in the sequence. */
  predicate Distinct(s: seq<Point>) {
    forall i, j | 0 <= i < j < |s| :: s[i] != s[j]
  }

  /** A sequence without repeats holds each of its points exactly once. */
  lemma {:induction false} DistinctCounts(s: seq<Point>)
    requires Distinct(s)
    ensures forall x | x in multiset(s) :: multiset(s)[x] == 1
  {
    if |s| > 0 {
      assert s == [s[0]] + s[1..];
      assert Distinct(s[1..]) by {
        forall i, j | 0 <= i < j < |s[1..]|
          ensures s[1..][i] != s[1..][j]
        {
          assert s[1..][i] == s[i + 1] && s[1..][j] == s[j + 1];
        }
      }
      DistinctCounts(s[1..]);
      assert s[0] !in s[1..];
    }
  }

  /** The split axis one level further down: `(cd + 1) % d`. */
  function NextAxis(cd: nat, d: nat): (r: nat)
    requires cd < d
    ensures r < d
    ensures r == if cd + 1 == d then 0 else cd + 1
  {
    (cd + 1) % d
  }

  /** The split axis one level further up: `(cd - 1 + d) % d`. */
  function PrevAxis(cd: nat, d: nat): (r: nat)
    requires cd < d
    ensures r < d
    ensures NextAxis(r, d) == cd
  {
    (cd - 1 + d) % d
  }

  /** The axis `i` levels below an axis-`cd` level, i.e. (cd + i) mod d, written without a
      division so that proofs about rotating axes stay linear. */
  function AxisPlus(cd: nat, i: nat, d: nat): (r: nat)
    requires cd < d && i <= d
    ensures r < d
  {
    if cd + i < d then cd + i else cd + i - d
  }

  lemma AxisPlusStep(cd: nat, i: nat, d: nat)
    requires cd < d && i < d
    ensures NextAxis(AxisPlus(cd, i, d), d) == AxisPlus(cd, i + 1, d)
  {
  }

  /** Rotating the starting axis by one moves every offset down by one. */
  lemma AxisPlusRotate(cd: nat, i: nat, d: nat)
    requires cd < d && 0 < i <= d
    ensures AxisPlus(NextAxis(cd, d), i - 1, d) == AxisPlus(cd, i, d)
  {
  }

  /** The rotating super-key comparison from axis `dim`, having already looked at `i` axes:
      Tensor2D.Order's loop, for points of any dimensionality |a|. */
  function OrderFrom(a: Point, b: Point, dim: nat, i: nat): Relation
    requires |a| == |b| && dim < |a| && i <= |a|
    decreases |a| - i
  {
    if i == |a| then Equal
    else if a[dim] < b[dim] then Lesser
    else if a[dim] > b[dim] then Greater
    else OrderFrom(a, b, NextAxis(dim, |a|), i + 1)
  }

  /** The super-key order starting at axis `dim`. Its first step decides by axis `dim` alone
      whenever the coordinates differ, which is what makes hyperplane pruning sound. */
  function Order(a: Point, b: Point, dim: nat): (r: Relation)
    requires |a| == |b| && dim < |a|
    ensures r == Lesser ==> a[dim] <= b[dim]
    ensures r == Greater ==> a[dim] >= b[dim]
    ensures a[dim] < b[dim] ==> r == Lesser
    ensures a[dim] > b[dim] ==> r == Greater
  {
    OrderFrom(a, b, dim, 0)
  }

  lemma {:induction false} OrderFromConverse(a: Point, b: Point, dim: nat, i: nat)
    requires |a| == |b| && dim < |a| && i <= |a|
    ensures OrderFrom(b, a, dim, i) == Converse(OrderFrom(a, b, dim, i))
    decreases |a| - i
  {
    if i < |a| && a[dim] == b[dim] {
      OrderFromConverse(a, b, NextAxis(dim, |a|), i + 1);
    }
  }

  /** Order is antisymmetric: swapping the operands swaps Lesser and Greater. */
  lemma OrderConverse(a: Point, b: Point, dim: nat)
    requires |a| == |b| && dim < |a|
    ensures Order(b, a, dim) == Converse(Order(a, b, dim))
  {
    OrderFromConverse(a, b, dim, 0);
  }

  lemma {:induction false} OrderFromTransitive(a: Point, b: Point, c: Point, dim: nat, i: nat)
    requires |a| == |b| == |c| && dim < |a| && i <= |a|
    requires OrderFrom(a, b, dim, i) == Lesser && OrderFrom(b, c, dim, i) == Lesser
    ensures OrderFrom(a, c, dim, i) == Lesser
    decreases |a| - i
  {
    if a[dim] == b[dim] && b[dim] == c[dim] {
      OrderFromTransitive(a, b, c, NextAxis(dim, |a|), i + 1);
    }
  }

  /** Order is transitive. */
  lemma OrderTransitive(a: Point, b: Point, c: Point, dim: nat)
    requires |a| == |b| == |c| && dim < |a|
    requires Order(a, b, dim) == Lesser && Order(b, c, dim) == Lesser
    ensures Order(a, c, dim) == Lesser
  {
    OrderFromTransitive(a, b, c, dim, 0);
  }

  lemma {:induction false} OrderFromEqual(a: Point, b: Point, dim: nat, i: nat)
    requires |a| == |b| && dim < |a| && i <= |a|
    ensures OrderFrom(a, b, AxisPlus(dim, i, |a|), i) == Equal
        <==> forall j | i <= j < |a| :: a[AxisPlus(dim, j, |a|)] == b[AxisPlus(dim, j, |a|)]
    decreases |a| - i
  {
    if i < |a| {
      AxisPlusStep(dim, i, |a|);
      OrderFromEqual(a, b, dim, i + 1);
    }
  }

  /** Order reports Equal exactly when the points coincide: the super-key walks every axis. */
  lemma OrderEqualIff(a: Point, b: Point, dim: nat)
    requires |a| == |b| && dim < |a|
    ensures Order(a, b, dim) == Equal <==> a == b
  {
    OrderFromEqual(a, b, dim, 0);
    if Order(a, b, dim) == Equal {
      forall m | 0 <= m < |a|
        ensures a[m] == b[m]
      {
        var j := if m >= dim then m - dim else m + |a| - dim;
        assert AxisPlus(dim, j, |a|) == m;
      }
    }
  }

  /** "Not greater" chains: a <= b and b <= c give a <= c, and a < b <= c gives a < c. */
  lemma OrderLeTransitive(a: Point, b: Point, c: Point, dim: nat)
    requires |a| == |b| == |c| && dim < |a|
    requires Order(a, b, dim) != Greater && Order(b, c, dim) != Greater
    ensures Order(a, c, dim) != Greater
    ensures Order(a, b, dim) == Lesser || Order(b, c, dim) == Lesser ==> Order(a, c, dim) == Lesser
  {
    OrderEqualIff(a, b, dim);
    OrderEqualIff(b, c, dim);
    if Order(a, b, dim) == Lesser && Order(b, c, dim) == Lesser {
      OrderTransitive(a, b, c, dim);
    }
  }

  /** Squared difference along one axis (Tensor2D.DistDim). */
  function DistDim(a: Point, b: Point, dim: nat): (r: int)
    requires |a| == |b| && dim < |a|
    ensures r >= 0
  {
    (a[dim] - b[dim]) * (a[dim] - b[dim])
  }

  lemma SquareZero(x: int)
    ensures x * x == 0 <==> x == 0
  {
    if x != 0 {
      assert x * x > 0 by {
        if x > 0 {
        } else {
          assert x * x == (-x) * (-x);
        }
      }
    }
  }

  /** The sum of the squared differences over axes i, i+1, ..., |a|-1: the tail of
      Tensor2D.Dist's accumulation loop. */
  function DistFrom(a: Point, b: Point, i: nat): (r: int)
    requires |a| == |b| && i <= |a|
    ensures r >= 0
    ensures forall j | i <= j < |a| :: r >= DistDim(a, b, j)
    ensures r == 0 <==> a[i..] == b[i..]
    decreases |a| - i
  {
    if i == |a| then 0
    else
      var rest := DistFrom(a, b, i + 1);
      SquareZero(a[i] - b[i]);
      assert a[i..] == [a[i]] + a[i + 1..];
      assert b[i..] == [b[i]] + b[i + 1..];
      DistDim(a, b, i) + rest
  }

  /** Squared Euclidean distance (Tensor2D.Dist): zero exactly for equal points, and never
      below the squared distance along any single axis. */
  function Dist(a: Point, b: Point): (r: int)
    requires |a| == |b|
    ensures r >= 0
    ensures r == 0 <==> a == b
    ensures forall dim | 0 <= dim < |a| :: r >= DistDim(a, b, dim)
  {
    assert a[0..] == a && b[0..] == b;
    DistFrom(a, b, 0)
  }

  /** Squaring is monotone on non-negative numbers; used to compare hyperplane distances. */
  lemma SquareMonotone(x: int, y: int)
    requires 0 <= x <= y
    ensures x * x <= y * y
  {
    assert x * x <= x * y;
    assert x * y <= y * y;
  }

  /** If a lies on one side of c's axis-dim hyperplane and b lies on the other side (or on it),
      then b is at least as far from a along that axis as c is. */
  lemma DistDimAcrossPlane(a: Point, b: Point, c: Point, dim: nat)
    requires |a| == |b| == |c| && dim < |a|
    requires (a[dim] <= c[dim] && c[dim] <= b[dim]) || (b[dim] <= c[dim] && c[dim] <= a[dim])
    ensures DistDim(a, b, dim) >= DistDim(a, c, dim)
  {
    if a[dim] <= c[dim] <= b[dim] {
      SquareMonotone(c[dim] - a[dim], b[dim] - a[dim]);
      assert DistDim(a, b, dim) == (b[dim] - a[dim]) * (b[dim] - a[dim]);
      assert DistDim(a, c, dim) == (c[dim] - a[dim]) * (c[dim] - a[dim]);
    } else {
      SquareMonotone(a[dim] - c[dim], a[dim] - b[dim]);
    }
  }
}

/** Tensor3D (internal/types/tensor3d.go): the same contract for three axes, with the
    super-key comparison unrolled as "optimized super key comparison": the starting axis is
    compared first, then a loop visits the two remaining axes in rotation. */
module Tensor3D {
  import opened Points

  function LoopRest(l: Point, r: Point, dim: nat, i: nat): Relation
    requires |l| == 3 && |r| == 3 && dim < 3 && i <= 2
    decreases 2 - i
  {
    if i == 2 then Equal
    else if l[dim] < r[dim] then Lesser
    else if l[dim] > r[dim] then Greater
    else LoopRest(l, r, (dim + 1) % 3, i + 1)
  }

  function Order(l: Point, r: Point, dim: nat): Relation
    requires |l| == 3 && |r| == 3 && dim < 3
  {
    if l[dim] < r[dim] then Lesser
    else if l[dim] > r[dim] then Greater
    else LoopRest(l, r, (dim + 1) % 3, 0)
  }

  lemma {:induction false} LoopRestIsOrderFrom(l: Point, r: Point, dim: nat, i: nat)
    requires |l| == 3 && |r| == 3 && dim < 3 && i <= 2
    ensures LoopRest(l, r, dim, i) == OrderFrom(l, r, dim, i + 1)
    decreases 2 - i
  {
    if i < 2 {
      LoopRestIsOrderFrom(l, r, (dim + 1) % 3, i + 1);
    }
  }

  /** The unrolled comparison is the three-axis rotating super-key: it agrees with the
      generic Order everywhere, so it is a total order that is Equal only on equal points. */
  lemma {:induction false} OrderIsSuperKey(l: Point, r: Point, dim: nat)
    requires |l| == 3 && |r| == 3 && dim < 3
    ensures Order(l, r, dim) == Points.Order(l, r, dim)
    ensures Order(l, r, dim) == Equal <==> l == r
  {
    LoopRestIsOrderFrom(l, r, (dim + 1) % 3, 0);
    OrderEqualIff(l, r, dim);
  }

  /** Tensor3D.Dist's loop unrolled: the sum of the three squared axis differences. */
  lemma {:induction false} DistIsThreeSquares(l: Point, r: Point)
    requires |l| == 3 && |r| == 3
    ensures Dist(l, r) == DistDim(l, r, 0) + DistDim(l, r, 1) + DistDim(l, r, 2)
  {
    assert DistFrom(l, r, 3) == 0;
    assert DistFrom(l, r, 2) == DistDim(l, r, 2) + DistFrom(l, r, 3);
    assert DistFrom(l, r, 1) == DistDim(l, r, 1) + DistFrom(l, r, 2);
    assert DistFrom(l, r, 0) == DistDim(l, r, 0) + DistFrom(l, r, 1);
  }
}
