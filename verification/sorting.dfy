/**
 * Sorting by the super-key on one axis, as `sort.Slice` is used by NewKDTreeWithValues (on
 * index slices) and by insertAllOld (on the values themselves). Go's sort is not stable, but
 * the super-key is a total order in which Equal means identical points, so every sorted
 * permutation of a sequence is the same sequence (SortedUnique); an insertion sort therefore
 * computes exactly what sort.Slice does.
 */
module Sorting {
  import opened Points

  /** Points sorted in non-decreasing super-key order on axis ax. */
  ghost predicate SortedOn(s: seq<Point>, ax: nat, d: nat)
    requires ax < d && AllDims(s, d)
  {
    forall i, j | 0 <= i < j < |s| :: Order(s[i], s[j], ax) != Greater
  }

  /** Inserts x in front of the first element it does not order after. */
  function InsertPoint(x: Point, s: seq<Point>, ax: nat, d: nat): (r: seq<Point>)
    requires ax < d && |x| == d && AllDims(s, d)
    ensures |r| == |s| + 1 && AllDims(r, d)
    ensures multiset(r) == multiset(s) + multiset{x}
  {
    if |s| == 0 then [x]
    else if Order(x, s[0], ax) != Greater then [x] + s
    else
      assert s == [s[0]] + s[1..];
      [s[0]] + InsertPoint(x, s[1..], ax, d)
  }

  /** Inserting into a sorted sequence keeps it sorted. */
  lemma {:induction false} InsertPointSorted(x: Point, s: seq<Point>, ax: nat, d: nat)
    requires ax < d && |x| == d && AllDims(s, d) && SortedOn(s, ax, d)
    ensures SortedOn(InsertPoint(x, s, ax, d), ax, d)
  {
    var r := InsertPoint(x, s, ax, d);
    if |s| == 0 {
    } else if Order(x, s[0], ax) != Greater {
      forall j | 1 < j < |r|
        ensures Order(x, r[j], ax) != Greater
      {
        OrderLeTransitive(x, s[0], r[j], ax);
      }
    } else {
      var t := InsertPoint(x, s[1..], ax, d);
      assert r == [s[0]] + t;
      InsertPointSorted(x, s[1..], ax, d);
      OrderConverse(x, s[0], ax);
      forall j | 0 < j < |r|
        ensures Order(s[0], r[j], ax) != Greater
      {
        assert r[j] in multiset(t);
        assert r[j] == x || r[j] in multiset(s[1..]);
        if r[j] != x {
          var k :| 0 <= k < |s[1..]| && s[1..][k] == r[j];
          assert s[k + 1] == r[j];
        }
      }
    }
  }

  /** Insertion sort of points by the super-key on axis ax. */
  function SortPoints(s: seq<Point>, ax: nat, d: nat): (r: seq<Point>)
    requires ax < d && AllDims(s, d)
    ensures |r| == |s| && AllDims(r, d)
    ensures multiset(r) == multiset(s)
    ensures SortedOn(r, ax, d)
  {
    if |s| == 0 then []
    else
      assert s == [s[0]] + s[1..];
      var t := SortPoints(s[1..], ax, d);
      InsertPointSorted(s[0], t, ax, d);
      InsertPoint(s[0], t, ax, d)
  }

  /** A sorted sequence starts with an element that orders before or equal to every member. */
  lemma SortedHeadIsLeast(s: seq<Point>, y: Point, ax: nat, d: nat)
    requires ax < d && AllDims(s, d) && SortedOn(s, ax, d) && |s| > 0 && y in s
    ensures Order(s[0], y, ax) != Greater
  {
    var k :| 0 <= k < |s| && s[k] == y;
    if k == 0 {
      OrderEqualIff(y, y, ax);
    }
  }

  /** Two sorted sequences with the same members start with the same element. */
  lemma SortedSameHead(a: seq<Point>, b: seq<Point>, ax: nat, d: nat)
    requires ax < d && AllDims(a, d) && AllDims(b, d)
    requires SortedOn(a, ax, d) && SortedOn(b, ax, d) && multiset(a) == multiset(b) && |a| > 0
    ensures |b| > 0 && a[0] == b[0]
  {
    assert a[0] in multiset(b);
    assert b[0] in multiset(a);
    SortedHeadIsLeast(a, b[0], ax, d);
    SortedHeadIsLeast(b, a[0], ax, d);
    OrderConverse(a[0], b[0], ax);
    OrderEqualIff(a[0], b[0], ax);
  }

  /** Two sorted sequences with the same members are the same sequence. */
  lemma {:induction false} SortedUnique(a: seq<Point>, b: seq<Point>, ax: nat, d: nat)
    requires ax < d && AllDims(a, d) && AllDims(b, d)
    requires SortedOn(a, ax, d) && SortedOn(b, ax, d) && multiset(a) == multiset(b)
    ensures a == b
    decreases |a|
  {
    if |a| == 0 {
      assert |b| == |multiset(b)| == 0;
    } else {
      SortedSameHead(a, b, ax, d);
      assert a == [a[0]] + a[1..] && b == [b[0]] + b[1..];
      assert multiset(a[1..]) == multiset(b[1..]) by {
        assert multiset(a) == multiset{a[0]} + multiset(a[1..]);
        assert multiset(b) == multiset{b[0]} + multiset(b[1..]);
        assert multiset(a[1..]) == multiset(a) - multiset{a[0]};
      }
      SortedUnique(a[1..], b[1..], ax, d);
    }
  }

  /** Sorting depends only on the members, not on the order they come in. */
  lemma SortPointsPerm(a: seq<Point>, b: seq<Point>, ax: nat, d: nat)
    requires ax < d && AllDims(a, d) && AllDims(b, d) && multiset(a) == multiset(b)
    ensures SortPoints(a, ax, d) == SortPoints(b, ax, d)
  {
    SortedUnique(SortPoints(a, ax, d), SortPoints(b, ax, d), ax, d);
  }

  /** Sorting an already sorted sequence changes nothing. */
  lemma SortPointsOfSorted(s: seq<Point>, ax: nat, d: nat)
    requires ax < d && AllDims(s, d) && SortedOn(s, ax, d)
    ensures SortPoints(s, ax, d) == s
  {
    SortedUnique(SortPoints(s, ax, d), s, ax, d);
  }

  /** Indices into vs, each naming a d-coordinate point. */
  predicate Indexes<T>(s: seq<nat>, vs: seq<T>) {
    forall k | 0 <= k < |s| :: s[k] < |vs|
  }

  /** Index slice sorted by the super-key of the values it names, as sort.Slice leaves it. */
  ghost predicate SortedIdx(s: seq<nat>, vs: seq<Point>, ax: nat, d: nat)
    requires ax < d && AllDims(vs, d) && Indexes(s, vs)
  {
    forall i, j | 0 <= i < j < |s| :: Order(vs[s[i]], vs[s[j]], ax) != Greater
  }

  /** Index slice whose named values strictly increase: the shape every slice of
      NewKDTreeWithValues has when the values are distinct. */
  ghost predicate StrictIdx(s: seq<nat>, vs: seq<Point>, ax: nat, d: nat)
    requires ax < d && AllDims(vs, d) && Indexes(s, vs)
  {
    forall i, j | 0 <= i < j < |s| :: Order(vs[s[i]], vs[s[j]], ax) == Lesser
  }

  /** Inserts index x in front of the first index whose value it does not order after. */
  function InsertIndex(x: nat, s: seq<nat>, vs: seq<Point>, ax: nat, d: nat): (r: seq<nat>)
    requires ax < d && AllDims(vs, d) && x < |vs| && Indexes(s, vs)
    ensures |r| == |s| + 1 && Indexes(r, vs)
    ensures multiset(r) == multiset(s) + multiset{x}
  {
    if |s| == 0 then [x]
    else if Order(vs[x], vs[s[0]], ax) != Greater then [x] + s
    else
      assert s == [s[0]] + s[1..];
      [s[0]] + InsertIndex(x, s[1..], vs, ax, d)
  }

  lemma {:induction false} InsertIndexSorted(x: nat, s: seq<nat>, vs: seq<Point>, ax: nat, d: nat)
    requires ax < d && AllDims(vs, d) && x < |vs| && Indexes(s, vs) && SortedIdx(s, vs, ax, d)
    ensures SortedIdx(InsertIndex(x, s, vs, ax, d), vs, ax, d)
  {
    var r := InsertIndex(x, s, vs, ax, d);
    if |s| == 0 {
    } else if Order(vs[x], vs[s[0]], ax) != Greater {
      forall j | 1 < j < |r|
        ensures Order(vs[x], vs[r[j]], ax) != Greater
      {
        OrderLeTransitive(vs[x], vs[s[0]], vs[r[j]], ax);
      }
    } else {
      var t := InsertIndex(x, s[1..], vs, ax, d);
      assert r == [s[0]] + t;
      InsertIndexSorted(x, s[1..], vs, ax, d);
      OrderConverse(vs[x], vs[s[0]], ax);
      forall j | 0 < j < |r|
        ensures Order(vs[s[0]], vs[r[j]], ax) != Greater
      {
        assert r[j] in multiset(t);
        assert r[j] == x || r[j] in multiset(s[1..]);
        if r[j] != x {
          var k :| 0 <= k < |s[1..]| && s[1..][k] == r[j];
          assert s[k + 1] == r[j];
        }
      }
    }
  }

  /** Insertion sort of an index slice by the super-key of the values it names. */
  function SortIndices(s: seq<nat>, vs: seq<Point>, ax: nat, d: nat): (r: seq<nat>)
    requires ax < d && AllDims(vs, d) && Indexes(s, vs)
    ensures |r| == |s| && Indexes(r, vs)
    ensures multiset(r) == multiset(s)
    ensures SortedIdx(r, vs, ax, d)
  {
    if |s| == 0 then []
    else
      assert s == [s[0]] + s[1..];
      var t := SortIndices(s[1..], vs, ax, d);
      InsertIndexSorted(s[0], t, vs, ax, d);
      InsertIndex(s[0], t, vs, ax, d)
  }

  /** `IotaSlice`: 0, 1, ..., n - 1. */
  function Iota(n: nat): (r: seq<nat>)
    ensures |r| == n
    ensures forall k | 0 <= k < n :: r[k] == k
  {
    seq(n, k => k)
  }

  /** A slice with no repeated index names each value at most once. */
  lemma NoRepeats<T>(s: seq<T>, i: nat, j: nat)
    requires i < j < |s| && forall x :: multiset(s)[x] <= 1
    ensures s[i] != s[j]
  {
    assert s == s[..j] + s[j..];
    assert s[..j][i] == s[i] && s[j..][0] == s[j];
    assert multiset(s)[s[i]] == multiset(s[..j])[s[i]] + multiset(s[j..])[s[i]];
  }

  /** Sorting a repetition-free index slice of distinct values sorts it strictly. */
  lemma SortedIdxStrict(s: seq<nat>, vs: seq<Point>, ax: nat, d: nat)
    requires ax < d && AllDims(vs, d) && Indexes(s, vs) && Distinct(vs)
    requires SortedIdx(s, vs, ax, d) && forall x :: multiset(s)[x] <= 1
    ensures StrictIdx(s, vs, ax, d)
  {
    forall i, j | 0 <= i < j < |s|
      ensures Order(vs[s[i]], vs[s[j]], ax) == Lesser
    {
      NoRepeats(s, i, j);
      OrderEqualIff(vs[s[i]], vs[s[j]], ax);
      if s[i] > s[j] {
        assert vs[s[j]] != vs[s[i]];
      }
    }
  }

  lemma IotaOnce(n: nat)
    ensures forall x :: multiset(Iota(n))[x] <= 1
  {
    if n > 0 {
      assert Iota(n) == Iota(n - 1) + [n - 1];
      IotaOnce(n - 1);
      assert n - 1 !in multiset(Iota(n - 1));
    }
  }

  /** A sequence holding each of its points once has no repeats. */
  lemma CountsDistinct(s: seq<Point>)
    requires forall x | x in multiset(s) :: multiset(s)[x] == 1
    ensures Distinct(s)
  {
    forall i, j | 0 <= i < j < |s|
      ensures s[i] != s[j]
    {
      assert forall x :: multiset(s)[x] <= 1 by {
        forall x
          ensures multiset(s)[x] <= 1
        {
          if x in multiset(s) {
            assert multiset(s)[x] == 1;
          }
        }
      }
      NoRepeats(s, i, j);
    }
  }
}
