/**
 * The tie-breaking helpers of comparable_utils.go: the smaller and the larger of two values
 * on one axis, the closer of two optional candidates to a query point, and the lower median
 * of an index slice.
 */
module Comparables {
  import opened Outcomes
  import opened Points

  /** `min`: lhs only when it orders strictly before rhs on axis tcd, so ties go to rhs. */
  function Min(lhs: Point, rhs: Point, tcd: nat): (r: Point)
    requires |lhs| == |rhs| && tcd < |lhs|
    ensures r == lhs || r == rhs
    ensures r == lhs <==> Order(lhs, rhs, tcd) == Lesser || lhs == rhs
    ensures Order(r, lhs, tcd) != Greater && Order(r, rhs, tcd) != Greater
  {
    OrderConverse(lhs, rhs, tcd);
    OrderEqualIff(lhs, rhs, tcd);
    OrderEqualIff(rhs, rhs, tcd);
    OrderEqualIff(lhs, lhs, tcd);
    if Order(lhs, rhs, tcd) == Lesser then lhs else rhs
  }

  /** `max`: lhs only when it orders strictly after rhs on axis tcd, so ties go to rhs. */
  function Max(lhs: Point, rhs: Point, tcd: nat): (r: Point)
    requires |lhs| == |rhs| && tcd < |lhs|
    ensures r == lhs || r == rhs
    ensures r == lhs <==> Order(lhs, rhs, tcd) == Greater || lhs == rhs
    ensures Order(r, lhs, tcd) != Lesser && Order(r, rhs, tcd) != Lesser
  {
    OrderConverse(lhs, rhs, tcd);
    OrderEqualIff(lhs, rhs, tcd);
    OrderEqualIff(rhs, rhs, tcd);
    OrderEqualIff(lhs, lhs, tcd);
    if Order(lhs, rhs, tcd) == Greater then lhs else rhs
  }

  /** `closest`: of two optional candidates, the one nearer to v; panics when both are
      missing, returns the present one when only one is, and prefers nn2 on a tie. */
  function Closest(v: Point, nn1: Option<Point>, nn2: Option<Point>): (r: Result<Point>)
    requires nn1.Some? ==> |nn1.value| == |v|
    requires nn2.Some? ==> |nn2.value| == |v|
    ensures r.Panic? <==> nn1.None? && nn2.None?
    ensures r.Ok? ==> Some(r.value) == nn1 || Some(r.value) == nn2
    ensures r.Ok? && nn1.Some? ==> Dist(v, r.value) <= Dist(v, nn1.value)
    ensures r.Ok? && nn2.Some? ==> Dist(v, r.value) <= Dist(v, nn2.value)
    ensures nn1.Some? && nn2.Some? && r == Ok(nn1.value) && nn1 != nn2 ==>
      Dist(v, nn1.value) < Dist(v, nn2.value)
  {
    if nn1.None? && nn2.None? then Panic("Both `nn1` and `nn2` inputs are nil!")
    else if nn1.None? then Ok(nn2.value)
    else if nn2.None? then Ok(nn1.value)
    else if Dist(v, nn1.value) < Dist(v, nn2.value) then Ok(nn1.value)
    else Ok(nn2.value)
  }

  /** `midValue`: the value at the lower median position (len - 1) / 2 of a non-empty index
      slice, with its index. The position leaves as many slots before it as after it, or one
      fewer before. */
  function MidValue(vs: seq<Point>, cutIndex: seq<nat>): (r: (Point, nat))
    requires |cutIndex| > 0
    requires forall j | 0 <= j < |cutIndex| :: cutIndex[j] < |vs|
    ensures r.1 in cutIndex && r.0 == vs[r.1]
    ensures exists m | 0 <= m < |cutIndex| :: r.1 == cutIndex[m] && (m == |cutIndex| - 1 - m || m + 1 == |cutIndex| - 1 - m)
  {
    var m := MedianIndex(|cutIndex|);
    (vs[cutIndex[m]], cutIndex[m])
  }

  /** The lower median position (n - 1) / 2 of n > 0 slots. */
  function MedianIndex(n: nat): (m: nat)
    requires n > 0
    ensures m < n
    ensures m == n - 1 - m || m + 1 == n - 1 - m
  {
    (n - 1) / 2
  }
}
