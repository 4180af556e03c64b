/**
 * Bulk construction (kdtree.go NewKDTreeWithValues and insertAllNew) and the older
 * sort-then-split construction it replaced (insertAllOld in the benchmark file).
 *
 * insertAllNew keeps one index slice per axis. Slot i of the slices handed to a level that
 * splits on axis cd is sorted by the super-key on axis (cd + i) mod d, so slot 0 is sorted on
 * cd itself and its lower median is the node. The slices for the children are produced by
 * partitioning slots 1 .. d-1 around the median (the lower parts become slots 0 .. d-2 of
 * the left child, the upper parts those of the right child), and slot 0 split at the median
 * position becomes slot d-1. No level sorts again.
 *
 * Go writes the partitions into the front and back of the parent's own arrays. The model
 * builds them as fresh sequences and proves (HalvesFit) that each part has exactly the length
 * of the region Go writes it into, so no write overruns and no region is left stale.
 */
module Construction {
  import opened Outcomes
  import opened Points
  import opened Sorting
  import opened Trees
  import Comparables

  /** The values an index slice names, in slice order. */
  function Gather<T>(vs: seq<T>, s: seq<nat>): (r: seq<T>)
    requires Indexes(s, vs)
    ensures |r| == |s|
    ensures forall k | 0 <= k < |s| :: r[k] == vs[s[k]]
  {
    seq(|s|, k requires 0 <= k < |s| => vs[s[k]])
  }

  /** Dropping slot k of a sequence drops one copy of its element. */
  lemma DropSlot<T>(t: seq<T>, k: nat)
    requires k < |t|
    ensures multiset(t[..k] + t[k + 1..]) == multiset(t) - multiset{t[k]}
  {
    assert t == t[..k] + [t[k]] + t[k + 1..];
  }

  /** Dropping slot k of an index slice drops one copy of the value it names. */
  lemma GatherDropSlot<T>(vs: seq<T>, t: seq<nat>, k: nat)
    requires Indexes(t, vs) && k < |t|
    ensures Indexes(t[..k] + t[k + 1..], vs)
    ensures multiset(Gather(vs, t)) == multiset(Gather(vs, t[..k] + t[k + 1..])) + multiset{vs[t[k]]}
  {
    var g := Gather(vs, t);
    assert g == g[..k] + [g[k]] + g[k + 1..];
    assert Gather(vs, t[..k] + t[k + 1..]) == g[..k] + g[k + 1..];
  }

  /** Which values an index slice names depends only on which indices it holds. */
  lemma {:induction false} GatherPerm<T>(vs: seq<T>, s: seq<nat>, t: seq<nat>)
    requires Indexes(s, vs) && Indexes(t, vs) && multiset(s) == multiset(t)
    ensures multiset(Gather(vs, s)) == multiset(Gather(vs, t))
    decreases |s|
  {
    if |s| > 0 {
      assert s[0] in multiset(t);
      var k :| 0 <= k < |t| && t[k] == s[0];
      GatherPermStep(vs, s, t, k);
      GatherPerm(vs, s[1..], t[..k] + t[k + 1..]);
    }
  }

  /** Matching the first index of s with an equal index of t reduces GatherPerm to the rest. */
  lemma GatherPermStep<T>(vs: seq<T>, s: seq<nat>, t: seq<nat>, k: nat)
    requires Indexes(s, vs) && Indexes(t, vs)
    requires multiset(s) == multiset(t) && 0 < |s| && k < |t| && t[k] == s[0]
    ensures Indexes(t[..k] + t[k + 1..], vs)
    ensures multiset(s[1..]) == multiset(t[..k] + t[k + 1..])
    ensures multiset(Gather(vs, s[1..])) == multiset(Gather(vs, t[..k] + t[k + 1..])) ==>
      multiset(Gather(vs, s)) == multiset(Gather(vs, t))
  {
    DropSlot(t, k);
    assert s == [s[0]] + s[1..];
    var gs := Gather(vs, s);
    assert gs == [gs[0]] + gs[1..];
    assert gs[1..] == Gather(vs, s[1..]);
    GatherDropSlot(vs, t, k);
  }

  /** An index other than the median's whose value orders Lesser than the median on cd. */
  predicate GoesLow(x: nat, vs: seq<Point>, mvIdx: nat, mv: Point, cd: nat, d: nat)
    requires cd < d && AllDims(vs, d) && |mv| == d
  {
    x != mvIdx && x < |vs| && Order(vs[x], mv, cd) == Lesser
  }

  /** An index other than the median's whose value does not order Lesser than the median. */
  predicate GoesHigh(x: nat, vs: seq<Point>, mvIdx: nat, mv: Point, cd: nat, d: nat)
    requires cd < d && AllDims(vs, d) && |mv| == d
  {
    x != mvIdx && x < |vs| && Order(vs[x], mv, cd) != Lesser
  }

  /** One pass of insertAllNew's partition loop over an index slice: every index but the
      median's, in slice order, goes to the lower part when its value orders Lesser than the
      median value mv on axis cd, and to the upper part otherwise. */
  function Partition(s: seq<nat>, vs: seq<Point>, mvIdx: nat, mv: Point, cd: nat, d: nat): (r: (seq<nat>, seq<nat>))
    requires cd < d && AllDims(vs, d) && |mv| == d && Indexes(s, vs)
    ensures Indexes(r.0, vs) && Indexes(r.1, vs)
    ensures |r.0| + |r.1| <= |s|
  {
    if |s| == 0 then ([], [])
    else
      var n := |s| - 1;
      var idx := s[n];
      var (lo, hi) := Partition(s[..n], vs, mvIdx, mv, cd, d);
      if idx == mvIdx then (lo, hi)
      else if Order(vs[idx], mv, cd) == Lesser then (lo + [idx], hi)
      else (lo, hi + [idx])
  }

  /** The lower part holds exactly the slice's low indices and the upper part exactly its
      high ones, each as often as the slice does; the median's index is in neither. */
  lemma {:induction false} PartitionCount(s: seq<nat>, vs: seq<Point>, mvIdx: nat, mv: Point, cd: nat, d: nat)
    requires cd < d && AllDims(vs, d) && |mv| == d && Indexes(s, vs)
    ensures forall x: nat :: multiset(Partition(s, vs, mvIdx, mv, cd, d).0)[x] ==
                             if GoesLow(x, vs, mvIdx, mv, cd, d) then multiset(s)[x] else 0
    ensures forall x: nat :: multiset(Partition(s, vs, mvIdx, mv, cd, d).1)[x] ==
                             if GoesHigh(x, vs, mvIdx, mv, cd, d) then multiset(s)[x] else 0
  {
    if |s| > 0 {
      var n := |s| - 1;
      assert s == s[..n] + [s[n]];
      PartitionCount(s[..n], vs, mvIdx, mv, cd, d);
    }
  }

  /** With a value Equal to the median sorted before it on the cut, the partition of any
      permutation of the cut sends more indices high than the upper half's slot holds: Go's
      write into that slot then indexes past its length and panics. */
  lemma EqualBeforeMedianOverflows(s: seq<nat>, cut: seq<nat>, vs: seq<Point>, si: nat, j: nat, cd: nat, d: nat)
    requires cd < d && AllDims(vs, d) && Indexes(cut, vs) && SortedIdx(cut, vs, cd, d) && j < si < |cut|
    requires forall a, b | 0 <= a < b < |cut| :: cut[a] != cut[b]
    requires vs[cut[j]] == vs[cut[si]]
    requires Indexes(s, vs) && multiset(s) == multiset(cut)
    ensures |Partition(s, vs, cut[si], vs[cut[si]], cd, d).1| > |cut| - 1 - si
  {
    var m := cut[si];
    var hi := multiset(Partition(s, vs, m, vs[m], cd, d).1);
    var above := multiset(cut[si + 1..]) + multiset{cut[j]};
    AboveWithinCut(cut, si, j);
    PartitionCount(s, vs, m, vs[m], cd, d);
    forall x: nat | x in above
      ensures above[x] <= hi[x]
    {
      if x == cut[j] {
        AboveMedianGoesHigh(cut, vs, si, j, cd, d);
      } else {
        var p :| si < p < |cut| && cut[p] == x;
        AboveMedianGoesHigh(cut, vs, si, p, cd, d);
      }
    }
    SubMultisetCard(above, hi);
  }

  /** In a sorted cut of distinct indices, an index after the median position, or one before
      it whose value equals the median's, is routed high. */
  lemma AboveMedianGoesHigh(cut: seq<nat>, vs: seq<Point>, si: nat, p: nat, cd: nat, d: nat)
    requires cd < d && AllDims(vs, d) && Indexes(cut, vs) && SortedIdx(cut, vs, cd, d) && si < |cut| && p < |cut|
    requires forall a, b | 0 <= a < b < |cut| :: cut[a] != cut[b]
    requires si < p || (p < si && vs[cut[p]] == vs[cut[si]])
    ensures GoesHigh(cut[p], vs, cut[si], vs[cut[si]], cd, d)
  {
    if si < p {
      OrderConverse(vs[cut[si]], vs[cut[p]], cd);
    } else {
      OrderEqualIff(vs[cut[p]], vs[cut[si]], cd);
    }
  }

  /** The part of a list after position si, together with one entry at or before si, is
      part of the list. */
  lemma AboveWithinCut(cut: seq<nat>, si: nat, j: nat)
    requires j <= si < |cut|
    ensures multiset(cut[si + 1..]) + multiset{cut[j]} <= multiset(cut)
  {
    assert cut == cut[..si + 1] + cut[si + 1..];
    assert cut[j] in cut[..si + 1];
  }

  /** A sub-multiset is no larger. */
  lemma SubMultisetCard(a: multiset<nat>, b: multiset<nat>)
    requires a <= b
    ensures |a| <= |b|
  {
    assert b == a + (b - a);
  }

  /** Both parts hold only indices of the slice. */
  lemma {:induction false} PartitionMembers(s: seq<nat>, vs: seq<Point>, mvIdx: nat, mv: Point, cd: nat, d: nat)
    requires cd < d && AllDims(vs, d) && |mv| == d && Indexes(s, vs)
    ensures forall y | y in Partition(s, vs, mvIdx, mv, cd, d).0 :: y in s
    ensures forall y | y in Partition(s, vs, mvIdx, mv, cd, d).1 :: y in s
  {
    if |s| > 0 {
      var n := |s| - 1;
      PartitionMembers(s[..n], vs, mvIdx, mv, cd, d);
      assert forall y | y in s[..n] :: y in s;
    }
  }

  /** A strictly sorted slice: its prefix is strictly sorted and names only values below the
      last one. */
  lemma StrictPrefix(s: seq<nat>, vs: seq<Point>, ax: nat, d: nat)
    requires ax < d && AllDims(vs, d) && Indexes(s, vs) && StrictIdx(s, vs, ax, d) && |s| > 0
    ensures StrictIdx(s[..|s| - 1], vs, ax, d)
    ensures forall y | y in s[..|s| - 1] :: Order(vs[y], vs[s[|s| - 1]], ax) == Lesser
  {
    var n := |s| - 1;
    forall i, j | 0 <= i < j < n
      ensures Order(vs[s[..n][i]], vs[s[..n][j]], ax) == Lesser
    {
      assert s[..n][i] == s[i] && s[..n][j] == s[j];
    }
    forall y | y in s[..n]
      ensures Order(vs[y], vs[s[n]], ax) == Lesser
    {
      var k :| 0 <= k < n && s[..n][k] == y;
      assert s[k] == y;
    }
  }

  /** Partitioning keeps the slice's order in both parts. */
  lemma {:induction false} PartitionSorted(s: seq<nat>, vs: seq<Point>, mvIdx: nat, mv: Point, cd: nat, ax: nat, d: nat)
    requires cd < d && ax < d && AllDims(vs, d) && |mv| == d && Indexes(s, vs)
    requires StrictIdx(s, vs, ax, d)
    ensures StrictIdx(Partition(s, vs, mvIdx, mv, cd, d).0, vs, ax, d)
    ensures StrictIdx(Partition(s, vs, mvIdx, mv, cd, d).1, vs, ax, d)
  {
    if |s| > 0 {
      var n := |s| - 1;
      var idx := s[n];
      var (lo, hi) := Partition(s[..n], vs, mvIdx, mv, cd, d);
      StrictPrefix(s, vs, ax, d);
      PartitionSorted(s[..n], vs, mvIdx, mv, cd, ax, d);
      PartitionMembers(s[..n], vs, mvIdx, mv, cd, d);
      if idx != mvIdx {
        if Order(vs[idx], mv, cd) == Lesser {
          PartitionSortedStep(lo, idx, vs, ax, d);
        } else {
          PartitionSortedStep(hi, idx, vs, ax, d);
        }
      }
    }
  }

  lemma PartitionSortedStep(a: seq<nat>, x: nat, vs: seq<Point>, ax: nat, d: nat)
    requires ax < d && AllDims(vs, d) && Indexes(a, vs) && x < |vs| && StrictIdx(a, vs, ax, d)
    requires forall y | y in a :: Order(vs[y], vs[x], ax) == Lesser
    ensures StrictIdx(a + [x], vs, ax, d)
  {
    var b := a + [x];
    forall i, j | 0 <= i < j < |b|
      ensures Order(vs[b[i]], vs[b[j]], ax) == Lesser
    {
      if j < |a| {
        assert b[i] == a[i] && b[j] == a[j];
      } else {
        assert b[i] == a[i] && b[i] in a;
      }
    }
  }

  /** In the slot sorted strictly on cd, the indices before position si name values that
      order Lesser than the one at si, and those after it values that do not. */
  lemma CutOrder(cut: seq<nat>, vs: seq<Point>, si: nat, m: nat, cd: nat, d: nat)
    requires cd < d && AllDims(vs, d) && Indexes(cut, vs) && StrictIdx(cut, vs, cd, d)
    requires si < |cut| && m < |cut|
    ensures m < si ==> GoesLow(cut[m], vs, cut[si], vs[cut[si]], cd, d)
    ensures m > si ==> GoesHigh(cut[m], vs, cut[si], vs[cut[si]], cd, d)
  {
    var mv := vs[cut[si]];
    if m < si {
      OrderEqualIff(vs[cut[m]], mv, cd);
    } else if m > si {
      OrderConverse(mv, vs[cut[m]], cd);
      OrderEqualIff(mv, vs[cut[m]], cd);
    }
  }

  /** Partitioning a prefix of the cut slot that ends before the median sends all of it low. */
  lemma {:induction false} PartitionOfCutLow(cut: seq<nat>, vs: seq<Point>, si: nat, cd: nat, d: nat, n: nat)
    requires cd < d && AllDims(vs, d) && Indexes(cut, vs) && StrictIdx(cut, vs, cd, d)
    requires si < |cut| && n <= si
    ensures Partition(cut[..n], vs, cut[si], vs[cut[si]], cd, d) == (cut[..n], [])
  {
    if n > 0 {
      var m := n - 1;
      assert cut[..n][..m] == cut[..m];
      PartitionOfCutLow(cut, vs, si, cd, d, m);
      CutOrder(cut, vs, si, m, cd, d);
      assert cut[..n] == cut[..m] + [cut[m]];
    }
  }

  /** Partitioning the slot sorted on the split axis itself around its own element at si
      cuts it at si: the lower part is everything before, the upper part everything after. */
  lemma {:induction false} PartitionOfCut(cut: seq<nat>, vs: seq<Point>, si: nat, cd: nat, d: nat, n: nat)
    requires cd < d && AllDims(vs, d) && Indexes(cut, vs) && StrictIdx(cut, vs, cd, d)
    requires si < n <= |cut|
    ensures Partition(cut[..n], vs, cut[si], vs[cut[si]], cd, d) == (cut[..si], cut[si + 1..n])
  {
    var m := n - 1;
    assert cut[..n][..m] == cut[..m];
    if m == si {
      PartitionOfCutLow(cut, vs, si, cd, d, m);
      assert cut[..n][m] == cut[si] && cut[si + 1..n] == [];
    } else {
      PartitionOfCut(cut, vs, si, cd, d, m);
      CutOrder(cut, vs, si, m, cd, d);
      assert cut[si + 1..n] == cut[si + 1..m] + [cut[m]];
    }
  }

  /** A slice of a strictly sorted index slice is strictly sorted. */
  lemma StrictSlice(s: seq<nat>, vs: seq<Point>, ax: nat, d: nat, lo: nat, hi: nat)
    requires ax < d && AllDims(vs, d) && Indexes(s, vs) && StrictIdx(s, vs, ax, d) && lo <= hi <= |s|
    ensures Indexes(s[lo..hi], vs) && StrictIdx(s[lo..hi], vs, ax, d)
  {
    forall i, j | 0 <= i < j < hi - lo
      ensures Order(vs[s[lo..hi][i]], vs[s[lo..hi][j]], ax) == Lesser
    {
      assert s[lo..hi][i] == s[lo + i] && s[lo..hi][j] == s[lo + j];
    }
  }

  /** The index slices one level of insertAllNew receives when it splits on axis cd: d slots,
      each holding the same indices, slot i sorted strictly on axis (cd + i) mod d. */
  ghost predicate WF(vs: seq<Point>, idx: seq<seq<nat>>, cd: nat, d: nat) {
    && 1 <= d && cd < d && |idx| == d && AllDims(vs, d)
    && (forall i | 0 <= i < d :: Indexes(idx[i], vs))
    && (forall i | 0 <= i < d :: StrictIdx(idx[i], vs, AxisPlus(cd, i, d), d))
    && (forall i | 0 <= i < d :: multiset(idx[i]) == multiset(idx[0]))
  }

  /** The slices handed to the left child (low) or the right child of a level whose median
      sits at position si of slot 0 and has index mvIdx: slot i < d-1 is the low (high) part
      of slot i+1, and slot d-1 is slot 0 before (after) position si. */
  function Halves(vs: seq<Point>, idx: seq<seq<nat>>, cd: nat, d: nat, si: nat, mvIdx: nat, low: bool): (r: seq<seq<nat>>)
    requires WF(vs, idx, cd, d) && si < |idx[0]| && mvIdx < |vs|
    ensures |r| == d
  {
    seq(d, i requires 0 <= i < d =>
      if i < d - 1 then Side(Partition(idx[i + 1], vs, mvIdx, vs[mvIdx], cd, d), low)
      else if low then idx[0][..si]
      else idx[0][si + 1..])
  }

  /** The parts of slot 0 before and after the median position si. */
  function CutSides(cut: seq<nat>, si: nat): (seq<nat>, seq<nat>)
    requires si < |cut|
  {
    (cut[..si], cut[si + 1..])
  }

  /** The lower or the upper part of a partition. */
  function Side(p: (seq<nat>, seq<nat>), low: bool): seq<nat> {
    if low then p.0 else p.1
  }

  /** Any slot holding the same indices as the cut slot partitions into the same indices as
      the cut slot does: those before the median position, and those after it. */
  lemma PartitionLikeCut(s: seq<nat>, cut: seq<nat>, vs: seq<Point>, si: nat, cd: nat, d: nat)
    requires cd < d && AllDims(vs, d) && Indexes(cut, vs) && StrictIdx(cut, vs, cd, d) && si < |cut|
    requires Indexes(s, vs) && multiset(s) == multiset(cut)
    ensures multiset(Partition(s, vs, cut[si], vs[cut[si]], cd, d).0) == multiset(cut[..si])
    ensures multiset(Partition(s, vs, cut[si], vs[cut[si]], cd, d).1) == multiset(cut[si + 1..])
  {
    var m := cut[si];
    var ps := Partition(s, vs, m, vs[m], cd, d);
    var pc := Partition(cut, vs, m, vs[m], cd, d);
    assert cut[..|cut|] == cut;
    PartitionOfCut(cut, vs, si, cd, d, |cut|);
    PartitionCount(s, vs, m, vs[m], cd, d);
    PartitionCount(cut, vs, m, vs[m], cd, d);
    assert multiset(ps.0) == multiset(pc.0) by {
      forall x: nat
        ensures multiset(ps.0)[x] == multiset(pc.0)[x]
      {
      }
    }
    assert multiset(ps.1) == multiset(pc.1) by {
      forall x: nat
        ensures multiset(ps.1)[x] == multiset(pc.1)[x]
      {
      }
    }
  }

  /** Partitioning slot s, sorted on axis cd + i + 1 and holding the cut slot's indices,
      around the cut slot's median gives a part sorted on that same axis, which is axis i one
      level down, and holding what the cut slot holds before (after) the median. */
  lemma PartitionedSlot(vs: seq<Point>, s: seq<nat>, cut: seq<nat>, cd: nat, d: nat, i: nat, si: nat, low: bool)
    requires cd < d && i < d - 1 && AllDims(vs, d) && si < |cut|
    requires Indexes(cut, vs) && StrictIdx(cut, vs, cd, d)
    requires Indexes(s, vs) && StrictIdx(s, vs, AxisPlus(cd, i + 1, d), d) && multiset(s) == multiset(cut)
    ensures var p := Partition(s, vs, cut[si], vs[cut[si]], cd, d);
      var h := Side(p, low);
      && Indexes(h, vs)
      && StrictIdx(h, vs, AxisPlus(NextAxis(cd, d), i, d), d)
      && multiset(h) == multiset(Side(CutSides(cut, si), low))
  {
    var m := cut[si];
    PartitionSortedNext(s, vs, m, cd, d, i);
    PartitionLikeCut(s, cut, vs, si, cd, d);
  }

  /** Both sides of partitioning slot i + 1 stay sorted on that slot's axis, which is axis i
      counted from the next level's split axis. */
  lemma PartitionSortedNext(s: seq<nat>, vs: seq<Point>, m: nat, cd: nat, d: nat, i: nat)
    requires cd < d && i < d - 1 && AllDims(vs, d) && m < |vs|
    requires Indexes(s, vs) && StrictIdx(s, vs, AxisPlus(cd, i + 1, d), d)
    ensures var p := Partition(s, vs, m, vs[m], cd, d);
      StrictIdx(p.0, vs, AxisPlus(NextAxis(cd, d), i, d), d) && StrictIdx(p.1, vs, AxisPlus(NextAxis(cd, d), i, d), d)
  {
    var ax := AxisPlus(cd, i + 1, d);
    PartitionSorted(s, vs, m, vs[m], cd, ax, d);
    AxisPlusRotate(cd, i + 1, d);
    assert AxisPlus(NextAxis(cd, d), i, d) == ax;
  }

  /** A slot of a child's slices that partitions one of the parent's other slots. */
  lemma HalfSlotInner(vs: seq<Point>, idx: seq<seq<nat>>, cd: nat, d: nat, i: nat, low: bool)
    requires WF(vs, idx, cd, d) && |idx[0]| > 0 && i < d - 1
    ensures var si := (|idx[0]| - 1) / 2;
      var h := Halves(vs, idx, cd, d, si, idx[0][si], low)[i];
      && Indexes(h, vs)
      && StrictIdx(h, vs, AxisPlus(NextAxis(cd, d), i, d), d)
      && multiset(h) == multiset(Side(CutSides(idx[0], si), low))
  {
    var cut := idx[0];
    var si := (|cut| - 1) / 2;
    CutSlot(vs, idx, cd, d);
    SlotOf(vs, idx, cd, d, i + 1);
    HalvesInner(vs, idx, cd, d, si, cut[si], low, i);
    PartitionedSlot(vs, idx[i + 1], cut, cd, d, i, si, low);
  }

  /** Slot 0 is sorted on the level's own split axis. */
  lemma CutSlot(vs: seq<Point>, idx: seq<seq<nat>>, cd: nat, d: nat)
    requires WF(vs, idx, cd, d)
    ensures Indexes(idx[0], vs) && StrictIdx(idx[0], vs, cd, d)
  {
    SlotOf(vs, idx, cd, d, 0);
    assert AxisPlus(cd, 0, d) == cd;
  }

  /** What a well-formed set of slices says of its slot i. */
  lemma SlotOf(vs: seq<Point>, idx: seq<seq<nat>>, cd: nat, d: nat, i: nat)
    requires WF(vs, idx, cd, d) && i < d
    ensures Indexes(idx[i], vs) && StrictIdx(idx[i], vs, AxisPlus(cd, i, d), d)
    ensures multiset(idx[i]) == multiset(idx[0])
  {
  }

  /** Slot i < d - 1 of a child's slices is one side of the partition of the parent's
      slot i + 1. */
  lemma HalvesInner(vs: seq<Point>, idx: seq<seq<nat>>, cd: nat, d: nat, si: nat, m: nat, low: bool, i: nat)
    requires WF(vs, idx, cd, d) && si < |idx[0]| && m < |vs| && i < d - 1
    ensures var p := Partition(idx[i + 1], vs, m, vs[m], cd, d);
      Halves(vs, idx, cd, d, si, m, low)[i] == Side(p, low)
  {
  }

  /** The last slot of a child's slices: the part of the cut slot before (after) the median. */
  lemma HalfSlotLast(vs: seq<Point>, idx: seq<seq<nat>>, cd: nat, d: nat, i: nat, low: bool)
    requires WF(vs, idx, cd, d) && |idx[0]| > 0 && i == d - 1
    ensures var si := (|idx[0]| - 1) / 2;
      var h := Halves(vs, idx, cd, d, si, idx[0][si], low)[i];
      && Indexes(h, vs)
      && StrictIdx(h, vs, AxisPlus(NextAxis(cd, d), i, d), d)
      && multiset(h) == multiset(Side(CutSides(idx[0], si), low))
  {
    var cut := idx[0];
    var si := (|cut| - 1) / 2;
    assert AxisPlus(cd, 0, d) == cd;
    AxisPlusRotate(cd, d, d);
    if low {
      StrictSlice(cut, vs, cd, d, 0, si);
    } else {
      StrictSlice(cut, vs, cd, d, si + 1, |cut|);
    }
  }

  /** One slot of a child's slices: it names the values before (after) the median in slot 0,
      and it is sorted on the axis that slot is sorted on one level down. */
  lemma HalfSlot(vs: seq<Point>, idx: seq<seq<nat>>, cd: nat, d: nat, i: nat, low: bool)
    requires WF(vs, idx, cd, d) && |idx[0]| > 0 && i < d
    ensures var si := (|idx[0]| - 1) / 2;
      var h := Halves(vs, idx, cd, d, si, idx[0][si], low)[i];
      && Indexes(h, vs)
      && StrictIdx(h, vs, AxisPlus(NextAxis(cd, d), i, d), d)
      && multiset(h) == multiset(Side(CutSides(idx[0], si), low))
  {
    if i < d - 1 {
      HalfSlotInner(vs, idx, cd, d, i, low);
    } else {
      HalfSlotLast(vs, idx, cd, d, i, low);
    }
  }

  /** The child slices are again well formed one level down, and each child's slot 0 names
      the values before (left) or after (right) the median in the parent's slot 0. midValue
      picks exactly the element at the median position. */
  lemma HalvesWF(vs: seq<Point>, idx: seq<seq<nat>>, cd: nat, d: nat)
    requires WF(vs, idx, cd, d) && |idx[0]| > 0
    ensures var si := (|idx[0]| - 1) / 2;
      var m := idx[0][si];
      && Comparables.MidValue(vs, idx[0]) == (vs[m], m)
      && WF(vs, Halves(vs, idx, cd, d, si, m, true), NextAxis(cd, d), d)
      && WF(vs, Halves(vs, idx, cd, d, si, m, false), NextAxis(cd, d), d)
      && multiset(Halves(vs, idx, cd, d, si, m, true)[0]) == multiset(idx[0][..si])
      && multiset(Halves(vs, idx, cd, d, si, m, false)[0]) == multiset(idx[0][si + 1..])
  {
    CutSlot(vs, idx, cd, d);
    MidIsMedian(vs, idx[0]);
    HalfWF(vs, idx, cd, d, true);
    HalfWF(vs, idx, cd, d, false);
  }

  /** midValue picks the element at the lower median position. */
  lemma MidIsMedian(vs: seq<Point>, cut: seq<nat>)
    requires |cut| > 0 && Indexes(cut, vs)
    ensures Comparables.MidValue(vs, cut) == (vs[cut[(|cut| - 1) / 2]], cut[(|cut| - 1) / 2])
  {
  }

  /** One child's slices are well formed one level down, and its slot 0 names the values on
      its side of the median in the parent's slot 0. */
  lemma HalfWF(vs: seq<Point>, idx: seq<seq<nat>>, cd: nat, d: nat, low: bool)
    requires WF(vs, idx, cd, d) && |idx[0]| > 0
    ensures var si := (|idx[0]| - 1) / 2;
      var h := Halves(vs, idx, cd, d, si, idx[0][si], low);
      && WF(vs, h, NextAxis(cd, d), d)
      && multiset(h[0]) == multiset(Side(CutSides(idx[0], si), low))
  {
    var si := (|idx[0]| - 1) / 2;
    var h := Halves(vs, idx, cd, d, si, idx[0][si], low);
    forall i | 0 <= i < d
      ensures Indexes(h[i], vs) && StrictIdx(h[i], vs, AxisPlus(NextAxis(cd, d), i, d), d)
      ensures multiset(h[i]) == multiset(Side(CutSides(idx[0], si), low))
    {
      HalfSlot(vs, idx, cd, d, i, low);
    }
  }

  /** Go writes slot i of each child into the front (left child) or the back (right child) of
      the parent's slot i+1, around the median position si. Every part has exactly the length
      of the region it is written into, so no write overruns and no stale index survives. */
  lemma HalvesFit(vs: seq<Point>, idx: seq<seq<nat>>, cd: nat, d: nat, i: nat)
    requires WF(vs, idx, cd, d) && |idx[0]| > 0 && i < d
    ensures var si := (|idx[0]| - 1) / 2;
      var m := idx[0][si];
      && |Halves(vs, idx, cd, d, si, m, true)[i]| == si
      && |Halves(vs, idx, cd, d, si, m, false)[i]| == |idx[0]| - 1 - si
  {
    HalfSlot(vs, idx, cd, d, i, true);
    HalfSlot(vs, idx, cd, d, i, false);
    var si := (|idx[0]| - 1) / 2;
    var m := idx[0][si];
    assert |multiset(Halves(vs, idx, cd, d, si, m, true)[i])| == |idx[0][..si]|;
    assert |multiset(Halves(vs, idx, cd, d, si, m, false)[i])| == |idx[0][si + 1..]|;
  }

  /** `insertAllNew`: the node is midValue of slot 0, and the children are built from the
      partitioned slices on the next axis. The node count is the number of indices. */
  function BuildNew(vs: seq<Point>, idx: seq<seq<nat>>, cd: nat, d: nat): (t: Tree)
    requires WF(vs, idx, cd, d)
    ensures CountNodes(t) == |idx[0]|
    decreases |idx[0]|
  {
    if |idx[0]| == 0 then Nil
    else
      var mid := Comparables.MidValue(vs, idx[0]);
      var si := (|idx[0]| - 1) / 2;
      BuildNewStep(vs, idx, cd, d);
      var lh := Halves(vs, idx, cd, d, si, mid.1, true);
      var uh := Halves(vs, idx, cd, d, si, mid.1, false);
      var ncd := NextAxis(cd, d);
      Node(BuildNew(vs, lh, ncd, d), mid.0, BuildNew(vs, uh, ncd, d))
  }

  /** What one level of BuildNew needs of its slices: the median index is in range, both
      halves are well formed on the next axis, and they split the level's indices around
      the median. */
  lemma BuildNewStep(vs: seq<Point>, idx: seq<seq<nat>>, cd: nat, d: nat)
    requires WF(vs, idx, cd, d) && |idx[0]| > 0
    ensures var si, m := (|idx[0]| - 1) / 2, Comparables.MidValue(vs, idx[0]).1;
      && m < |vs| && si < |idx[0]|
      && WF(vs, Halves(vs, idx, cd, d, si, m, true), NextAxis(cd, d), d)
      && WF(vs, Halves(vs, idx, cd, d, si, m, false), NextAxis(cd, d), d)
      && |Halves(vs, idx, cd, d, si, m, true)[0]| + 1 + |Halves(vs, idx, cd, d, si, m, false)[0]| == |idx[0]|
  {
    HalvesWF(vs, idx, cd, d);
    HalvesFit(vs, idx, cd, d, 0);
  }

  /** One level of insertAllOld: the points sorted by the super-key on cd and cut around the
      lower median (index (n - 1) / 2), so that nothing before the median orders after it and
      nothing after it orders before it. */
  function SplitAtMedian(pts: seq<Point>, cd: nat, d: nat): (r: (seq<Point>, Point, seq<Point>))
    requires cd < d && AllDims(pts, d) && |pts| > 0
    ensures AllDims(r.0, d) && AllDims(r.2, d) && |r.1| == d
    ensures |r.0| == (|pts| - 1) / 2 && |r.2| == |pts| - 1 - |r.0|
    ensures multiset(r.0) + multiset{r.1} + multiset(r.2) == multiset(pts)
    ensures forall y | y in r.0 :: Order(y, r.1, cd) != Greater
    ensures forall y | y in r.2 :: Order(r.1, y, cd) != Greater
  {
    var sorted := SortPoints(pts, cd, d);
    var mi := (|pts| - 1) / 2;
    CutSorted(sorted, mi, cd, d);
    (sorted[..mi], sorted[mi], sorted[mi + 1..])
  }

  /** Cutting a sorted sequence around position mi: the parts keep the elements, nothing
      before mi orders after the element there and nothing after it orders before it. */
  lemma CutSorted(s: seq<Point>, mi: nat, cd: nat, d: nat)
    requires cd < d && AllDims(s, d) && mi < |s| && SortedOn(s, cd, d)
    ensures AllDims(s[..mi], d) && AllDims(s[mi + 1..], d) && |s[mi]| == d
    ensures multiset(s[..mi]) + multiset{s[mi]} + multiset(s[mi + 1..]) == multiset(s)
    ensures forall y | y in s[..mi] :: Order(y, s[mi], cd) != Greater
    ensures forall y | y in s[mi + 1..] :: Order(s[mi], y, cd) != Greater
  {
    assert s == s[..mi] + [s[mi]] + s[mi + 1..];
    forall y | y in s[..mi]
      ensures Order(y, s[mi], cd) != Greater
    {
      var i :| 0 <= i < mi && s[..mi][i] == y;
    }
    forall y | y in s[mi + 1..]
      ensures Order(s[mi], y, cd) != Greater
    {
      var i :| 0 <= i < |s| - mi - 1 && s[mi + 1..][i] == y;
      assert s[mi + 1 + i] == y;
    }
  }

  /** `insertAllOld`: the lower median of the points sorted on the split axis is the node, and
      the children are built from the points before and after it on the next axis. Every
      stored point is one of the inputs, with multiplicity. */
  function BuildOld(pts: seq<Point>, cd: nat, d: nat): (t: Tree)
    requires cd < d && AllDims(pts, d)
    ensures Elems(t) == multiset(pts)
    decreases |pts|
  {
    if |pts| == 0 then Nil
    else
      var (lo, mv, hi) := SplitAtMedian(pts, cd, d);
      var ncd := NextAxis(cd, d);
      Node(BuildOld(lo, ncd, d), mv, BuildOld(hi, ncd, d))
  }

  /** The old construction depends only on which points it is given, not on their order. */
  lemma BuildOldPerm(a: seq<Point>, b: seq<Point>, cd: nat, d: nat)
    requires cd < d && AllDims(a, d) && AllDims(b, d) && multiset(a) == multiset(b)
    ensures BuildOld(a, cd, d) == BuildOld(b, cd, d)
  {
    if |a| > 0 {
      assert |a| == |multiset(a)| == |b|;
      SortPointsPerm(a, b, cd, d);
      assert SplitAtMedian(a, cd, d) == SplitAtMedian(b, cd, d);
    }
  }

  /** At every node the left subtree has as many nodes as the right one, or one fewer. */
  predicate Balanced(t: Tree) {
    match t
    case Nil => true
    case Node(l, _, r) =>
      && (CountNodes(l) == CountNodes(r) || CountNodes(l) + 1 == CountNodes(r))
      && Balanced(l) && Balanced(r)
  }

  /** Splitting at the lower median at every level balances the tree. */
  lemma {:induction false} BuildOldBalanced(pts: seq<Point>, cd: nat, d: nat)
    requires cd < d && AllDims(pts, d)
    ensures Balanced(BuildOld(pts, cd, d))
    decreases |pts|
  {
    if |pts| > 0 {
      var (lo, _, hi) := SplitAtMedian(pts, cd, d);
      BuildOldBalanced(lo, NextAxis(cd, d), d);
      BuildOldBalanced(hi, NextAxis(cd, d), d);
    }
  }

  /** The values a strictly sorted slot names are sorted. */
  lemma GatherSorted(vs: seq<Point>, s: seq<nat>, ax: nat, d: nat)
    requires ax < d && AllDims(vs, d) && Indexes(s, vs) && StrictIdx(s, vs, ax, d)
    ensures AllDims(Gather(vs, s), d) && SortedOn(Gather(vs, s), ax, d)
  {
  }

  /** One level of insertAllNew: the node is the value at the median position of slot 0, and
      the children are built from the child slices, which are well formed one level down. */
  lemma BuildNewUnfold(vs: seq<Point>, idx: seq<seq<nat>>, cd: nat, d: nat)
    requires WF(vs, idx, cd, d) && |idx[0]| > 0
    ensures var si := (|idx[0]| - 1) / 2;
      var m := idx[0][si];
      && WF(vs, Halves(vs, idx, cd, d, si, m, true), NextAxis(cd, d), d)
      && WF(vs, Halves(vs, idx, cd, d, si, m, false), NextAxis(cd, d), d)
      && BuildNew(vs, idx, cd, d) == Node(BuildNew(vs, Halves(vs, idx, cd, d, si, m, true), NextAxis(cd, d), d), vs[m],
                                          BuildNew(vs, Halves(vs, idx, cd, d, si, m, false), NextAxis(cd, d), d))
  {
    HalvesWF(vs, idx, cd, d);
  }

  /** On points already sorted on cd, insertAllOld's split is a plain cut at the median. */
  lemma SplitSorted(g: seq<Point>, cd: nat, d: nat)
    requires cd < d && AllDims(g, d) && SortedOn(g, cd, d) && |g| > 0
    ensures var mi := (|g| - 1) / 2; SplitAtMedian(g, cd, d) == (g[..mi], g[mi], g[mi + 1..])
  {
    SortPointsOfSorted(g, cd, d);
  }

  /** The old construction of the values a strictly sorted slot names: no reordering is
      needed, so the node is the value at the median position and the children are built
      from the values before and after it. */
  lemma BuildOldOfCut(vs: seq<Point>, cut: seq<nat>, cd: nat, d: nat)
    requires cd < d && AllDims(vs, d) && Indexes(cut, vs) && StrictIdx(cut, vs, cd, d) && |cut| > 0
    ensures var si := (|cut| - 1) / 2;
      && AllDims(Gather(vs, cut), d) && AllDims(Gather(vs, cut[..si]), d) && AllDims(Gather(vs, cut[si + 1..]), d)
      && BuildOld(Gather(vs, cut), cd, d) ==
         Node(BuildOld(Gather(vs, cut[..si]), NextAxis(cd, d), d), vs[cut[si]],
              BuildOld(Gather(vs, cut[si + 1..]), NextAxis(cd, d), d))
  {
    var si := (|cut| - 1) / 2;
    var g := Gather(vs, cut);
    GatherSorted(vs, cut, cd, d);
    SplitSorted(g, cd, d);
    assert g[..si] == Gather(vs, cut[..si]) && g[si + 1..] == Gather(vs, cut[si + 1..]);
  }

  /** Two index slices holding the same indices give the same old construction. */
  lemma BuildOldOfSame(vs: seq<Point>, a: seq<nat>, b: seq<nat>, cd: nat, d: nat)
    requires cd < d && AllDims(vs, d) && Indexes(a, vs) && Indexes(b, vs) && multiset(a) == multiset(b)
    ensures AllDims(Gather(vs, a), d) && AllDims(Gather(vs, b), d)
    ensures BuildOld(Gather(vs, a), cd, d) == BuildOld(Gather(vs, b), cd, d)
  {
    GatherPerm(vs, a, b);
    BuildOldPerm(Gather(vs, a), Gather(vs, b), cd, d);
  }

  /** The old construction of a child's slot 0 equals that of the matching part of the cut
      slot, since the two name the same values. */
  lemma BuildOldOfHalves(vs: seq<Point>, idx: seq<seq<nat>>, cd: nat, d: nat)
    requires WF(vs, idx, cd, d) && |idx[0]| > 0
    ensures var si := (|idx[0]| - 1) / 2;
      var m := idx[0][si];
      var lh := Halves(vs, idx, cd, d, si, m, true);
      var uh := Halves(vs, idx, cd, d, si, m, false);
      && WF(vs, lh, NextAxis(cd, d), d) && WF(vs, uh, NextAxis(cd, d), d)
      && AllDims(Gather(vs, lh[0]), d) && AllDims(Gather(vs, uh[0]), d)
      && AllDims(Gather(vs, idx[0][..si]), d) && AllDims(Gather(vs, idx[0][si + 1..]), d)
      && BuildOld(Gather(vs, lh[0]), NextAxis(cd, d), d) == BuildOld(Gather(vs, idx[0][..si]), NextAxis(cd, d), d)
      && BuildOld(Gather(vs, uh[0]), NextAxis(cd, d), d) == BuildOld(Gather(vs, idx[0][si + 1..]), NextAxis(cd, d), d)
  {
    var cut := idx[0];
    var si := (|cut| - 1) / 2;
    var m := cut[si];
    HalvesWF(vs, idx, cd, d);
    var lh := Halves(vs, idx, cd, d, si, m, true);
    var uh := Halves(vs, idx, cd, d, si, m, false);
    BuildOldOfSame(vs, lh[0], cut[..si], NextAxis(cd, d), d);
    BuildOldOfSame(vs, uh[0], cut[si + 1..], NextAxis(cd, d), d);
  }

  /** insertAllNew builds exactly the tree insertAllOld builds from the same values: the
      per-axis presorted slices reproduce what sorting at every level would give. */
  lemma {:induction false} BuildNewIsOld(vs: seq<Point>, idx: seq<seq<nat>>, cd: nat, d: nat)
    requires WF(vs, idx, cd, d)
    ensures AllDims(Gather(vs, idx[0]), d)
    ensures BuildNew(vs, idx, cd, d) == BuildOld(Gather(vs, idx[0]), cd, d)
    decreases |idx[0]|
  {
    var cut := idx[0];
    assert AxisPlus(cd, 0, d) == cd;
    if |cut| > 0 {
      var si := (|cut| - 1) / 2;
      var m := cut[si];
      var ncd := NextAxis(cd, d);
      BuildNewUnfold(vs, idx, cd, d);
      HalvesFit(vs, idx, cd, d, 0);
      var lh := Halves(vs, idx, cd, d, si, m, true);
      var uh := Halves(vs, idx, cd, d, si, m, false);
      BuildNewIsOld(vs, lh, ncd, d);
      BuildNewIsOld(vs, uh, ncd, d);
      BuildOldOfHalves(vs, idx, cd, d);
      BuildOldOfCut(vs, cut, cd, d);
    }
  }

  /** The tree stores exactly the values slot 0 names. */
  lemma BuildNewElems(vs: seq<Point>, idx: seq<seq<nat>>, cd: nat, d: nat)
    requires WF(vs, idx, cd, d)
    ensures Elems(BuildNew(vs, idx, cd, d)) == multiset(Gather(vs, idx[0]))
  {
    BuildNewIsOld(vs, idx, cd, d);
  }

  /** Before the median position of the cut slot, every value orders Lesser than the median
      on cd. */
  lemma CutBefore(vs: seq<Point>, cut: seq<nat>, si: nat, cd: nat, d: nat)
    requires cd < d && AllDims(vs, d) && Indexes(cut, vs) && StrictIdx(cut, vs, cd, d) && si < |cut|
    ensures forall y | y in multiset(Gather(vs, cut[..si])) :: |y| == d && Order(y, vs[cut[si]], cd) == Lesser
  {
    var g := Gather(vs, cut[..si]);
    forall y | y in multiset(g)
      ensures |y| == d && Order(y, vs[cut[si]], cd) == Lesser
    {
      var k :| 0 <= k < si && g[k] == y;
      CutOrder(cut, vs, si, k, cd, d);
    }
  }

  /** After the median position of the cut slot, no value orders Lesser than the median on
      cd. */
  lemma CutAfter(vs: seq<Point>, cut: seq<nat>, si: nat, cd: nat, d: nat)
    requires cd < d && AllDims(vs, d) && Indexes(cut, vs) && StrictIdx(cut, vs, cd, d) && si < |cut|
    ensures forall y | y in multiset(Gather(vs, cut[si + 1..])) :: |y| == d && Order(y, vs[cut[si]], cd) != Lesser
  {
    var g := Gather(vs, cut[si + 1..]);
    forall y | y in multiset(g)
      ensures |y| == d && Order(y, vs[cut[si]], cd) != Lesser
    {
      var k :| 0 <= k < |g| && g[k] == y;
      CutOrder(cut, vs, si, si + 1 + k, cd, d);
    }
  }

  /** One level of the k-d invariant for insertAllNew's node: the left child stores what
      precedes the median in the cut slot, the right child what follows it. */
  lemma CutIsKD(vs: seq<Point>, cut: seq<nat>, cd: nat, d: nat, l: Tree, r: Tree)
    requires cd < d && AllDims(vs, d) && Indexes(cut, vs) && StrictIdx(cut, vs, cd, d) && |cut| > 0
    requires Elems(l) == multiset(Gather(vs, cut[..(|cut| - 1) / 2]))
    requires Elems(r) == multiset(Gather(vs, cut[(|cut| - 1) / 2 + 1..]))
    requires IsKD(l, d, NextAxis(cd, d)) && IsKD(r, d, NextAxis(cd, d))
    ensures IsKD(Node(l, vs[cut[(|cut| - 1) / 2]], r), d, cd)
  {
    var si := (|cut| - 1) / 2;
    CutBefore(vs, cut, si, cd, d);
    CutAfter(vs, cut, si, cd, d);
    IsKDNode(l, vs[cut[si]], r, d, cd);
  }

  /** The children of insertAllNew's node store what precedes and what follows the median
      in the cut slot. */
  lemma ChildElems(vs: seq<Point>, idx: seq<seq<nat>>, cd: nat, d: nat)
    requires WF(vs, idx, cd, d) && |idx[0]| > 0
    ensures var si := (|idx[0]| - 1) / 2;
      var m := idx[0][si];
      && WF(vs, Halves(vs, idx, cd, d, si, m, true), NextAxis(cd, d), d)
      && WF(vs, Halves(vs, idx, cd, d, si, m, false), NextAxis(cd, d), d)
      && Elems(BuildNew(vs, Halves(vs, idx, cd, d, si, m, true), NextAxis(cd, d), d)) == multiset(Gather(vs, idx[0][..si]))
      && Elems(BuildNew(vs, Halves(vs, idx, cd, d, si, m, false), NextAxis(cd, d), d)) == multiset(Gather(vs, idx[0][si + 1..]))
  {
    HalfElems(vs, idx, cd, d, true);
    HalfElems(vs, idx, cd, d, false);
  }

  /** One child of insertAllNew's node stores what lies on its side of the median in the cut
      slot. */
  lemma HalfElems(vs: seq<Point>, idx: seq<seq<nat>>, cd: nat, d: nat, low: bool)
    requires WF(vs, idx, cd, d) && |idx[0]| > 0
    ensures var si := (|idx[0]| - 1) / 2;
      var h := Halves(vs, idx, cd, d, si, idx[0][si], low);
      && WF(vs, h, NextAxis(cd, d), d)
      && Elems(BuildNew(vs, h, NextAxis(cd, d), d)) == multiset(Gather(vs, Side(CutSides(idx[0], si), low)))
  {
    var si := (|idx[0]| - 1) / 2;
    var h := Halves(vs, idx, cd, d, si, idx[0][si], low);
    HalfWF(vs, idx, cd, d, low);
    BuildNewElems(vs, h, NextAxis(cd, d), d);
    GatherPerm(vs, h[0], Side(CutSides(idx[0], si), low));
  }

  /** insertAllNew's node is a k-d node once its two children are k-d trees. */
  lemma BuildNewNodeIsKD(vs: seq<Point>, idx: seq<seq<nat>>, cd: nat, d: nat)
    requires WF(vs, idx, cd, d) && |idx[0]| > 0
    requires var si := (|idx[0]| - 1) / 2;
      var m := idx[0][si];
      && WF(vs, Halves(vs, idx, cd, d, si, m, true), NextAxis(cd, d), d)
      && WF(vs, Halves(vs, idx, cd, d, si, m, false), NextAxis(cd, d), d)
      && IsKD(BuildNew(vs, Halves(vs, idx, cd, d, si, m, true), NextAxis(cd, d), d), d, NextAxis(cd, d))
      && IsKD(BuildNew(vs, Halves(vs, idx, cd, d, si, m, false), NextAxis(cd, d), d), d, NextAxis(cd, d))
    ensures IsKD(BuildNew(vs, idx, cd, d), d, cd)
  {
    var cut := idx[0];
    var si := (|cut| - 1) / 2;
    var m := cut[si];
    var ncd := NextAxis(cd, d);
    BuildNewUnfold(vs, idx, cd, d);
    var lh := Halves(vs, idx, cd, d, si, m, true);
    var uh := Halves(vs, idx, cd, d, si, m, false);
    ChildElems(vs, idx, cd, d);
    assert AxisPlus(cd, 0, d) == cd;
    CutIsKD(vs, cut, cd, d, BuildNew(vs, lh, ncd, d), BuildNew(vs, uh, ncd, d));
  }

  /** insertAllNew builds a k-d tree: the k-d invariant holds at every level. */
  lemma {:induction false} BuildNewIsKD(vs: seq<Point>, idx: seq<seq<nat>>, cd: nat, d: nat)
    requires WF(vs, idx, cd, d)
    ensures IsKD(BuildNew(vs, idx, cd, d), d, cd)
    decreases |idx[0]|
  {
    var cut := idx[0];
    if |cut| > 0 {
      var si := (|cut| - 1) / 2;
      var m := cut[si];
      var ncd := NextAxis(cd, d);
      HalvesWF(vs, idx, cd, d);
      HalvesFit(vs, idx, cd, d, 0);
      BuildNewIsKD(vs, Halves(vs, idx, cd, d, si, m, true), ncd, d);
      BuildNewIsKD(vs, Halves(vs, idx, cd, d, si, m, false), ncd, d);
      BuildNewNodeIsKD(vs, idx, cd, d);
    }
  }

  /** The starting slices of NewKDTreeWithValues: slot cd lists 0 .. n-1 sorted by the
      super-key on axis cd. */
  function InitialIndices(vs: seq<Point>, d: nat): (idx: seq<seq<nat>>)
    requires AllDims(vs, d)
    ensures |idx| == d
  {
    seq(d, cd requires 0 <= cd < d => SortIndices(Iota(|vs|), vs, cd, d))
  }

  /** With distinct values the starting slices are well formed from axis 0, and slot 0 holds
      every index once. */
  lemma InitialIndicesWF(vs: seq<Point>, d: nat)
    requires d >= 1 && AllDims(vs, d) && Distinct(vs)
    ensures WF(vs, InitialIndices(vs, d), 0, d)
    ensures multiset(InitialIndices(vs, d)[0]) == multiset(Iota(|vs|))
  {
    var idx := InitialIndices(vs, d);
    IotaOnce(|vs|);
    forall i | 0 <= i < d
      ensures Indexes(idx[i], vs) && StrictIdx(idx[i], vs, AxisPlus(0, i, d), d)
      ensures multiset(idx[i]) == multiset(Iota(|vs|))
    {
      SortedIdxStrict(idx[i], vs, i, d);
    }
  }

  /** Gathering 0 .. n-1 gives the values back in order. */
  lemma GatherIota(vs: seq<Point>)
    ensures Indexes(Iota(|vs|), vs) && Gather(vs, Iota(|vs|)) == vs
  {
  }

  /** `NewKDTreeWithValues`: sorts one index slice per axis, then builds with insertAllNew;
      size is the number of values. The values must be distinct and have d coordinates. With
      d < 1 the slice of slices is empty (or cannot be made) and Go panics. The result is a
      valid k-d tree holding exactly the values, is the tree the old sort-at-every-level
      construction gives, and is balanced. */
  function NewKDTreeWithValues(d: int, vs: seq<Point>): (r: Result<KDTree>)
    requires d >= 1 ==> AllDims(vs, d) && Distinct(vs)
    ensures r.Panic? <==> d < 1
    ensures r.Ok? ==> r.value.dims == d && r.value.size == |vs| && Valid(r.value)
    ensures r.Ok? ==> Elems(r.value.root) == multiset(vs)
    ensures r.Ok? ==> r.value.root == BuildOld(vs, 0, d) && Balanced(r.value.root)
  {
    if d < 1 then Panic("index out of range [0] with length 0")
    else
      var idx := InitialIndices(vs, d);
      InitialIndicesWF(vs, d);
      var root := BuildNew(vs, idx, 0, d);
      NewTreeFacts(vs, d);
      Ok(KDTree(d, root, |vs|))
  }

  lemma NewTreeFacts(vs: seq<Point>, d: nat)
    requires d >= 1 && AllDims(vs, d) && Distinct(vs)
    ensures WF(vs, InitialIndices(vs, d), 0, d)
    ensures var t := BuildNew(vs, InitialIndices(vs, d), 0, d);
      && IsKD(t, d, 0) && NoDuplicates(t) && CountNodes(t) == |vs| && Elems(t) == multiset(vs)
      && t == BuildOld(vs, 0, d) && Balanced(t)
  {
    var idx := InitialIndices(vs, d);
    InitialIndicesWF(vs, d);
    var t := BuildNew(vs, idx, 0, d);
    BuildNewIsKD(vs, idx, 0, d);
    BuildNewIsOld(vs, idx, 0, d);
    GatherIota(vs);
    BuildOldOfSame(vs, idx[0], Iota(|vs|), 0, d);
    BuildOldBalanced(vs, 0, d);
    DistinctCounts(vs);
  }

  /** `OldKDTreeWithValues` (benchmark file): builds with insertAllOld and leaves size at 0.
      On distinct values the tree is the one NewKDTreeWithValues builds; only the size
      bookkeeping differs. */
  function OldKDTreeWithValues(d: nat, vs: seq<Point>): (t: KDTree)
    requires d >= 1 && AllDims(vs, d)
    ensures t.dims == d && t.size == 0 && Elems(t.root) == multiset(vs)
    ensures Distinct(vs) ==> NewKDTreeWithValues(d, vs) == Ok(t.(size := |vs|))
  {
    KDTree(d, BuildOld(vs, 0, d), 0)
  }

  /** `OldValues` (benchmark file): the root's value, then valuesImpl on both children, which
      is the pre-order walk Values gives. */
  function OldValues(t: KDTree): (vs: seq<Point>)
    ensures vs == Values(t.root)
  {
    match t.root
    case Nil => []
    case Node(l, x, r) => [x] + Values(l) + Values(r)
  }

  /** A tree whose values have d coordinates lists values with d coordinates; a tree without
      repeated values lists none twice. */
  lemma ValuesShape(t: Tree, d: nat)
    ensures HasDims(t, d) ==> AllDims(Values(t), d)
    ensures NoDuplicates(t) ==> Distinct(Values(t))
  {
    var vs := Values(t);
    if HasDims(t, d) {
      HasDimsElems(t, d);
      forall k | 0 <= k < |vs|
        ensures |vs[k]| == d
      {
        assert vs[k] in multiset(vs);
      }
    }
    if NoDuplicates(t) {
      CountsDistinct(vs);
    }
  }

  /** `Balance`: lists the values with Values, which panics on a negative size, rebuilds the
      root from them with NewKDTreeWithValues and keeps the size field as it was. The stored
      values do not change, the result is a balanced k-d tree without repeats, and it is
      valid whenever the size bookkeeping was right. */
  function Balance(t: KDTree): (r: Result<KDTree>)
    requires t.dims >= 1 ==> HasDims(t.root, t.dims) && NoDuplicates(t.root)
    ensures r.Panic? <==> t.size < 0 || t.dims < 1
    ensures r.Ok? ==> r.value.dims == t.dims && r.value.size == t.size
    ensures r.Ok? ==> Elems(r.value.root) == Elems(t.root)
    ensures r.Ok? ==> IsKD(r.value.root, t.dims, 0) && NoDuplicates(r.value.root) && Balanced(r.value.root)
    ensures r.Ok? ==> (Valid(r.value) <==> t.size == CountNodes(t.root))
  {
    match ValuesOf(t)
    case Panic(reason) => Panic(reason)
    case Ok(vs) =>
      ValuesShape(t.root, t.dims);
      match NewKDTreeWithValues(t.dims, vs)
      case Panic(reason) => Panic(reason)
      case Ok(built) => Ok(t.(root := built.root))
  }

  /** Balancing twice gives what balancing once does. */
  lemma BalanceIdempotent(t: KDTree)
    requires t.dims >= 1 && HasDims(t.root, t.dims) && NoDuplicates(t.root)
    ensures Balance(t).Ok? <==> t.size >= 0
    ensures t.size >= 0 ==> var b := Balance(t).value;
      HasDims(b.root, b.dims) && NoDuplicates(b.root) && Balance(b) == Balance(t)
  {
    if t.size < 0 {
      return;
    }
    var b := Balance(t).value;
    IsKDHasDims(b.root, b.dims, 0);
    ValuesShape(t.root, t.dims);
    ValuesShape(b.root, b.dims);
    BuildOldPerm(Values(b.root), Values(t.root), 0, t.dims);
  }
}
