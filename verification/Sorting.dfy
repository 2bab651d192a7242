/** The in-place sort of the XPath engine and the duplicate removal that follows it. */
module Sorting {
  import opened Basics

  ghost predicate StrictTotalOrder<T(!new)>(less: (T, T) -> bool) {
    && (forall x :: !less(x, x))
    && (forall x, y :: x == y || less(x, y) || less(y, x))
    && (forall x, y, z :: less(x, y) && less(y, z) ==> less(x, z))
  }

  lemma NotLess<T(!new)>(less: (T, T) -> bool, x: T, y: T)
    requires StrictTotalOrder(less)
    ensures !less(x, y) && x != y ==> less(y, x)
    ensures less(x, y) ==> !less(y, x)
  {}

  /**
    What a comparison function is worth: on different elements it is the order. It may call an element less than
    itself, as the comparison of two attributes does.
  */
  ghost predicate Decides<T(!new)>(less: (T, T) -> bool, order: (T, T) -> bool) {
    StrictTotalOrder(order) && forall x, y :: x != y ==> less(x, y) == order(x, y)
  }

  /** A comparison that calls an element less than itself is good only for stretches without repeats. */
  ghost predicate Comparable<T(!new)>(s: seq<T>, lo: int, hi: int, less: (T, T) -> bool)
    requires 0 <= lo <= hi <= |s|
  {
    (forall x :: !less(x, x)) || NoRepeats(s[lo..hi])
  }

  lemma DecidesAt<T(!new)>(s: seq<T>, lo: int, hi: int, less: (T, T) -> bool, order: (T, T) -> bool, i: int, j: int)
    requires Decides(less, order) && 0 <= lo <= hi <= |s| && Comparable(s, lo, hi, less)
    requires lo <= i < hi && lo <= j < hi && i != j
    ensures less(s[i], s[j]) == order(s[i], s[j])
  {
    assert s[i] == s[lo..hi][i - lo] && s[j] == s[lo..hi][j - lo];
  }

  lemma TwiceCounts<T>(t: seq<T>, i: int, j: int)
    requires 0 <= i < j < |t| && t[i] == t[j]
    ensures multiset(t)[t[i]] >= 2
  {
    assert t == t[..i] + [t[i]] + t[i + 1..j] + [t[j]] + t[j + 1..];
  }

  lemma {:induction false} OnceCounts<T>(s: seq<T>)
    requires NoRepeats(s)
    ensures forall x :: multiset(s)[x] <= 1
    decreases |s|
  {
    if s == [] {
    } else {
      var n := |s| - 1;
      OnceCounts(s[..n]);
      assert s == s[..n] + [s[n]];
      assert s[n] !in s[..n];
      assert multiset(s[..n])[s[n]] == 0;
    }
  }

  lemma StillNoRepeats<T>(s: seq<T>, t: seq<T>)
    requires NoRepeats(s) && multiset(s) == multiset(t)
    ensures NoRepeats(t)
  {
    OnceCounts(s);
    forall i, j | 0 <= i < j < |t| ensures t[i] != t[j] {
      if t[i] == t[j] {
        TwiceCounts(t, i, j);
      }
    }
  }

  /** Rearranging a stretch and narrowing it keep it comparable. */
  lemma StillComparable<T(!new)>(s: seq<T>, t: seq<T>, lo: int, hi: int, lo': int, hi': int, less: (T, T) -> bool)
    requires Rearranged(s, t, lo, hi) && Comparable(s, lo, hi, less) && lo <= lo' <= hi' <= hi
    ensures hi <= |t| && Comparable(t, lo', hi', less)
  {
    if NoRepeats(s[lo..hi]) {
      StillNoRepeats(s[lo..hi], t[lo..hi]);
      forall i, j | 0 <= i < j < hi' - lo' ensures t[lo'..hi'][i] != t[lo'..hi'][j] {
        assert t[lo..hi][lo' - lo + i] != t[lo..hi][lo' - lo + j];
      }
    }
  }

  ghost predicate Sorted<T>(s: seq<T>, less: (T, T) -> bool) {
    forall i, j :: 0 <= i < j < |s| ==> !less(s[j], s[i])
  }

  ghost predicate SortedRange<T>(s: seq<T>, lo: int, hi: int, less: (T, T) -> bool) {
    0 <= lo <= hi <= |s| && forall i, j :: lo <= i < j < hi ==> !less(s[j], s[i])
  }

  /** t differs from s only inside [lo, hi), and there only in order. */
  ghost predicate Rearranged<T>(s: seq<T>, t: seq<T>, lo: int, hi: int) {
    && 0 <= lo <= hi <= |s| == |t|
    && t[..lo] == s[..lo] && t[hi..] == s[hi..]
    && multiset(t[lo..hi]) == multiset(s[lo..hi])
  }

  lemma RearrangedRefl<T>(s: seq<T>, lo: int, hi: int)
    requires 0 <= lo <= hi <= |s|
    ensures Rearranged(s, s, lo, hi)
  {}

  lemma RearrangedTrans<T>(s: seq<T>, t: seq<T>, u: seq<T>, lo: int, hi: int)
    requires Rearranged(s, t, lo, hi) && Rearranged(t, u, lo, hi)
    ensures Rearranged(s, u, lo, hi)
  {}

  lemma RearrangedWiden<T>(s: seq<T>, t: seq<T>, lo: int, hi: int, lo': int, hi': int)
    requires Rearranged(s, t, lo, hi) && 0 <= lo' <= lo && hi <= hi' <= |s|
    ensures Rearranged(s, t, lo', hi')
  {
    assert s[lo'..hi'] == s[lo'..lo] + s[lo..hi] + s[hi..hi'];
    assert t[lo'..hi'] == t[lo'..lo] + t[lo..hi] + t[hi..hi'];
    assert t[lo'..lo] == t[..lo][lo'..] == s[lo'..lo];
    assert t[hi..hi'] == t[hi..][..hi' - hi] == s[hi..hi'];
    assert t[..lo'] == t[..lo][..lo'] == s[..lo'];
    assert t[hi'..] == t[hi..][hi' - hi..] == s[hi'..];
  }

  lemma RearrangedMember<T>(s: seq<T>, t: seq<T>, lo: int, hi: int, i: int) returns (k: int)
    requires Rearranged(s, t, lo, hi) && lo <= i < hi
    ensures lo <= k < hi && t[i] == s[k]
  {
    var x := t[lo..hi][i - lo];
    assert x in multiset(t[lo..hi]);
    assert x in multiset(s[lo..hi]);
    assert x in s[lo..hi];
    var m :| 0 <= m < hi - lo && s[lo..hi][m] == x;
    k := lo + m;
  }

  lemma RearrangedOutside<T>(s: seq<T>, t: seq<T>, lo: int, hi: int, i: int)
    requires Rearranged(s, t, lo, hi) && 0 <= i < |s| && !(lo <= i < hi)
    ensures t[i] == s[i]
  {
    if i < lo {
      assert t[..lo][i] == s[..lo][i];
    } else {
      assert t[hi..][i - hi] == s[hi..][i - hi];
    }
  }

  lemma SwapRearranges<T>(s: seq<T>, i: int, j: int, lo: int, hi: int)
    requires 0 <= lo <= i < hi <= |s| && lo <= j < hi
    ensures Rearranged(s, Swapped(s, i, j), lo, hi)
  {
    var t := Swapped(s, i, j);
    assert t[lo..hi] == s[lo..hi][i - lo := s[j]][j - lo := s[i]];
    assert t[..lo] == s[..lo] && t[hi..] == s[hi..];
  }

  method Swap<T>(a: array<T>, i: int, j: int)
    requires 0 <= i < a.Length && 0 <= j < a.Length
    modifies a
    ensures a[..] == Swapped(old(a[..]), i, j)
  {
    a[i], a[j] := a[j], a[i];
  }

  /** Index of the median of three positions, chosen by comparing their values. */
  method Median3<T(!new)>(a: array<T>, first: int, middle: int, last: int, less: (T, T) -> bool,
        ghost order: (T, T) -> bool)
    returns (m: int, ghost low: int, ghost high: int)
    requires 0 <= first < middle < last < a.Length && Decides(less, order) && Comparable(a[..], first, last + 1, less)
    ensures multiset{low, m, high} == multiset{first, middle, last} && low != m && m != high
    ensures m in {first, middle, last} && low in {first, middle, last} && high in {first, middle, last}
    ensures !order(a[m], a[low]) && !order(a[high], a[m])
  {
    DecidesAt(a[..], first, last + 1, less, order, first, middle);
    DecidesAt(a[..], first, last + 1, less, order, middle, first);
    DecidesAt(a[..], first, last + 1, less, order, first, last);
    DecidesAt(a[..], first, last + 1, less, order, last, first);
    DecidesAt(a[..], first, last + 1, less, order, middle, last);
    DecidesAt(a[..], first, last + 1, less, order, last, middle);
    var f, l := first, last;
    m := middle;
    if less(a[m], a[f]) { m, f := f, m; }
    if less(a[l], a[m]) { l, m := m, l; }
    if less(a[m], a[f]) { m, f := f, m; }
    low, high := f, l;
  }

  ghost function Swapped<T>(s: seq<T>, i: int, j: int): seq<T>
    requires 0 <= i < |s| && 0 <= j < |s|
  {
    s[i := s[j]][j := s[i]]
  }

  /** The array splits as = < ? >, and the scanned part matches the pivot accordingly. */
  ghost predicate Zones<T>(s: seq<T>, begin: int, eq: int, lt: int, gt: int, end: int, pivot: T, less: (T, T) -> bool) {
    && 0 <= begin <= eq <= lt <= gt <= end <= |s|
    && (forall k :: begin <= k < eq ==> s[k] == pivot)
    && (forall k :: eq <= k < lt ==> less(s[k], pivot))
    && (forall k :: gt <= k < end ==> less(pivot, s[k]) && s[k] != pivot)
  }

  lemma ZonesAfterEqual<T>(s: seq<T>, begin: int, eq: int, lt: int, gt: int, end: int, pivot: T, less: (T, T) -> bool)
    requires Zones(s, begin, eq, lt, gt, end, pivot, less) && lt < gt && s[lt] == pivot
    ensures Zones(Swapped(s, eq, lt), begin, eq + 1, lt + 1, gt, end, pivot, less)
  {}

  lemma ZonesAfterLarger<T>(s: seq<T>, begin: int, eq: int, lt: int, gt: int, end: int, pivot: T, less: (T, T) -> bool)
    requires Zones(s, begin, eq, lt, gt, end, pivot, less) && lt < gt && less(pivot, s[lt]) && s[lt] != pivot
    ensures Zones(Swapped(s, lt, gt - 1), begin, eq, lt, gt - 1, end, pivot, less)
  {}

  lemma DecidesOther<T(!new)>(less: (T, T) -> bool, order: (T, T) -> bool, x: T, pivot: T)
    requires Decides(less, order) && !less(x, pivot) && x != pivot
    ensures less(pivot, x)
  {}

  lemma ZonesStart<T>(s: seq<T>, begin: int, end: int, pivot: T, less: (T, T) -> bool)
    requires 0 <= begin <= end <= |s|
    ensures Zones(s, begin, begin, begin, end, end, pivot, less)
  {}

  lemma ZonesBounds<T>(s: seq<T>, begin: int, eq: int, lt: int, gt: int, end: int, pivot: T, less: (T, T) -> bool)
    requires Zones(s, begin, eq, lt, gt, end, pivot, less)
    ensures 0 <= begin <= eq <= lt <= gt <= end <= |s|
    ensures lt < gt && less(s[lt], pivot) ==> Zones(s, begin, eq, lt + 1, gt, end, pivot, less)
  {}

  /** First pass: equal elements gather at the front, smaller ones after them, larger ones at the back. */
  method FourZones<T(!new, ==)>(a: array<T>, begin: int, end: int, pivot: T, less: (T, T) -> bool,
        ghost order: (T, T) -> bool)
    returns (eq: int, gt: int)
    requires 0 <= begin <= end <= a.Length && Decides(less, order)
    modifies a
    ensures Zones(a[..], begin, eq, gt, gt, end, pivot, less)
    ensures Rearranged(old(a[..]), a[..], begin, end)
  {
    hide Rearranged, Decides, Zones, Swapped;
    eq, gt := begin, end;
    var lt := begin;
    RearrangedRefl(a[..], begin, end);
    ZonesStart(a[..], begin, end, pivot, less);
    while lt < gt
      invariant begin <= eq <= lt <= gt <= end && Zones(a[..], begin, eq, lt, gt, end, pivot, less)
      invariant Rearranged(old(a[..]), a[..], begin, end)
    {
      ghost var before := a[..];
      ZonesBounds(before, begin, eq, lt, gt, end, pivot, less);
      if less(a[lt], pivot) {
        lt := lt + 1;
      } else if a[lt] == pivot {
        ZonesAfterEqual(before, begin, eq, lt, gt, end, pivot, less);
        SwapRearranges(before, eq, lt, begin, end);
        Swap(a, eq, lt);
        eq, lt := eq + 1, lt + 1;
        RearrangedTrans(old(a[..]), before, a[..], begin, end);
      } else {
        DecidesOther(less, order, a[lt], pivot);
        ZonesAfterLarger(before, begin, eq, lt, gt, end, pivot, less);
        gt := gt - 1;
        SwapRearranges(before, lt, gt, begin, end);
        Swap(a, lt, gt);
        RearrangedTrans(old(a[..]), before, a[..], begin, end);
      }
    }
  }

  /** The mirror image of the equal block is being moved behind the smaller block; `it` cells are done. */
  ghost predicate Moving<T>(s: seq<T>, begin: int, it: int, eq: int, gt: int, pivot: T, less: (T, T) -> bool) {
    && 0 <= begin <= it <= eq <= gt <= |s|
    && (forall k :: gt - (it - begin) <= k < gt ==> s[k] == pivot)
    && (forall k :: it <= k < eq ==> s[k] == pivot)
    && (forall k :: gt - (eq - begin) <= k < it ==> s[k] == pivot)
    && (forall k :: begin <= k < it && k < gt - (eq - begin) ==> less(s[k], pivot))
    && (forall k :: eq <= k < gt - (it - begin) ==> less(s[k], pivot))
  }

  lemma MovingStep<T>(s: seq<T>, begin: int, it: int, eq: int, gt: int, pivot: T, less: (T, T) -> bool)
    requires Moving(s, begin, it, eq, gt, pivot, less) && it < eq
    ensures Moving(Swapped(s, it, gt - 1 - (it - begin)), begin, it + 1, eq, gt, pivot, less)
  {}

  lemma MovingStart<T>(s: seq<T>, begin: int, eq: int, gt: int, pivot: T, less: (T, T) -> bool)
    requires 0 <= begin <= eq <= gt <= |s|
    requires forall k :: begin <= k < eq ==> s[k] == pivot
    requires forall k :: eq <= k < gt ==> less(s[k], pivot)
    ensures Moving(s, begin, begin, eq, gt, pivot, less)
  {}

  lemma MovingEnd<T>(s: seq<T>, begin: int, eq: int, gt: int, pivot: T, less: (T, T) -> bool)
    requires Moving(s, begin, eq, eq, gt, pivot, less)
    ensures forall k :: begin <= k < gt - (eq - begin) ==> less(s[k], pivot)
    ensures forall k :: gt - (eq - begin) <= k < gt ==> s[k] == pivot
  {}

  /** Second pass: the equal block moves behind the smaller one. */
  method EqualToMiddle<T(!new, ==)>(a: array<T>, begin: int, eq: int, gt: int, pivot: T, less: (T, T) -> bool)
    returns (eqbeg: int)
    requires 0 <= begin <= eq <= gt <= a.Length
    requires forall k :: begin <= k < eq ==> a[..][k] == pivot
    requires forall k :: eq <= k < gt ==> less(a[..][k], pivot)
    modifies a
    ensures eqbeg == gt - (eq - begin)
    ensures Rearranged(old(a[..]), a[..], begin, gt)
    ensures forall k :: begin <= k < eqbeg ==> less(a[..][k], pivot)
    ensures forall k :: eqbeg <= k < gt ==> a[..][k] == pivot
  {
    hide Rearranged, Moving, Swapped;
    eqbeg := gt;
    RearrangedRefl(a[..], begin, gt);
    MovingStart(a[..], begin, eq, gt, pivot, less);
    for it := begin to eq
      invariant eqbeg == gt - (it - begin)
      invariant Rearranged(old(a[..]), a[..], begin, gt)
      invariant Moving(a[..], begin, it, eq, gt, pivot, less)
    {
      ghost var before := a[..];
      MovingStep(before, begin, it, eq, gt, pivot, less);
      eqbeg := eqbeg - 1;
      SwapRearranges(before, it, eqbeg, begin, gt);
      Swap(a, it, eqbeg);
      RearrangedTrans(old(a[..]), before, a[..], begin, gt);
    }
    MovingEnd(a[..], begin, eq, gt, pivot, less);
  }

  /** An element that compares less than itself ends up in front of an empty equal zone. */
  method Partition<T(!new, ==)>(a: array<T>, begin: int, end: int, pivot: T, less: (T, T) -> bool,
        ghost order: (T, T) -> bool)
    returns (eqbeg: int, eqend: int)
    requires 0 <= begin <= end <= a.Length && Decides(less, order)
    modifies a
    ensures begin <= eqbeg <= eqend <= end
    ensures Rearranged(old(a[..]), a[..], begin, end)
    ensures forall k :: begin <= k < eqbeg ==> order(a[k], pivot) || (a[k] == pivot && less(pivot, pivot))
    ensures forall k :: eqbeg <= k < eqend ==> a[k] == pivot
    ensures forall k :: eqend <= k < end ==> order(pivot, a[k])
  {
    var eq: int;
    eq, eqend := FourZones(a, begin, end, pivot, less, order);
    ghost var zones := a[..];
    assert forall k :: begin <= k < eq ==> zones[k] == pivot;
    eqbeg := EqualToMiddle(a, begin, eq, eqend, pivot, less);
    RearrangedWiden(zones, a[..], begin, eqend, begin, end);
    RearrangedTrans(old(a[..]), zones, a[..], begin, end);
    forall k | eqend <= k < end ensures order(pivot, a[k]) {
      RearrangedOutside(zones, a[..], begin, eqend, k);
      assert less(pivot, zones[k]) && zones[k] != pivot;
    }
  }

  method InsertionSort<T(!new)>(a: array<T>, begin: int, end: int, less: (T, T) -> bool, ghost order: (T, T) -> bool)
    requires 0 <= begin <= end <= a.Length && Decides(less, order) && Comparable(a[..], begin, end, less)
    modifies a
    ensures Rearranged(old(a[..]), a[..], begin, end)
    ensures SortedRange(a[..], begin, end, order)
  {
    hide Rearranged, Comparable, Decides;
    RearrangedRefl(a[..], begin, end);
    if begin == end {
      return;
    }
    for it := begin + 1 to end
      invariant Rearranged(old(a[..]), a[..], begin, end)
      invariant SortedRange(a[..], begin, it, order)
    {
      ghost var before := a[..];
      StillComparable(old(a[..]), before, begin, end, begin, end, less);
      InsertBackwards(a, begin, it, end, less, order);
      RearrangedTrans(old(a[..]), before, a[..], begin, end);
    }
  }

  /** With val put in the hole, [begin, it] is in order but for val, which must still move down. */
  ghost predicate Inserting<T>(s: seq<T>, begin: int, hole: int, it: int, less: (T, T) -> bool) {
    && 0 <= begin <= hole <= it < |s|
    && (forall i, j :: begin <= i < j <= it && i != hole && j != hole ==> !less(s[j], s[i]))
    && (forall j :: hole < j <= it ==> less(s[hole], s[j]))
  }

  lemma InsertingStart<T>(s: seq<T>, begin: int, it: int, less: (T, T) -> bool)
    requires 0 <= begin <= it < |s| && SortedRange(s, begin, it, less)
    ensures Inserting(s, begin, it, it, less)
  {}

  lemma InsertingStep<T>(s: seq<T>, begin: int, hole: int, it: int, less: (T, T) -> bool)
    requires Inserting(s, begin, hole, it, less) && begin < hole && less(s[hole], s[hole - 1])
    ensures Inserting(Swapped(s, hole, hole - 1), begin, hole - 1, it, less)
  {
    var t := Swapped(s, hole, hole - 1);
    forall i, j | begin <= i < j <= it && i != hole - 1 && j != hole - 1 ensures !less(t[j], t[i]) {
      var i', j' := if i == hole then hole - 1 else i, if j == hole then hole - 1 else j;
      assert t[i] == s[i'] && t[j] == s[j'] && i' < j';
    }
  }

  lemma Inserted<T(!new)>(s: seq<T>, begin: int, hole: int, it: int, less: (T, T) -> bool)
    requires Inserting(s, begin, hole, it, less) && StrictTotalOrder(less)
    requires hole == begin || !less(s[hole], s[hole - 1])
    ensures SortedRange(s, begin, it + 1, less)
  {
    forall i, j | begin <= i < j <= it ensures !less(s[j], s[i]) {
      if j == hole && i < hole - 1 {
        assert !less(s[hole - 1], s[i]);
        NotLess(less, s[hole], s[i]);
        NotLess(less, s[i], s[hole - 1]);
      } else if i == hole {
        NotLess(less, s[hole], s[j]);
      }
    }
  }

  lemma HoleStep<T>(s: seq<T>, hole: int, val: T)
    requires 0 < hole < |s|
    ensures s[hole := s[hole - 1]][hole - 1 := val] == Swapped(s[hole := val], hole, hole - 1)
  {}

  lemma InsertStep<T(!new)>(was: seq<T>, s: seq<T>, begin: int, hole: int, it: int, end: int, less: (T, T) -> bool,
      order: (T, T) -> bool) returns (t: seq<T>)
    requires Decides(less, order) && begin < hole <= it < end && Rearranged(was, s, begin, end)
    requires Comparable(was, begin, end, less) && Inserting(s, begin, hole, it, order) && less(s[hole], s[hole - 1])
    ensures Rearranged(was, t, begin, end) && Inserting(t, begin, hole - 1, it, order) &&
      t == Swapped(s, hole, hole - 1)
  {
    hide Rearranged, Comparable, Decides, Swapped;
    StillComparable(was, s, begin, end, begin, end, less);
    DecidesAt(s, begin, end, less, order, hole, hole - 1);
    InsertingStep(s, begin, hole, it, order);
    SwapRearranges(s, hole, hole - 1, begin, end);
    t := Swapped(s, hole, hole - 1);
    RearrangedTrans(was, s, t, begin, end);
  }

  lemma InsertDone<T(!new)>(was: seq<T>, s: seq<T>, begin: int, hole: int, it: int, end: int, less: (T, T) -> bool,
      order: (T, T) -> bool)
    requires Decides(less, order) && begin <= hole <= it < end && Rearranged(was, s, begin, end)
    requires Comparable(was, begin, end, less) && Inserting(s, begin, hole, it, order)
    requires hole == begin || !less(s[hole], s[hole - 1])
    ensures SortedRange(s, begin, it + 1, order)
  {
    if hole > begin {
      StillComparable(was, s, begin, end, begin, end, less);
      DecidesAt(s, begin, end, less, order, hole, hole - 1);
    }
    Inserted(s, begin, hole, it, order);
  }

  lemma DecidesOrder<T(!new)>(less: (T, T) -> bool, order: (T, T) -> bool)
    requires Decides(less, order)
    ensures StrictTotalOrder(order)
  {}

  /** Moves the hole backwards past every larger element, then fills it. */
  method InsertBackwards<T(!new)>(a: array<T>, begin: int, it: int, end: int, less: (T, T) -> bool,
        ghost order: (T, T) -> bool)
    requires 0 <= begin <= it < end <= a.Length && Decides(less, order) && Comparable(a[..], begin, end, less)
    requires SortedRange(a[..], begin, it, order)
    modifies a
    ensures Rearranged(old(a[..]), a[..], begin, end)
    ensures SortedRange(a[..], begin, it + 1, order)
  {
    hide Rearranged, Inserting, SortedRange, Swapped, Comparable, Decides;
    var val := a[it];
    var hole := it;
    RearrangedRefl(a[..], begin, end);
    ghost var filled := a[..];
    InsertingStart(filled, begin, it, order);
    while hole > begin && less(val, a[hole - 1])
      invariant begin <= hole <= it && Inserting(filled, begin, hole, it, order)
      invariant filled == a[..][hole := val]
      invariant Rearranged(old(a[..]), filled, begin, end)
    {
      HoleStep(a[..], hole, val);
      filled := InsertStep(old(a[..]), filled, begin, hole, it, end, less, order);
      a[hole] := a[hole - 1];
      hole := hole - 1;
    }
    a[hole] := val;
    assert a[..] == filled;
    InsertDone(old(a[..]), filled, begin, hole, it, end, less, order);
  }

  /** Everything in [begin, end) but the pairs inside [x, y) and the pairs inside [u, v) is in order. */
  ghost predicate SortedBut<T>(s: seq<T>, less: (T, T) -> bool, begin: int, end: int, x: int, y: int, u: int, v: int)
    requires 0 <= begin <= end <= |s|
  {
    forall i, j :: begin <= i < j < end && !(x <= i && j < y) && !(u <= i && j < v) ==> !less(s[j], s[i])
  }

  /** Rearranging [x, y) does not disturb pairs reaching out of it. */
  lemma RearrangedKeepsOrder<T>(s: seq<T>, t: seq<T>, less: (T, T) -> bool, begin: int, end: int,
      x: int, y: int, u: int, v: int)
    requires 0 <= begin <= x <= y <= end <= |s| && (y <= u <= v <= end || begin <= u <= v <= x)
    requires Rearranged(s, t, x, y) && SortedBut(s, less, begin, end, x, y, u, v)
    ensures SortedBut(t, less, begin, end, x, y, u, v)
  {
    forall i, j | begin <= i < j < end && !(x <= i && j < y) && !(u <= i && j < v) ensures !less(t[j], t[i]) {
      var i', j' := i, j;
      if x <= i < y { i' := RearrangedMember(s, t, x, y, i); } else { RearrangedOutside(s, t, x, y, i); }
      if x <= j < y { j' := RearrangedMember(s, t, x, y, j); } else { RearrangedOutside(s, t, x, y, j); }
      assert i' < j' && !(x <= i' && j' < y) && !(u <= i' && j' < v);
    }
  }

  lemma SegmentSorted<T>(t: seq<T>, less: (T, T) -> bool, begin: int, end: int, x: int, y: int, u: int, v: int)
    requires 0 <= begin <= x <= y <= end <= |t| && begin <= u <= v <= end
    requires SortedBut(t, less, begin, end, x, y, u, v) && Sorted(t[x..y], less)
    ensures SortedBut(t, less, begin, end, u, v, u, v)
  {
    forall i, j | begin <= i < j < end && !(u <= i && j < v) ensures !less(t[j], t[i]) {
      if x <= i && j < y {
        assert t[x..y][i - x] == t[i] && t[x..y][j - x] == t[j];
      }
    }
  }

  /** The three zones around a pivot split the unsorted stretch in two. */
  lemma ZonesSplit<T(!new)>(s: seq<T>, t: seq<T>, less: (T, T) -> bool, pivot: T, begin0: int, end0: int,
      begin: int, eqbeg: int, eqend: int, end: int)
    requires StrictTotalOrder(less)
    requires 0 <= begin0 <= begin <= eqbeg <= eqend <= end <= end0 <= |s|
    requires Rearranged(s, t, begin, end) && SortedBut(s, less, begin0, end0, begin, end, begin, end)
    requires forall k :: begin <= k < eqbeg ==> t[k] == pivot || less(t[k], pivot)
    requires forall k :: eqbeg <= k < eqend ==> t[k] == pivot
    requires forall k :: eqend <= k < end ==> less(pivot, t[k])
    ensures SortedBut(t, less, begin0, end0, begin, eqbeg, eqend, end)
  {
    assert SortedBut(s, less, begin0, end0, begin, end, end, end);
    RearrangedKeepsOrder(s, t, less, begin0, end0, begin, end, end, end);
    forall i, j | begin0 <= i < j < end0 && !(begin <= i && j < eqbeg) && !(eqend <= i && j < end)
      ensures !less(t[j], t[i])
    {
      if begin <= i && j < end {
        assert t[i] == pivot || less(t[i], pivot);
        assert t[j] == pivot || less(pivot, t[j]);
      }
    }
  }

  /**
    One round of the loop of `sort`: choose a pivot and split the current stretch around it. Both parts are shorter.
  */
  method SplitAt<T(!new, ==)>(a: array<T>, begin0: int, begin: int, end: int, end0: int, less: (T, T) -> bool,
      ghost order: (T, T) -> bool) returns (eqbeg: int, eqend: int)
    requires 0 <= begin0 <= begin < end - 2 && end <= end0 <= a.Length && Decides(less, order)
    requires Comparable(a[..], begin, end, less) && SortedBut(a[..], order, begin0, end0, begin, end, begin, end)
    modifies a
    ensures begin <= eqbeg <= eqend <= end && eqbeg < end && begin < eqend
    ensures Rearranged(old(a[..]), a[..], begin, end)
    ensures SortedBut(a[..], order, begin0, end0, begin, eqbeg, eqend, end)
  {
    hide Rearranged, SortedBut, Decides, Comparable;
    ghost var was := a[..];
    var middle := begin + (end - begin) / 2;
    var median, _, high := Median3(a, begin, middle, end - 1, less, order);
    ghost var pivot := a[median];
    eqbeg, eqend := Partition(a, begin, end, a[median], less, order);
    DecidesOrder(less, order);
    NotAllInFront(was, a[..], begin, eqbeg, eqend, end, less, order, median, high);
    ZonesSplit(was, a[..], order, pivot, begin0, end0, begin, eqbeg, eqend, end);
  }

  /** The pivot is not in the back zone, and some element is not in the front zone. */
  lemma NotAllInFront<T(!new)>(s: seq<T>, t: seq<T>, begin: int, eqbeg: int, eqend: int, end: int, less: (T, T) -> bool,
      order: (T, T) -> bool, median: int, high: int)
    requires Decides(less, order) && Rearranged(s, t, begin, end) && Comparable(s, begin, end, less)
    requires begin <= eqbeg <= eqend <= end && begin <= median < end && begin <= high < end && high != median
    requires !order(s[high], s[median])
    requires forall k :: begin <= k < eqbeg ==>
      order(t[k], s[median]) || (t[k] == s[median] && less(s[median], s[median]))
    requires forall k :: eqend <= k < end ==> order(s[median], t[k])
    ensures eqbeg < end && begin < eqend
  {
    var p := RearrangedMember(t, s, begin, end, median);
    var k := RearrangedMember(t, s, begin, end, high);
  }

  /** `sort`: quicksort by three-way partition down to chunks of 16, recursing on the smaller side only. */
  method Sort<T(!new, ==)>(a: array<T>, begin0: int, end0: int, less: (T, T) -> bool, ghost order: (T, T) -> bool)
    returns (ghost depth: nat)
    requires 0 <= begin0 <= end0 <= a.Length && Decides(less, order) && Comparable(a[..], begin0, end0, less)
    modifies a
    ensures Rearranged(old(a[..]), a[..], begin0, end0)
    ensures Sorted(a[begin0..end0], order)
    ensures depth > 0 ==> 8 * Pow2(depth) <= end0 - begin0
    decreases end0 - begin0
  {
    hide Rearranged, SortedBut, Decides, Comparable, SortedRange, Sorted;
    var begin, end := begin0, end0;
    depth := 0;
    RearrangedRefl(a[..], begin, end);
    SortedButAll(a[..], order, begin, end);
    while end - begin > 16
      invariant begin0 <= begin <= end <= end0
      invariant Rearranged(old(a[..]), a[..], begin0, end0)
      invariant SortedBut(a[..], order, begin0, end0, begin, end, begin, end)
      invariant depth > 0 ==> 8 * Pow2(depth) <= end0 - begin0
      decreases end - begin
    {
      ghost var before := a[..];
      StillComparable(old(a[..]), before, begin0, end0, begin, end, less);
      var eqbeg, eqend := SplitAt(a, begin0, begin, end, end0, less, order);
      ghost var split := a[..];
      RearrangedWiden(before, split, begin, end, begin0, end0);
      RearrangedTrans(old(a[..]), before, split, begin0, end0);
      StillComparable(old(a[..]), split, begin0, end0, begin, eqbeg, less);
      StillComparable(old(a[..]), split, begin0, end0, eqend, end, less);
      ghost var d: nat;
      if eqbeg - begin > end - eqend {
        SortedButEither(split, order, begin0, end0, begin, eqbeg, eqend, end);
        d := Sort(a, eqend, end, less, order);
        SideSorted(split, a[..], order, begin0, end0, eqend, end, begin, eqbeg);
        end := eqbeg;
      } else {
        d := Sort(a, begin, eqbeg, less, order);
        SideSorted(split, a[..], order, begin0, end0, begin, eqbeg, eqend, end);
        begin := eqend;
      }
      RearrangedTrans(old(a[..]), split, a[..], begin0, end0);
      depth := if d + 1 > depth then d + 1 else depth;
    }
    ghost var chunk := a[..];
    StillComparable(old(a[..]), chunk, begin0, end0, begin, end, less);
    InsertionSort(a, begin, end, less, order);
    RangeSorted(a[..], begin, end, order);
    SortedButWiden(chunk, order, begin0, end0, begin, end);
    SideSorted(chunk, a[..], order, begin0, end0, begin, end, end, end);
    RearrangedTrans(old(a[..]), chunk, a[..], begin0, end0);
    SortedButNone(a[..], order, begin0, end0, end);
  }

  lemma RangeSorted<T>(s: seq<T>, lo: int, hi: int, less: (T, T) -> bool)
    requires SortedRange(s, lo, hi, less)
    ensures Sorted(s[lo..hi], less)
  {}

  lemma SortedButAll<T>(s: seq<T>, less: (T, T) -> bool, begin: int, end: int)
    requires 0 <= begin <= end <= |s|
    ensures SortedBut(s, less, begin, end, begin, end, begin, end)
  {}

  lemma SortedButEither<T>(s: seq<T>, less: (T, T) -> bool, begin: int, end: int, x: int, y: int, u: int, v: int)
    requires 0 <= begin <= end <= |s| && SortedBut(s, less, begin, end, x, y, u, v)
    ensures SortedBut(s, less, begin, end, u, v, x, y)
  {}

  lemma SortedButWiden<T>(s: seq<T>, less: (T, T) -> bool, begin: int, end: int, x: int, y: int)
    requires 0 <= begin <= end <= |s| && SortedBut(s, less, begin, end, x, y, x, y)
    ensures SortedBut(s, less, begin, end, x, y, y, y)
  {}

  lemma SortedButNone<T>(s: seq<T>, less: (T, T) -> bool, begin: int, end: int, at: int)
    requires 0 <= begin <= end <= |s| && SortedBut(s, less, begin, end, at, at, at, at)
    ensures Sorted(s[begin..end], less)
  {
    forall i, j | 0 <= i < j < end - begin ensures !less(s[begin..end][j], s[begin..end][i]) {
      assert begin <= begin + i < begin + j < end;
    }
  }

  /** Sorting the stretch [x, y) leaves only [u, v) to do. */
  lemma SideSorted<T>(s: seq<T>, t: seq<T>, less: (T, T) -> bool, begin: int, end: int, x: int, y: int, u: int, v: int)
    requires 0 <= begin <= x <= y <= end <= |s| && (y <= u <= v <= end || begin <= u <= v <= x)
    requires Rearranged(s, t, x, y) && SortedBut(s, less, begin, end, x, y, u, v)
    requires Sorted(t[x..y], less)
    ensures Rearranged(s, t, begin, end) && SortedBut(t, less, begin, end, u, v, u, v)
  {
    RearrangedKeepsOrder(s, t, less, begin, end, x, y, u, v);
    SegmentSorted(t, less, begin, end, x, y, u, v);
    RearrangedWiden(s, t, x, y, begin, end);
  }

  // ----- removal of neighbouring repeats

  /** The first k elements without those that repeat their predecessor. */
  function Compact<T(==)>(s: seq<T>, k: nat): (r: seq<T>)
    requires k <= |s|
    ensures |r| <= k && (k > 0 ==> |r| > 0 && r[|r| - 1] == s[k - 1])
  {
    if k == 0 then []
    else if k > 1 && s[k - 1] == s[k - 2] then Compact(s, k - 1)
    else Compact(s, k - 1) + [s[k - 1]]
  }

  lemma CompactStep<T>(s: seq<T>, k: nat)
    requires k < |s|
    ensures k == 0 ==> Compact(s, k + 1) == [s[0]]
    ensures k > 0 ==> Compact(s, k + 1) == Compact(s, k) + (if s[k] == s[k - 1] then [] else [s[k]])
  {}

  /** `unique`: compacts [0, end) in place and returns the new end. */
  method Unique<T(==)>(a: array<T>, end: int) returns (r: int)
    requires 0 <= end <= a.Length
    modifies a
    ensures 0 <= r <= end && a[..r] == Compact(old(a[..]), end)
  {
    hide Compact;
    ghost var s := a[..];
    var begin := SkipHead(a, end);
    if begin == end {
      assert end == 0;
      assert a[..0] == [];
      return begin;
    }
    var write := begin;
    begin := begin + 1;
    while begin != end
      invariant 0 <= write < begin <= end
      invariant a[..write + 1] == Compact(s, begin)
      invariant forall k :: begin <= k < a.Length ==> a[k] == s[k]
    {
      CompactStep(s, begin);
      assert a[write] == a[..write + 1][write] == s[begin - 1];
      if a[begin] != a[write] {
        ghost var kept := a[..write + 1];
        write := write + 1;
        a[write] := a[begin];
        assert a[..write + 1] == kept + [s[begin]];
      }
      begin := begin + 1;
    }
    r := write + 1;
  }

  /** The fast skip over a head without repeats. */
  method SkipHead<T(==)>(a: array<T>, end: int) returns (begin: int)
    requires 0 <= end <= a.Length
    ensures 0 <= begin <= end && (end > 0 ==> begin < end)
    ensures begin < end ==> a[..begin + 1] == Compact(a[..], begin + 1)
    ensures end == 0 ==> Compact(a[..], end) == []
  {
    begin := 0;
    while end - begin > 1 && a[begin] != a[begin + 1]
      invariant 0 <= begin <= end && (end > 0 ==> begin < end)
      invariant begin < end ==> Compact(a[..], begin + 1) == a[..begin + 1]
    {
      assert a[..begin + 2] == a[..begin + 1] + [a[begin + 1]];
      begin := begin + 1;
    }
  }

  ghost predicate StrictlySorted<T>(s: seq<T>, less: (T, T) -> bool) {
    forall i, j :: 0 <= i < j < |s| ==> less(s[i], s[j])
  }

  /** On a sorted sequence, dropping neighbouring repeats drops all repeats and nothing else. */
  lemma {:induction false} CompactSorted<T(!new)>(s: seq<T>, k: nat, less: (T, T) -> bool)
    requires k <= |s| && StrictTotalOrder(less) && Sorted(s, less)
    ensures StrictlySorted(Compact(s, k), less)
    ensures forall x :: x in Compact(s, k) <==> x in s[..k]
    decreases k
  {
    if k == 0 {
    } else {
      CompactSorted(s, k - 1, less);
      var r := Compact(s, k - 1);
      assert s[..k] == s[..k - 1] + [s[k - 1]];
      if k > 1 && s[k - 1] == s[k - 2] {
        assert s[k - 1] == s[..k - 1][k - 2];
      } else if k > 1 {
        assert !less(s[k - 1], s[k - 2]) && less(s[k - 2], s[k - 1]);
        forall i | 0 <= i < |r| ensures less(r[i], s[k - 1]) {
          if i < |r| - 1 { assert less(r[i], r[|r| - 1]); }
        }
      }
    }
  }

  /** Sorting and compacting: the same elements, each once. */
  method RemoveDuplicates<T(!new, ==)>(s: seq<T>, less: (T, T) -> bool) returns (r: seq<T>)
    requires StrictTotalOrder(less)
    ensures StrictlySorted(r, less)
    ensures forall x :: x in r <==> x in s
  {
    var a := new T[|s|](i requires 0 <= i < |s| => s[i]);
    assert a[..] == s;
    ghost var depth := Sort(a, 0, a.Length, less, less);
    ghost var t := a[..];
    var end := Unique(a, a.Length);
    r := a[..end];
    assert t[0..|t|] == t && s[0..|s|] == s;
    CompactSorted(t, |t|, less);
    assert t[..|t|] == t;
    forall x ensures x in t <==> x in s {
      assert x in t <==> x in multiset(t);
      assert x in s <==> x in multiset(s);
    }
  }

  lemma DropLast<T(!new)>(s: seq<T>, less: (T, T) -> bool)
    requires StrictTotalOrder(less) && StrictlySorted(s, less) && s != []
    ensures StrictlySorted(s[..|s| - 1], less)
    ensures forall x :: x in s[..|s| - 1] <==> x in s && x != s[|s| - 1]
  {
    var n := |s| - 1;
    assert s == s[..n] + [s[n]];
    forall k | 0 <= k < n ensures s[k] != s[n] {
      assert less(s[k], s[n]);
    }
  }

  /** Two strictly sorted sequences with the same elements are equal. */
  lemma {:induction false} StrictlySortedUnique<T(!new)>(s: seq<T>, t: seq<T>, less: (T, T) -> bool)
    requires StrictTotalOrder(less) && StrictlySorted(s, less) && StrictlySorted(t, less)
    requires forall x :: x in s <==> x in t
    ensures s == t
    decreases |s|
  {
    hide StrictTotalOrder, StrictlySorted;
    assert t == [] || t[0] in t;
    if s == [] {
    } else {
      var n, m := |s| - 1, |t| - 1;
      SameLast(s, t, less);
      DropLast(s, less);
      DropLast(t, less);
      forall x ensures x in s[..n] <==> x in t[..m] {
        assert x in s[..n] <==> x in s && x != s[n];
        assert x in t[..m] <==> x in t && x != t[m];
      }
      StrictlySortedUnique(s[..n], t[..m], less);
      assert s == s[..n] + [s[n]] && t == t[..m] + [t[m]];
    }
  }

  /** Both end with the greatest element. */
  lemma SameLast<T(!new)>(s: seq<T>, t: seq<T>, less: (T, T) -> bool)
    requires StrictTotalOrder(less) && StrictlySorted(s, less) && StrictlySorted(t, less)
    requires s != [] && forall x :: x in s <==> x in t
    ensures t != [] && s[|s| - 1] == t[|t| - 1]
  {
    hide StrictTotalOrder, StrictlySorted;
    assert s[|s| - 1] in t;
    assert t[|t| - 1] in s;
    LastIsGreatest(t, s[|s| - 1], less);
    LastIsGreatest(s, t[|t| - 1], less);
    NotLess(less, s[|s| - 1], t[|t| - 1]);
  }

  lemma LastIsGreatest<T>(s: seq<T>, x: T, less: (T, T) -> bool)
    requires StrictlySorted(s, less) && x in s
    ensures x == s[|s| - 1] || less(x, s[|s| - 1])
  {}

  function Reversed<T>(s: seq<T>): (r: seq<T>)
    ensures |r| == |s| && forall k :: 0 <= k < |s| ==> r[k] == s[|s| - 1 - k]
  {
    seq(|s|, i requires 0 <= i < |s| => s[|s| - 1 - i])
  }

  method Reverse<T>(a: array<T>)
    modifies a
    ensures a[..] == Reversed(old(a[..]))
  {
    var begin, end := 0, a.Length;
    while end - begin > 1
      invariant 0 <= begin && end == a.Length - begin && begin <= end + 1
      invariant forall k :: 0 <= k < begin || end <= k < a.Length ==> a[k] == old(a[..])[a.Length - 1 - k]
      invariant forall k :: begin <= k < end ==> a[k] == old(a[..])[k]
    {
      end := end - 1;
      a[begin], a[end] := a[end], a[begin];
      begin := begin + 1;
    }
  }
}
