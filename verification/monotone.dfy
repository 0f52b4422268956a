/** `monotoneChain` (Andrew's monotone chain), lines 101-124 of
    `AlgoritmosConvexHull/ConvexHulls.cpp`. The points, sorted by `operator<`, are
    pushed onto the array `CH` of 2n slots, first left to right for the lower hull and
    then right to left for the upper hull; before each push, entries are popped while
    the top two and the new point fail the strict `ccw` test. The upper pass never
    pops below the lower hull. The result is `CH[0..k-1)`: the last entry repeats the
    first point and is dropped.

    The sort (line 109) is not modelled: the sorted points are a parameter. `CH` is a
    sequence of 2n points updated in place, so every write is checked to be in bounds. */
module Monotone {
  import opened Geo
  import opened AnimGeo

  /** `sort(p.begin(), p.end())`: no point is below an earlier one. */
  predicate Ascending(s: seq<Point>) {
    forall i, j :: 0 <= i < j < |s| ==> !Less(s[j], s[i])
  }

  /** Every three consecutive entries among the first k turn strictly
      counter-clockwise, except the triple starting at skip. */
  predicate ChainBut(ch: seq<Point>, k: nat, skip: int)
    requires k <= |ch|
  {
    forall j :: 0 <= j < k - 2 && j != skip ==> Ccw(ch[j], ch[j + 1], ch[j + 2])
  }

  /** Pushing x at k keeps the chain when the new triple turns left or is the one
      skipped. */
  lemma PushKeepsChain(ch: seq<Point>, k: nat, skip: int, x: Point)
    requires k < |ch| && ChainBut(ch, k, skip)
    requires k >= 2 && k - 2 != skip ==> Ccw(ch[k - 2], ch[k - 1], x)
    ensures ChainBut(ch[k := x], k + 1, skip)
  {
    var ch' := ch[k := x];
    forall j | 0 <= j < k - 1 && j != skip
      ensures Ccw(ch'[j], ch'[j + 1], ch'[j + 2])
    {
      if j < k - 2 {
        assert ch'[j] == ch[j] && ch'[j + 1] == ch[j + 1] && ch'[j + 2] == ch[j + 2];
      }
    }
  }

  /** The lower pass, lines 110-113, over the array of 2n slots. It leaves k entries
      from the first to the last sorted point, turning left throughout. */
  method LowerHull(sorted: seq<Point>) returns (ch: seq<Point>, k: nat)
    requires |sorted| >= 2
    ensures |ch| == 2 * |sorted| && 2 <= k <= |sorted|
    ensures ch[0] == sorted[0] && ch[k - 1] == sorted[|sorted| - 1]
    ensures forall j :: 0 <= j < k ==> ch[j] in sorted
    ensures ChainBut(ch, k, -1)
  {
    var n := |sorted|;
    ch := seq(2 * n, _ => Point(0.0, 0.0));
    k := 0;
    var i := 0;
    while i < n
      invariant 0 <= i <= n && |ch| == 2 * n
      invariant k <= i && (i >= 1 ==> 1 <= k) && (i >= 2 ==> 2 <= k)
      invariant i >= 1 ==> ch[0] == sorted[0] && ch[k - 1] == sorted[i - 1]
      invariant forall j :: 0 <= j < k ==> ch[j] in sorted
      invariant ChainBut(ch, k, -1)
    {
      while k >= 2 && !Ccw(ch[k - 2], ch[k - 1], sorted[i])
        invariant 0 <= k <= i && (i >= 1 ==> 1 <= k)
        invariant ChainBut(ch, k, -1)
        decreases k
      {
        k := k - 1;
      }
      PushKeepsChain(ch, k, -1, sorted[i]);
      ch := ch[k := sorted[i]];
      k := k + 1;
      i := i + 1;
    }
  }

  /** The upper pass, lines 116-119, on top of `lower` entries. It never pops below
      them (`t - 1`), so they come through unchanged; every write stays within the 2n
      slots; it ends by pushing the first sorted point again. Only the turn where it
      joins the lower hull may fail to be counter-clockwise. */
  method UpperHull(sorted: seq<Point>, ch0: seq<Point>, lower: nat) returns (ch: seq<Point>, k: nat)
    requires |sorted| >= 2 && |ch0| == 2 * |sorted| && 2 <= lower <= |sorted|
    requires forall j :: 0 <= j < lower ==> ch0[j] in sorted
    requires ChainBut(ch0, lower, -1)
    ensures |ch| == 2 * |sorted| && lower < k <= lower + |sorted| - 1
    ensures ch[..lower] == ch0[..lower] && ch[k - 1] == sorted[0]
    ensures forall j :: 0 <= j < k ==> ch[j] in sorted
    ensures ChainBut(ch, k, lower - 2)
  {
    var n := |sorted|;
    ch, k := ch0, lower;
    var t := k + 1;
    var i := n - 2;
    while i >= 0
      invariant -1 <= i <= n - 2 && |ch| == 2 * n
      invariant lower <= k <= lower + (n - 2 - i)
      invariant i < n - 2 ==> lower < k && ch[k - 1] == sorted[i + 1]
      invariant ch[..lower] == ch0[..lower]
      invariant forall j :: 0 <= j < k ==> ch[j] in sorted
      invariant ChainBut(ch, k, lower - 2)
    {
      while k >= t && !Ccw(ch[k - 2], ch[k - 1], sorted[i])
        invariant lower <= k <= lower + (n - 2 - i)
        invariant ChainBut(ch, k, lower - 2)
        decreases k
      {
        k := k - 1;
      }
      PushKeepsChain(ch, k, lower - 2, sorted[i]);
      ch := ch[k := sorted[i]];
      k := k + 1;
      i := i - 1;
    }
  }

  /** `monotoneChain`. Besides the hull h it returns `lower`, the number of entries the
      lower pass leaves (the source's `t - 1`). Inputs of at most three points come
      back unchanged (lines 103-104). Otherwise the hull starts at the first sorted
      point, holds the lower hull up to the last sorted point in its first `lower`
      entries, has at most 2n - 2 entries, holds only input points, and, closed up by
      its first point again, turns left at every corner except where the upper pass
      joins the lower hull. */
  method MonotoneChain(p: seq<Point>, sorted: seq<Point>) returns (h: seq<Point>, lower: nat)
    requires |p| > 3 ==> |sorted| == |p| && multiset(sorted) == multiset(p) && Ascending(sorted)
    ensures |p| <= 3 ==> h == p
    ensures |p| > 3 ==> 2 <= lower <= |h| <= 2 * |p| - 2
    ensures |p| > 3 ==> h[0] == sorted[0] && h[lower - 1] == sorted[|p| - 1]
    ensures |p| > 3 ==> forall x :: x in h ==> x in p
    ensures |p| > 3 ==> ChainBut(h + [h[0]], |h| + 1, lower - 2)
  {
    if |p| <= 3 {
      return p, 0;
    }
    assert forall x :: x in sorted ==> x in p by {
      forall x | x in sorted
        ensures x in p
      {
        assert x in multiset(sorted);
      }
    }
    var ch, k := LowerHull(sorted);
    lower := k;
    ch, k := UpperHull(sorted, ch, lower);
    h := ch[..k - 1];
    CloseUp(ch, k, lower - 2);
  }

  /** Dropping the last of k entries that end where they start leaves a chain that,
      closed up again, is the k entries. */
  lemma CloseUp(ch: seq<Point>, k: nat, skip: int)
    requires 2 <= k <= |ch| && ch[k - 1] == ch[0] && ChainBut(ch, k, skip)
    ensures ch[..k - 1] + [ch[..k - 1][0]] == ch[..k]
    ensures ChainBut(ch[..k - 1] + [ch[..k - 1][0]], k, skip)
  {
    assert ch[..k - 1] + [ch[..k - 1][0]] == ch[..k];
  }
}
