/** `grahamScan`, lines 67-99 of `AlgoritmosConvexHull/ConvexHulls.cpp`. The lowest
    point is swapped to the front, the other points are sorted around it, and a stack
    is built by pushing each point that makes a strict `ccw` turn with the top two
    entries and popping otherwise.

    The sort itself (`std::sort`, lines 79-85) is not modelled: the sorted tail is a
    parameter, required to be a permutation of the input's tail that the comparator
    leaves in order. The loop of lines 88-97 reads `CH[j-1]` with `j = |CH| - 1`;
    when a pop leaves a single entry that read is out of bounds. The written loop
    reports this as an error; the corrected loop pushes whenever fewer than two
    entries are on the stack. */
module Graham {
  import opened Wrappers
  import opened Geo
  import opened AnimGeo
  import opened Lowest

  /** The out-of-bounds read `CH[-1]` of line 91. */
  datatype Fault = StackUnderflow

  /** `swap(p[0], p[l])` (line 77). */
  function SwapFront(p: seq<Point>, l: nat): (r: seq<Point>)
    requires l < |p|
    ensures |r| == |p| && r[0] == p[l] && r[l] == p[0]
    ensures forall j :: 0 < j < |p| && j != l ==> r[j] == p[j]
    ensures multiset(r) == multiset(p)
  {
    p[0 := p[l]][l := p[0]]
  }

  /** The comparator of lines 79-85: a goes before b when o, a, b turns strictly
      counter-clockwise, or when neither order does and a is nearer to o. */
  predicate Before(o: Point, a: Point, b: Point) {
    Ccw(o, a, b) || (!Ccw(o, b, a) && SqDist(o, a) < SqDist(o, b))
  }

  /** No element of t goes strictly before an earlier one. */
  predicate SortedAround(o: Point, t: seq<Point>) {
    forall i, j :: 0 <= i < j < |t| ==> !Before(o, t[j], t[i])
  }

  /** Every three consecutive entries turn strictly counter-clockwise. */
  predicate Chain(ch: seq<Point>) {
    forall k :: 0 <= k < |ch| - 2 ==> Ccw(ch[k], ch[k + 1], ch[k + 2])
  }

  /** The loop of lines 88-97 from position i of the sorted points q with stack ch.
      `guarded` selects the corrected loop. */
  function Scan(q: seq<Point>, ch: seq<Point>, i: nat, guarded: bool): (r: Result<seq<Point>, Fault>)
    requires i <= |q| && |ch| >= 1
    decreases 2 * (|q| - i) + |ch|
  {
    if i == |q| then Ok(ch)
    else if |ch| < 2 then
      if guarded then Scan(q, ch + [q[i]], i + 1, guarded) else Err(StackUnderflow)
    else if Ccw(ch[|ch| - 2], ch[|ch| - 1], q[i]) then Scan(q, ch + [q[i]], i + 1, guarded)
    else Scan(q, ch[..|ch| - 1], i, guarded)
  }

  /** What the loop keeps: the stack turns left throughout, starts at q[0], holds only
      points of q, and, once a point has been pushed, ends at the last point. */
  lemma {:induction false} ScanKeepsChain(q: seq<Point>, ch: seq<Point>, i: nat, guarded: bool)
    requires i <= |q| && |ch| >= 1
    requires |q| >= 1 && Chain(ch) && ch[0] == q[0]
    requires forall x :: x in ch ==> x in q
    requires i == |q| ==> ch[|ch| - 1] == q[|q| - 1]
    requires Scan(q, ch, i, guarded).Ok?
    ensures Chain(Scan(q, ch, i, guarded).value)
    ensures |Scan(q, ch, i, guarded).value| >= 1 && Scan(q, ch, i, guarded).value[0] == q[0]
    ensures forall x :: x in Scan(q, ch, i, guarded).value ==> x in q
    ensures Scan(q, ch, i, guarded).value[|Scan(q, ch, i, guarded).value| - 1] == q[|q| - 1]
    decreases 2 * (|q| - i) + |ch|
  {
    if i < |q| {
      if |ch| < 2 || Ccw(ch[|ch| - 2], ch[|ch| - 1], q[i]) {
        var ch' := ch + [q[i]];
        forall k | 0 <= k < |ch'| - 2
          ensures Ccw(ch'[k], ch'[k + 1], ch'[k + 2])
        {
          if k < |ch| - 2 {
            assert ch'[k] == ch[k] && ch'[k + 1] == ch[k + 1] && ch'[k + 2] == ch[k + 2];
          }
        }
        ScanKeepsChain(q, ch', i + 1, guarded);
      } else {
        var ch' := ch[..|ch| - 1];
        assert forall k :: 0 <= k < |ch'| ==> ch'[k] == ch[k];
        ScanKeepsChain(q, ch', i, guarded);
      }
    }
  }

  /** The corrected loop always completes. */
  lemma {:induction false} GuardedScanCompletes(q: seq<Point>, ch: seq<Point>, i: nat)
    requires i <= |q| && |ch| >= 1
    ensures Scan(q, ch, i, true).Ok?
    decreases 2 * (|q| - i) + |ch|
  {
    if i < |q| {
      if |ch| < 2 || Ccw(ch[|ch| - 2], ch[|ch| - 1], q[i]) {
        GuardedScanCompletes(q, ch + [q[i]], i + 1);
      } else {
        GuardedScanCompletes(q, ch[..|ch| - 1], i);
      }
    }
  }

  /** The written loop fails only by popping down to a single entry: while the stack
      keeps two entries the two loops agree. */
  lemma {:induction false} WrittenScanAgrees(q: seq<Point>, ch: seq<Point>, i: nat)
    requires i <= |q| && |ch| >= 1
    ensures Scan(q, ch, i, false).Ok? ==> Scan(q, ch, i, false) == Scan(q, ch, i, true)
    decreases 2 * (|q| - i) + |ch|
  {
    if i < |q| && |ch| >= 2 {
      if Ccw(ch[|ch| - 2], ch[|ch| - 1], q[i]) {
        WrittenScanAgrees(q, ch + [q[i]], i + 1);
      } else {
        WrittenScanAgrees(q, ch[..|ch| - 1], i);
      }
    }
  }

  /** What the caller of the scan supplies: a permutation of the tail of the swapped
      input, in the comparator's order. */
  predicate SortsTail(p: seq<Point>, tail: seq<Point>)
    requires |p| >= 1
  {
    var s := SwapFront(p, LowestIndex(p));
    multiset(tail) == multiset(s[1..]) && SortedAround(s[0], tail)
  }

  /** `grahamScan`: inputs of at most three points come back unchanged (lines 69-70);
      otherwise the stack left by the loop over the lowest point and the sorted tail. */
  function GrahamScan(p: seq<Point>, tail: seq<Point>, guarded: bool): (r: Result<seq<Point>, Fault>)
    requires |p| > 3 ==> SortsTail(p, tail)
    ensures |p| <= 3 ==> r == Ok(p)
  {
    if |p| <= 3 then Ok(p)
    else
      var q := [p[LowestIndex(p)]] + tail;
      Scan(q, [q[0], q[1]], 2, guarded)
  }

  /** The hull starts at the lowest point, ends at the last sorted point, turns left
      throughout and holds only input points; the corrected scan always succeeds. */
  lemma GrahamScanHull(p: seq<Point>, tail: seq<Point>, guarded: bool)
    requires |p| > 3 && SortsTail(p, tail)
    ensures GrahamScan(p, tail, true).Ok?
    ensures GrahamScan(p, tail, guarded).Ok? ==>
      var h := GrahamScan(p, tail, guarded).value;
      && |h| >= 1 && h[0] == p[LowestIndex(p)] && h[|h| - 1] == tail[|tail| - 1]
      && Chain(h) && (forall x :: x in h ==> x in p)
  {
    var l := LowestIndex(p);
    var s := SwapFront(p, l);
    var q := [p[l]] + tail;
    assert |tail| == |p| - 1 by {
      assert |multiset(tail)| == |multiset(s[1..])|;
    }
    assert multiset(q) == multiset(p) by {
      assert s == [s[0]] + s[1..];
      assert multiset(s) == multiset{s[0]} + multiset(s[1..]);
    }
    assert forall x :: x in q ==> x in p by {
      forall x | x in q
        ensures x in p
      {
        assert x in multiset(q);
      }
    }
    GuardedScanCompletes(q, [q[0], q[1]], 2);
    if GrahamScan(p, tail, guarded).Ok? {
      ScanKeepsChain(q, [q[0], q[1]], 2, guarded);
    }
  }

  // ---------------------------------------------------------------------------
  // Three collinear points at the start
  // ---------------------------------------------------------------------------

  /** (0,0), (u,0), (2u,0), (u,u): the first three points lie on one line. */
  function Line(u: real): seq<Point> {
    [Point(0.0, 0.0), Point(u, 0.0), Point(2.0 * u, 0.0), Point(u, u)]
  }

  lemma LineLowest(u: real)
    requires u > 0.0
    ensures LowestIndex(Line(u)) == 0
  {
    var p := Line(u);
    assert !Less(p[1], p[0]) && !Less(p[2], p[0]) && !Less(p[3], p[0]);
    assert LowestFrom(p, 3, 0) == 0;
    assert LowestFrom(p, 2, 0) == 0;
  }

  /** The signed areas of the turns the comparator and the loop test. */
  lemma LineAreas(u: real)
    requires u > 0.0
    ensures Area(Line(u)[0], Line(u)[1], Line(u)[2]) == 0.0
    ensures Area(Line(u)[0], Line(u)[2], Line(u)[1]) == 0.0
    ensures Area(Line(u)[0], Line(u)[1], Line(u)[3]) > 0.0
    ensures Area(Line(u)[0], Line(u)[2], Line(u)[3]) > 0.0
    ensures Area(Line(u)[0], Line(u)[3], Line(u)[1]) < 0.0
    ensures Area(Line(u)[0], Line(u)[3], Line(u)[2]) < 0.0
  {
    var p := Line(u);
    assert u * u > 0.0;
    assert Area(p[0], p[1], p[3]) == u * u;
    assert Area(p[0], p[2], p[3]) == 2.0 * (u * u);
    assert Area(p[0], p[3], p[1]) == -(u * u);
    assert Area(p[0], p[3], p[2]) == -2.0 * (u * u);
  }

  /** The tail (u,0), (2u,0), (u,u) is in the comparator's order around (0,0). */
  lemma LineOrder(u: real)
    requires u > 0.0
    ensures SortedAround(Line(u)[0], Line(u)[1..])
  {
    var p := Line(u);
    var o, t := p[0], p[1..];
    LineAreas(u);
    assert SqDist(o, p[2]) == 4.0 * (u * u) && SqDist(o, p[1]) == u * u;
    assert !Before(o, t[1], t[0]);
    assert !Before(o, t[2], t[0]);
    assert !Before(o, t[2], t[1]);
  }

  /** The input is already in the comparator's order around its lowest point. */
  lemma LineSorted(u: real)
    requires u > 0.0
    ensures SortsTail(Line(u), Line(u)[1..])
  {
    var p := Line(u);
    LineLowest(u);
    assert SwapFront(p, 0) == p;
    LineOrder(u);
  }

  lemma LineWrittenScan(u: real)
    requires u > 0.0
    ensures Scan(Line(u), [Line(u)[0], Line(u)[1]], 2, false) == Err(StackUnderflow)
  {
    var p := Line(u);
    LineAreas(u);
    var c := [p[0], p[1]];
    assert c[..1] == [p[0]] && !Ccw(c[0], c[1], p[2]);
    assert Scan(p, [p[0]], 2, false) == Err(StackUnderflow);
  }

  lemma LineGuardedScan(u: real)
    requires u > 0.0
    ensures Scan(Line(u), [Line(u)[0], Line(u)[1]], 2, true) == Ok([Line(u)[0], Line(u)[2], Line(u)[3]])
  {
    var p := Line(u);
    LineAreas(u);
    var a, b := [p[0]], [p[0], p[2]];
    assert a + [p[2]] == b && b + [p[3]] == [p[0], p[2], p[3]];
    assert Ccw(b[0], b[1], p[3]);
    assert Scan(p, b, 3, true) == Ok([p[0], p[2], p[3]]);
    assert Scan(p, a, 2, true) == Ok([p[0], p[2], p[3]]);
    var c := [p[0], p[1]];
    assert c[..1] == a && !Ccw(c[0], c[1], p[2]);
  }

  /** The first test finds (0,0), (u,0), (2u,0) not strictly counter-clockwise and
      pops down to one entry: the written loop then reads below the stack, while the
      corrected loop returns the hull (0,0), (2u,0), (u,u). */
  lemma LineUnderflows(u: real)
    requires u > 0.0
    ensures SortsTail(Line(u), Line(u)[1..])
    ensures GrahamScan(Line(u), Line(u)[1..], false) == Err(StackUnderflow)
    ensures GrahamScan(Line(u), Line(u)[1..], true) == Ok([Point(0.0, 0.0), Point(2.0 * u, 0.0), Point(u, u)])
  {
    var p := Line(u);
    LineSorted(u);
    LineLowest(u);
    assert [p[0]] + p[1..] == p;
    LineWrittenScan(u);
    LineGuardedScan(u);
  }
}
