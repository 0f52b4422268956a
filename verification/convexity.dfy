/** `isConvex` of `AlgoritmosConvexHull/ConvexHulls.cpp`: walk the polygon's corners
    and check that every turn that is not collinear turns the same way. The turn at
    corner i is the triple p[i], p[i + 1], p[i + 2], indices taken round the polygon;
    `orientation` decides whether it bends and `ccw` which way. */
module Convexity {
  import opened Geo
  import opened AnimGeo

  /** The corner k places after corner i, round the polygon. */
  function Ahead(p: seq<Point>, i: int, k: nat): Point
    requires 0 <= i < |p|
  {
    p[(i + k) % |p|]
  }

  /** The turn at i is not collinear for `orientation`. */
  predicate Bent(p: seq<Point>, i: int)
    requires 0 <= i < |p|
  {
    Orient(p[i], Ahead(p, i, 1), Ahead(p, i, 2)) != Collinear
  }

  /** The turn at i is counter-clockwise for `ccw`. */
  predicate LeftAt(p: seq<Point>, i: int)
    requires 0 <= i < |p|
  {
    Ccw(p[i], Ahead(p, i, 1), Ahead(p, i, 2))
  }

  /** The direction the source gives a turn: `ccw(...) > 0 ? 1 : -1`. */
  function Sign(p: seq<Point>, i: int): int
    requires 0 <= i < |p|
  {
    if LeftAt(p, i) then 1 else -1
  }

  /** Every bent turn from index lo on has direction d. */
  predicate AllTurnFrom(p: seq<Point>, lo: int, d: int) {
    forall j :: lo <= j < |p| && 0 <= j && Bent(p, j) ==> Sign(p, j) == d
  }

  /** The meaning of convexity the function is after: a triangle, or four or more
      corners whose bent turns all go the same way. */
  predicate Convex(p: seq<Point>) {
    |p| == 3 || (|p| > 3 && (AllTurnFrom(p, 0, 1) || AllTurnFrom(p, 0, -1)))
  }

  // ---------------------------------------------------------------------------
  // As written
  // ---------------------------------------------------------------------------

  /** The loop of lines 25-31 from corner i with remembered direction `dir` (0 before
      the first bent turn). Line 29 stores the boolean `ccw(...)`, so after a
      clockwise turn `dir` becomes 0 and the next bent turn is taken as a first one. */
  function ScanAsWritten(p: seq<Point>, i: nat, dir: int): bool
    requires i <= |p|
    decreases |p| - i
  {
    if i == |p| then true
    else if !Bent(p, i) then ScanAsWritten(p, i + 1, dir)
    else if dir == 0 then ScanAsWritten(p, i + 1, Sign(p, i))
    else if Sign(p, i) != dir then false
    else ScanAsWritten(p, i + 1, if LeftAt(p, i) then 1 else 0)
  }

  /** `isConvex` as written. */
  function IsConvexAsWritten(p: seq<Point>): bool {
    if |p| < 3 then false
    else if |p| == 3 then true
    else ScanAsWritten(p, 0, 0)
  }

  // ---------------------------------------------------------------------------
  // Corrected
  // ---------------------------------------------------------------------------

  /** The loop with line 29 keeping the direction it has just confirmed. */
  function Scan(p: seq<Point>, i: nat, dir: int): bool
    requires i <= |p|
    decreases |p| - i
  {
    if i == |p| then true
    else if !Bent(p, i) then Scan(p, i + 1, dir)
    else if dir == 0 then Scan(p, i + 1, Sign(p, i))
    else if Sign(p, i) != dir then false
    else Scan(p, i + 1, dir)
  }

  function IsConvex(p: seq<Point>): bool {
    if |p| < 3 then false
    else if |p| == 3 then true
    else Scan(p, 0, 0)
  }

  /** What the corrected loop has seen before corner i: no bent turn when `dir` is 0,
      otherwise at least one, all in direction `dir`. */
  predicate Seen(p: seq<Point>, i: int, dir: int)
    requires 0 <= i <= |p|
  {
    && (dir == 0 || dir == 1 || dir == -1)
    && (dir == 0 ==> forall j :: 0 <= j < i ==> !Bent(p, j))
    && (dir != 0 ==> (forall j :: 0 <= j < i && Bent(p, j) ==> Sign(p, j) == dir)
                     && exists j :: 0 <= j < i && Bent(p, j))
  }

  lemma {:induction false} ScanMeansSameTurn(p: seq<Point>, i: nat, dir: int)
    requires i <= |p| && Seen(p, i, dir)
    ensures Scan(p, i, dir) <==> AllTurnFrom(p, 0, 1) || AllTurnFrom(p, 0, -1)
    decreases |p| - i
  {
    if i < |p| {
      if !Bent(p, i) {
        ScanMeansSameTurn(p, i + 1, dir);
      } else if dir == 0 {
        ScanMeansSameTurn(p, i + 1, Sign(p, i));
      } else if Sign(p, i) != dir {
        var j :| 0 <= j < i && Bent(p, j);
        assert !AllTurnFrom(p, 0, dir);
        assert !AllTurnFrom(p, 0, Sign(p, i));
      } else {
        ScanMeansSameTurn(p, i + 1, dir);
      }
    }
  }

  /** The corrected `isConvex` holds exactly for the convex polygons. */
  lemma IsConvexCorrect(p: seq<Point>)
    ensures IsConvex(p) <==> Convex(p)
  {
    if |p| > 3 {
      ScanMeansSameTurn(p, 0, 0);
    }
  }

  // ---------------------------------------------------------------------------
  // What the written loop still gets right, and what it misses
  // ---------------------------------------------------------------------------

  /** With a counter-clockwise direction remembered, the written loop does what it
      should: it goes on holding 1 and rejects the first clockwise turn. */
  lemma {:induction false} AsWrittenAfterLeft(p: seq<Point>, i: nat)
    requires i <= |p|
    ensures ScanAsWritten(p, i, 1) <==> AllTurnFrom(p, i, 1)
    decreases |p| - i
  {
    if i < |p| {
      AsWrittenAfterLeft(p, i + 1);
    }
  }

  /** The written loop starts with `dir` 0 and keeps it until the first bent turn. */
  lemma {:induction false} AsWrittenSkipsStraight(p: seq<Point>, i: nat, f: nat)
    requires i <= f <= |p|
    requires forall j :: i <= j < f ==> !Bent(p, j)
    ensures ScanAsWritten(p, i, 0) == ScanAsWritten(p, f, 0)
    decreases f - i
  {
    if i < f {
      AsWrittenSkipsStraight(p, i + 1, f);
    }
  }

  /** When the first bent turn of a polygon with four or more corners is
      counter-clockwise, `isConvex` as written returns true exactly when every bent
      turn is counter-clockwise. */
  lemma AsWrittenFirstLeft(p: seq<Point>, f: nat)
    requires |p| > 3 && f < |p|
    requires forall j :: 0 <= j < f ==> !Bent(p, j)
    requires Bent(p, f) && Sign(p, f) == 1
    ensures IsConvexAsWritten(p) <==> AllTurnFrom(p, 0, 1)
  {
    AsWrittenSkipsStraight(p, 0, f);
    AsWrittenAfterLeft(p, f + 1);
  }

  /** From a state with `dir` 0 or d, the written loop accepts a tail whose bent turns
      all go in direction d. */
  lemma {:induction false} AsWrittenAcceptsSameTurn(p: seq<Point>, i: nat, dir: int, d: int)
    requires i <= |p|
    requires (d == 1 || d == -1) && (dir == 0 || dir == d)
    requires AllTurnFrom(p, i, d)
    ensures ScanAsWritten(p, i, dir)
    decreases |p| - i
  {
    if i < |p| {
      if !Bent(p, i) {
        AsWrittenAcceptsSameTurn(p, i + 1, dir, d);
      } else if dir == 0 {
        AsWrittenAcceptsSameTurn(p, i + 1, Sign(p, i), d);
      } else {
        AsWrittenAcceptsSameTurn(p, i + 1, if LeftAt(p, i) then 1 else 0, d);
      }
    }
  }

  /** The written `isConvex` accepts every convex polygon: its only error is to
      accept too much. */
  lemma AsWrittenAcceptsConvex(p: seq<Point>)
    requires Convex(p)
    ensures IsConvexAsWritten(p)
  {
    if |p| > 3 {
      if AllTurnFrom(p, 0, 1) {
        AsWrittenAcceptsSameTurn(p, 0, 0, 1);
      } else {
        AsWrittenAcceptsSameTurn(p, 0, 0, -1);
      }
    }
  }

  /** A bow tie of side u: (0,0), (u,u), (u,0), (0,u). */
  function Bowtie(u: real): seq<Point> {
    [Point(0.0, 0.0), Point(u, u), Point(u, 0.0), Point(0.0, u)]
  }

  /** A turn whose area is at least `Eps` away from zero is bent, and its direction
      is the sign of the area. */
  lemma BentByArea(p: seq<Point>, i: nat, v: real)
    requires i < |p|
    requires Turn(p[i], Ahead(p, i, 1), Ahead(p, i, 2)) == v
    requires v >= Eps || v <= -Eps
    ensures Bent(p, i) && Sign(p, i) == (if v > 0.0 then 1 else -1)
  {
    AreaIsTurn(p[i], Ahead(p, i, 1), Ahead(p, i, 2));
  }

  /** The bow tie turns clockwise at its first two corners ... */
  lemma BowtieCorner0(u: real)
    requires u >= 1.0
    ensures Bent(Bowtie(u), 0) && Sign(Bowtie(u), 0) == -1
  {
    var p, v := Bowtie(u), -(u * u);
    assert v <= -Eps by {
      assert u * u >= u;
    }
    assert Turn(p[0], Ahead(p, 0, 1), Ahead(p, 0, 2)) == v by {
      assert Ahead(p, 0, 1) == p[1] && Ahead(p, 0, 2) == p[2];
      TurnCoordinates(p[0], p[1], p[2]);
    }
    BentByArea(p, 0, v);
  }

  lemma BowtieCorner1(u: real)
    requires u >= 1.0
    ensures Bent(Bowtie(u), 1) && Sign(Bowtie(u), 1) == -1
  {
    var p, v := Bowtie(u), -(u * u);
    assert v <= -Eps by {
      assert u * u >= u;
    }
    assert Turn(p[1], Ahead(p, 1, 1), Ahead(p, 1, 2)) == v by {
      assert Ahead(p, 1, 1) == p[2] && Ahead(p, 1, 2) == p[3];
      TurnCoordinates(p[1], p[2], p[3]);
    }
    BentByArea(p, 1, v);
  }

  /** ... and counter-clockwise at its last two. */
  lemma BowtieCorner2(u: real)
    requires u >= 1.0
    ensures Bent(Bowtie(u), 2) && Sign(Bowtie(u), 2) == 1
  {
    var p, v := Bowtie(u), u * u;
    assert v >= Eps by {
      assert u * u >= u;
    }
    assert Turn(p[2], Ahead(p, 2, 1), Ahead(p, 2, 2)) == v by {
      assert Ahead(p, 2, 1) == p[3] && Ahead(p, 2, 2) == p[0];
      TurnCoordinates(p[2], p[3], p[0]);
    }
    BentByArea(p, 2, v);
  }

  lemma BowtieCorner3(u: real)
    requires u >= 1.0
    ensures Bent(Bowtie(u), 3) && Sign(Bowtie(u), 3) == 1
  {
    var p, v := Bowtie(u), u * u;
    assert v >= Eps by {
      assert u * u >= u;
    }
    assert Turn(p[3], Ahead(p, 3, 1), Ahead(p, 3, 2)) == v by {
      assert Ahead(p, 3, 1) == p[0] && Ahead(p, 3, 2) == p[1];
      TurnCoordinates(p[3], p[0], p[1]);
    }
    BentByArea(p, 3, v);
  }

  /** The bow tie of side u >= 1 (u = 1 gives (0,0), (1,1), (1,0), (0,1)) crosses itself. After its two clockwise
      turns the written loop holds `dir` 0 again, takes the next turn as the first,
      and reports the bow tie convex; the corrected loop rejects it. */
  lemma BowtieAcceptedAsWritten(u: real)
    requires u >= 1.0
    ensures IsConvexAsWritten(Bowtie(u)) && !IsConvex(Bowtie(u)) && !Convex(Bowtie(u))
  {
    var p := Bowtie(u);
    BowtieCorner0(u);
    BowtieCorner1(u);
    BowtieCorner2(u);
    BowtieCorner3(u);
    assert ScanAsWritten(p, 3, 1);
    assert ScanAsWritten(p, 2, 0);
    assert ScanAsWritten(p, 1, -1);
    assert !Scan(p, 1, -1);
    IsConvexCorrect(p);
  }
}
