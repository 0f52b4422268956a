/** Two inputs on which the written `jarvisMarch` goes wrong. Both use the four
    corners of one quadrilateral of size u >= 1, counter-clockwise in the order
    Q0 (0,0), Q1 (u,-u), Q2 (10u,u), Q3 (0,5u), so every corner is a hull point.

    - In `Quad` order the lowest point is Q0. The written test of line 56 lets the far
      corner Q2, to the right of Q0 -> Q1, replace Q1; from there the march moves
      between Q2 and Q3 forever.
    - In `Kite` order Q1 comes first. With line 56 read as intended, the scan of
      line 49 still starts at index 1 and never looks at Q1 from Q0: the march
      returns Q0, Q2, Q3.

    The corrected march returns all four corners, in hull order, on both inputs. */
module JarvisFindings {
  import opened Wrappers
  import opened Geo
  import opened Lowest
  import opened Walk
  import opened Jarvis

  function Q0(u: real): Point { Point(0.0, 0.0) }
  function Q1(u: real): Point { Point(u, 0.0 - u) }
  function Q2(u: real): Point { Point(10.0 * u, u) }
  function Q3(u: real): Point { Point(0.0, 5.0 * u) }

  function Quad(u: real): seq<Point> {
    [Q0(u), Q1(u), Q2(u), Q3(u)]
  }

  function Kite(u: real): seq<Point> {
    [Q1(u), Q0(u), Q2(u), Q3(u)]
  }

  /** The scan of line 49 with the test of line 56 as intended. */
  const FromOne := Variant(1, true)

  // ---------------------------------------------------------------------------
  // Orientations and distances of the corners
  // ---------------------------------------------------------------------------

  /** A left turn read in any order: rotations turn left, swaps turn right. */
  lemma LeftAround(a: Point, b: Point, c: Point)
    requires Orient(a, b, c) == Left
    ensures Orient(b, c, a) == Left && Orient(c, a, b) == Left
    ensures Orient(a, c, b) == Right && Orient(b, a, c) == Right && Orient(c, b, a) == Right
  {
    TurnCyclic(a, b, c);
    TurnCyclic(b, c, a);
    OrientSwapLast(a, b, c);
    OrientSwapLast(b, c, a);
    OrientSwapLast(c, a, b);
  }

  /** A turn whose area is a positive multiple of u * u turns left. */
  lemma LeftByArea(a: Point, b: Point, c: Point, u: real, n: real)
    requires u >= 1.0 && n >= 1.0
    requires (a.x - c.x) * (b.y - c.y) - (b.x - c.x) * (a.y - c.y) == n * (u * u)
    ensures Orient(a, b, c) == Left
  {
    TurnCoordinates(a, b, c);
    assert u * u >= 1.0 by {
      assert u * u >= u;
    }
    assert n * (u * u) >= u * u;
  }

  lemma Turn012(u: real)
    requires u >= 1.0
    ensures Orient(Q0(u), Q1(u), Q2(u)) == Left
  {
    LeftByArea(Q0(u), Q1(u), Q2(u), u, 11.0);
  }

  lemma Turn013(u: real)
    requires u >= 1.0
    ensures Orient(Q0(u), Q1(u), Q3(u)) == Left
  {
    LeftByArea(Q0(u), Q1(u), Q3(u), u, 5.0);
  }

  lemma Turn023(u: real)
    requires u >= 1.0
    ensures Orient(Q0(u), Q2(u), Q3(u)) == Left
  {
    LeftByArea(Q0(u), Q2(u), Q3(u), u, 50.0);
  }

  lemma Turn123(u: real)
    requires u >= 1.0
    ensures Orient(Q1(u), Q2(u), Q3(u)) == Left
  {
    LeftByArea(Q1(u), Q2(u), Q3(u), u, 56.0);
  }

  /** Every triple of corners taken in hull order turns left; against it, right. */
  lemma Turns(u: real)
    requires u >= 1.0
    ensures Orient(Q0(u), Q1(u), Q2(u)) == Left && Orient(Q0(u), Q1(u), Q3(u)) == Left
    ensures Orient(Q1(u), Q2(u), Q3(u)) == Left && Orient(Q1(u), Q2(u), Q0(u)) == Left
    ensures Orient(Q2(u), Q3(u), Q0(u)) == Left && Orient(Q2(u), Q3(u), Q1(u)) == Left
    ensures Orient(Q3(u), Q0(u), Q1(u)) == Left && Orient(Q3(u), Q0(u), Q2(u)) == Left
    ensures Orient(Q0(u), Q2(u), Q1(u)) == Right && Orient(Q0(u), Q3(u), Q2(u)) == Right
    ensures Orient(Q2(u), Q1(u), Q3(u)) == Right && Orient(Q2(u), Q0(u), Q3(u)) == Right
    ensures Orient(Q3(u), Q1(u), Q0(u)) == Right && Orient(Q3(u), Q2(u), Q1(u)) == Right
    ensures Orient(Q3(u), Q2(u), Q0(u)) == Right
  {
    Turn012(u);
    Turn013(u);
    Turn023(u);
    Turn123(u);
    LeftAround(Q0(u), Q1(u), Q2(u));
    LeftAround(Q0(u), Q1(u), Q3(u));
    LeftAround(Q0(u), Q2(u), Q3(u));
    LeftAround(Q1(u), Q2(u), Q3(u));
  }

  /** The squared distances the written scans compare, in units of u * u. */
  lemma Distances(u: real)
    requires u >= 1.0
    ensures SqDist(Q0(u), Q2(u)) > SqDist(Q0(u), Q1(u))
    ensures SqDist(Q0(u), Q3(u)) <= SqDist(Q0(u), Q2(u))
    ensures SqDist(Q2(u), Q1(u)) <= SqDist(Q2(u), Q3(u))
    ensures SqDist(Q3(u), Q1(u)) > SqDist(Q3(u), Q0(u))
    ensures SqDist(Q3(u), Q2(u)) > SqDist(Q3(u), Q1(u))
  {
    var w := u * u;
    assert w >= 1.0 by {
      assert u * u >= u;
    }
    assert SqDist(Q0(u), Q1(u)) == 2.0 * w;
    assert SqDist(Q0(u), Q2(u)) == 101.0 * w;
    assert SqDist(Q0(u), Q3(u)) == 25.0 * w;
    assert SqDist(Q2(u), Q1(u)) == 85.0 * w;
    assert SqDist(Q2(u), Q3(u)) == 116.0 * w;
    assert SqDist(Q3(u), Q0(u)) == 25.0 * w;
    assert SqDist(Q3(u), Q1(u)) == 37.0 * w;
    assert SqDist(Q3(u), Q2(u)) == 116.0 * w;
  }

  /** Two equal points never replace one another. */
  lemma NoSelfReplace(v: Variant, a: Point, b: Point)
    ensures !Replaces(v, a, b, b)
  {
    OrientRepeated(a, b);
  }

  // ---------------------------------------------------------------------------
  // The written march on Quad
  // ---------------------------------------------------------------------------

  lemma QuadLowest(u: real)
    requires u >= 1.0
    ensures LowestIndex(Quad(u)) == 0
  {
    var p := Quad(u);
    assert !Less(p[1], p[0]) && !Less(p[2], p[0]) && !Less(p[3], p[0]);
    assert LowestFrom(p, 3, 0) == 0;
    assert LowestFrom(p, 2, 0) == 0;
  }

  lemma WrittenFrom0(u: real)
    requires u >= 1.0
    ensures Next(Quad(u), AsWritten, 0) == 2
  {
    var p := Quad(u);
    Turn012(u);
    LeftAround(Q0(u), Q1(u), Q2(u));
    Turn023(u);
    LeftAround(Q0(u), Q2(u), Q3(u));
    Distances(u);
    NoSelfReplace(AsWritten, p[0], p[1]);
    assert Replaces(AsWritten, p[0], p[2], p[1]);
    assert !Replaces(AsWritten, p[0], p[3], p[2]);
    assert Step(p, AsWritten, 0, 4, 2) == 2;
    assert Step(p, AsWritten, 0, 3, 2) == 2;
    assert Step(p, AsWritten, 0, 2, 1) == 2;
  }

  lemma WrittenFrom2(u: real)
    requires u >= 1.0
    ensures Next(Quad(u), AsWritten, 2) == 3
  {
    var p := Quad(u);
    Turns(u);
    Distances(u);
    assert !Replaces(AsWritten, p[2], p[1], p[3]);
    NoSelfReplace(AsWritten, p[2], p[3]);
    assert Step(p, AsWritten, 2, 3, 3) == 3;
  }

  lemma WrittenFrom3(u: real)
    requires u >= 1.0
    ensures Next(Quad(u), AsWritten, 3) == 2
  {
    var p := Quad(u);
    Turns(u);
    Distances(u);
    assert Replaces(AsWritten, p[3], p[1], p[0]);
    assert Replaces(AsWritten, p[3], p[2], p[1]);
    assert Step(p, AsWritten, 3, 2, 1) == 2;
  }

  /** A walk caught between 2 and 3 never reaches 0. */
  lemma {:induction false} Trapped(succ: map<int, int>, fuel: nat)
    requires 2 in succ && 3 in succ && succ[2] == 3 && succ[3] == 2
    ensures Walk.Walk(succ, 2, 0, fuel) == None && Walk.Walk(succ, 3, 0, fuel) == None
    decreases fuel
  {
    if fuel > 0 {
      Trapped(succ, fuel - 1);
    }
  }

  /** The written `jarvisMarch` never returns on Quad, whatever fuel it gets. */
  lemma WrittenMarchNeverEnds(u: real, fuel: nat)
    requires u >= 1.0
    ensures JarvisMarch(Quad(u), AsWritten, fuel) == None
  {
    var p := Quad(u);
    var succ := Rounds(p, AsWritten);
    QuadLowest(u);
    WrittenFrom0(u);
    WrittenFrom2(u);
    WrittenFrom3(u);
    if fuel > 0 {
      Trapped(succ, fuel - 1);
    }
  }

  // ---------------------------------------------------------------------------
  // The corrected march on Quad
  // ---------------------------------------------------------------------------

  /** From each corner the corrected round moves to the next corner in hull order. */
  lemma CorrectedRoundsOnQuad(u: real)
    requires u >= 1.0
    ensures Next(Quad(u), Corrected, 0) == 1 && Next(Quad(u), Corrected, 1) == 2
    ensures Next(Quad(u), Corrected, 2) == 3 && Next(Quad(u), Corrected, 3) == 0
  {
    var p := Quad(u);
    Turns(u);
    NextMostClockwise(p, 0, 1);
    NextMostClockwise(p, 1, 2);
    NextMostClockwise(p, 2, 3);
    NextMostClockwise(p, 3, 0);
  }

  /** The corrected march returns the four corners of Quad in hull order. */
  lemma CorrectedMarchOnQuad(u: real, fuel: nat)
    requires u >= 1.0 && fuel >= 4
    ensures JarvisMarch(Quad(u), Corrected, fuel) == Some(Quad(u))
  {
    var p := Quad(u);
    var c := [0, 1, 2, 3];
    QuadLowest(u);
    CorrectedRoundsOnQuad(u);
    assert IsCycle(Rounds(p, Corrected), c);
    MarchComplete(p, Corrected, c, fuel);
    assert seq(4, j requires 0 <= j < 4 => p[c[j]]) == p;
  }

  // ---------------------------------------------------------------------------
  // The scan from index 1 on Kite
  // ---------------------------------------------------------------------------

  lemma KiteLowest(u: real)
    requires u >= 1.0
    ensures LowestIndex(Kite(u)) == 1
  {
    var p := Kite(u);
    assert Less(p[1], p[0]) && !Less(p[2], p[1]) && !Less(p[3], p[1]);
    assert LowestFrom(p, 3, 1) == 1;
    assert LowestFrom(p, 2, 1) == 1;
  }

  lemma FromOneFrom1(u: real)
    requires u >= 1.0
    ensures Next(Kite(u), FromOne, 1) == 2
  {
    var p := Kite(u);
    Turn023(u);
    LeftAround(Q0(u), Q2(u), Q3(u));
    NoSelfReplace(FromOne, p[1], p[2]);
    assert !Replaces(FromOne, p[1], p[3], p[2]);
    assert Step(p, FromOne, 1, 4, 2) == 2;
    assert Step(p, FromOne, 1, 3, 2) == 2;
    assert Step(p, FromOne, 1, 2, 2) == 2;
    assert Step(p, FromOne, 1, 1, 2) == 2;
  }

  lemma FromOneFrom2(u: real)
    requires u >= 1.0
    ensures Next(Kite(u), FromOne, 2) == 3
  {
    var p := Kite(u);
    Turn023(u);
    LeftAround(Q0(u), Q2(u), Q3(u));
    assert !Replaces(FromOne, p[2], p[1], p[3]);
    NoSelfReplace(FromOne, p[2], p[3]);
    assert Step(p, FromOne, 2, 4, 3) == 3;
    assert Step(p, FromOne, 2, 2, 3) == 3;
  }

  lemma FromOneFrom3(u: real)
    requires u >= 1.0
    ensures Next(Kite(u), FromOne, 3) == 1
  {
    var p := Kite(u);
    Turn013(u);
    LeftAround(Q0(u), Q1(u), Q3(u));
    Turn023(u);
    LeftAround(Q0(u), Q2(u), Q3(u));
    assert Replaces(FromOne, p[3], p[1], p[0]);
    assert !Replaces(FromOne, p[3], p[2], p[1]);
    assert Step(p, FromOne, 3, 4, 1) == 1;
    assert Step(p, FromOne, 3, 2, 1) == 1;
  }

  /** Scanning from index 1, the march on Kite leaves out its first point Q1, a corner
      of the hull. */
  lemma FromOneSkipsFirst(u: real, fuel: nat)
    requires u >= 1.0 && fuel >= 3
    ensures JarvisMarch(Kite(u), FromOne, fuel) == Some([Q0(u), Q2(u), Q3(u)])
  {
    var p := Kite(u);
    var c := [1, 2, 3];
    KiteLowest(u);
    FromOneFrom1(u);
    FromOneFrom2(u);
    FromOneFrom3(u);
    assert IsCycle(Rounds(p, FromOne), c);
    MarchComplete(p, FromOne, c, fuel);
    assert seq(3, j requires 0 <= j < 3 => p[c[j]]) == [Q0(u), Q2(u), Q3(u)];
  }

  lemma CorrectedRoundsOnKite(u: real)
    requires u >= 1.0
    ensures Next(Kite(u), Corrected, 1) == 0 && Next(Kite(u), Corrected, 0) == 2
    ensures Next(Kite(u), Corrected, 2) == 3 && Next(Kite(u), Corrected, 3) == 1
  {
    var p := Kite(u);
    Turns(u);
    NextMostClockwise(p, 1, 0);
    NextMostClockwise(p, 0, 2);
    NextMostClockwise(p, 2, 3);
    NextMostClockwise(p, 3, 1);
  }

  /** The corrected march returns all four corners of Kite in hull order. */
  lemma CorrectedMarchOnKite(u: real, fuel: nat)
    requires u >= 1.0 && fuel >= 4
    ensures JarvisMarch(Kite(u), Corrected, fuel) == Some([Q0(u), Q1(u), Q2(u), Q3(u)])
  {
    var p := Kite(u);
    var c := [1, 0, 2, 3];
    KiteLowest(u);
    CorrectedRoundsOnKite(u);
    assert IsCycle(Rounds(p, Corrected), c);
    MarchComplete(p, Corrected, c, fuel);
    assert seq(4, j requires 0 <= j < 4 => p[c[j]]) == [Q0(u), Q1(u), Q2(u), Q3(u)];
  }
}
