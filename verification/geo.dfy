/** The basic planar predicates of `geo.hpp`, with `double` coordinates read as exact
    reals and the tolerance `EPS` kept as the positive constant `Eps`. */
module Geo {

  /** A point of the plane. */
  datatype Point = Point(x: real, y: real)

  /** The tolerance `EPS = 1e-9` used by every approximate comparison. */
  const Eps: real := 0.000000001

  function Abs(v: real): (r: real)
    ensures r >= 0.0
    ensures r == v || r == -v
  {
    if v < 0.0 then -v else v
  }

  function Max(a: real, b: real): real { if a < b then b else a }

  function Min(a: real, b: real): real { if a < b then a else b }

  function Sub(p: Point, q: Point): Point {
    Point(p.x - q.x, p.y - q.y)
  }

  /** The z-component of the cross product of two vectors. */
  function Cross(p: Point, q: Point): real {
    p.x * q.y - q.x * p.y
  }

  function Dot(p: Point, q: Point): real {
    p.x * q.x + p.y * q.y
  }

  function SqNorm(p: Point): real {
    Dot(p, p)
  }

  /** The square of `dist(p, q)`. Every `dist` comparison is read as a comparison
      of squared distances (see `AnimGeo.DistOrder`). */
  function SqDist(p: Point, q: Point): real {
    SqNorm(Sub(p, q))
  }

  lemma CrossAntisymmetric(p: Point, q: Point)
    ensures Cross(p, q) == -Cross(q, p)
    ensures Cross(p, p) == 0.0
  {
  }

  lemma SqNormNonNegative(p: Point)
    ensures SqNorm(p) >= 0.0
  {
    assert p.x * p.x >= 0.0;
    assert p.y * p.y >= 0.0;
  }

  // ---------------------------------------------------------------------------
  // Approximate equality and the approximate lexicographic order
  // ---------------------------------------------------------------------------

  /** `operator==`: both coordinates within `Eps`. */
  predicate Same(p: Point, q: Point) {
    Abs(p.x - q.x) < Eps && Abs(p.y - q.y) < Eps
  }

  lemma SameReflexiveSymmetric(p: Point, q: Point)
    ensures Same(p, p)
    ensures Same(p, q) <==> Same(q, p)
  {
  }

  /** Within a tolerance, equality is not transitive: three points spaced 0.6e-9 apart. */
  lemma SameNotTransitive()
    ensures var a, b, c := Point(0.0, 0.0), Point(0.0000000006, 0.0), Point(0.0000000012, 0.0);
            Same(a, b) && Same(b, c) && !Same(a, c)
  {
  }

  /** `operator<`: smaller x, or x within `Eps` and smaller y. */
  predicate Less(p: Point, q: Point) {
    p.x < q.x || (Abs(p.x - q.x) < Eps && p.y < q.y)
  }

  /** `operator<` is irreflexive, and lexicographic on (x, y) once x-ties are judged
      within `Eps`: beyond the tolerance only x decides, within it either a smaller x
      or a smaller y suffices. */
  lemma LessLexicographic(p: Point, q: Point)
    ensures !Less(p, p)
    ensures Abs(p.x - q.x) >= Eps ==> (Less(p, q) <==> p.x < q.x)
    ensures Abs(p.x - q.x) < Eps ==> (Less(p, q) <==> p.x < q.x || p.y < q.y)
  {
  }

  /** Within the tolerance `operator<` is not asymmetric: each of these two points is
      "less" than the other, so it is not a strict weak order. */
  lemma LessNotAsymmetric()
    ensures var a, b := Point(0.0, 1.0), Point(0.0000000005, 0.0);
            Less(a, b) && Less(b, a)
  {
  }

  // ---------------------------------------------------------------------------
  // Orientation, bounding boxes and segment intersection
  // ---------------------------------------------------------------------------

  datatype Orientation = Collinear | Left | Right

  /** The value of each `orientacion` enumerator as an `int`. */
  function Code(o: Orientation): (c: int)
    ensures 0 <= c <= 2
    ensures o == Collinear <==> c == 0
  {
    match o
    case Collinear => 0
    case Left => 1
    case Right => 2
  }

  /** C++ `!` applied to an `int`: 1 for zero, 0 for anything else. */
  function Not(c: int): (r: int)
    ensures r == 0 || r == 1
    ensures r == 1 <==> c == 0
  {
    if c == 0 then 1 else 0
  }

  /** The signed area used by `orientation(p, q, r)`. */
  function Turn(p: Point, q: Point, r: Point): real {
    Cross(Sub(p, r), Sub(q, r))
  }

  /** `orientation`: collinear when the signed area is within `Eps` of zero, otherwise
      left exactly for a positive area. */
  function Orient(p: Point, q: Point, r: Point): (o: Orientation)
    ensures o == Collinear <==> -Eps < Turn(p, q, r) < Eps
    ensures o == Left <==> Turn(p, q, r) >= Eps
    ensures o == Right <==> Turn(p, q, r) <= -Eps
  {
    var v := Turn(p, q, r);
    if Abs(v) < Eps then Collinear
    else if v > 0.0 then Left
    else Right
  }

  /** Swapping the first two arguments exchanges left and right and keeps collinear. */
  lemma OrientSwap(p: Point, q: Point, r: Point)
    ensures Turn(q, p, r) == -Turn(p, q, r)
    ensures Orient(p, q, r) == Left <==> Orient(q, p, r) == Right
    ensures Orient(p, q, r) == Collinear <==> Orient(q, p, r) == Collinear
  {
    CrossAntisymmetric(Sub(p, r), Sub(q, r));
  }

  /** The signed area written out in coordinates. */
  lemma TurnCoordinates(p: Point, q: Point, r: Point)
    ensures Turn(p, q, r) == (p.x - r.x) * (q.y - r.y) - (q.x - r.x) * (p.y - r.y)
  {
  }

  /** Swapping the last two arguments also exchanges left and right. */
  lemma OrientSwapLast(p: Point, q: Point, r: Point)
    ensures Turn(p, r, q) == -Turn(p, q, r)
    ensures Orient(p, q, r) == Left <==> Orient(p, r, q) == Right
    ensures Orient(p, q, r) == Collinear <==> Orient(p, r, q) == Collinear
  {
    TurnCoordinates(p, q, r);
    TurnCoordinates(p, r, q);
    var a, b, c, d := p.x - r.x, p.y - r.y, q.x - r.x, q.y - r.y;
    assert Turn(p, q, r) == a * d - c * b;
    assert Turn(p, r, q) == (a - c) * (0.0 - d) - (0.0 - c) * (b - d);
  }

  /** Rotating the three arguments keeps the signed area. */
  lemma TurnCyclic(p: Point, q: Point, r: Point)
    ensures Turn(q, r, p) == Turn(p, q, r)
    ensures Orient(q, r, p) == Orient(p, q, r)
  {
    TurnCoordinates(p, q, r);
    TurnCoordinates(q, r, p);
    var a, b, c, d := p.x - r.x, p.y - r.y, q.x - r.x, q.y - r.y;
    assert Turn(q, r, p) == (c - a) * (0.0 - b) - (0.0 - a) * (d - b);
  }

  /** `inBounds(p, q, r)`: r lies in the axis-parallel box spanned by p and q. */
  predicate InBounds(p: Point, q: Point, r: Point) {
    r.x <= Max(p.x, q.x) && r.x >= Min(p.x, q.x) && r.y <= Max(p.y, q.y) && r.y >= Min(p.y, q.y)
  }

  lemma InBoundsSymmetric(p: Point, q: Point, r: Point)
    ensures InBounds(p, q, r) <==> InBounds(q, p, r)
    ensures InBounds(p, q, p) && InBounds(p, q, q)
  {
  }

  /** `intersect(p, q, r, l)`: segments pq and rl meet, either properly (each
      straddles the other's line) or at a collinear point inside a box. */
  predicate Intersect(p: Point, q: Point, r: Point, l: Point) {
    var pqr, pql, rlp, rlq := Orient(p, q, r), Orient(p, q, l), Orient(r, l, p), Orient(r, l, q);
    || (pqr != pql && rlp != rlq)
    || (pqr == Collinear && InBounds(p, q, r))
    || (pql == Collinear && InBounds(p, q, l))
    || (rlp == Collinear && InBounds(r, l, p))
    || (rlq == Collinear && InBounds(r, l, q))
  }

  lemma IntersectSymmetric(p: Point, q: Point, r: Point, l: Point)
    ensures Intersect(p, q, r, l) == Intersect(r, l, p, q)
  {
  }

  /** The orientation of a triple that repeats a point is collinear. */
  lemma OrientRepeated(p: Point, q: Point)
    ensures Orient(p, q, p) == Collinear && Orient(p, q, q) == Collinear
  {
    assert Turn(p, q, p) == 0.0;
    assert Turn(p, q, q) == 0.0;
  }

  /** Two segments that share an endpoint always intersect. */
  lemma IntersectSharedEndpoint(p: Point, q: Point, l: Point)
    ensures Intersect(p, q, p, l) && Intersect(p, q, q, l)
    ensures Intersect(p, q, l, p) && Intersect(p, q, l, q)
  {
    OrientRepeated(p, q);
    InBoundsSymmetric(p, q, p);
  }

  // ---------------------------------------------------------------------------
  // Ray casting
  // ---------------------------------------------------------------------------

  /** The far end of the horizontal ray cast from p. */
  function Far(p: Point): Point {
    Point(1000000000.0, p.y)
  }

  /** The vertex after i, `(i + 1) % n` for 0 <= i < n. */
  function Following(i: int, n: int): (r: int)
    requires 0 <= i < n
    ensures 0 <= r < n
  {
    if i + 1 == n then 0 else i + 1
  }

  /** Edge i of the polygon, from vertex i to vertex i+1 (wrapping), is hit by the ray. */
  predicate EdgeHit(poly: seq<Point>, p: Point, i: int)
    requires 0 <= i < |poly|
  {
    Intersect(poly[i], poly[Following(i, |poly|)], p, Far(p))
  }

  /** Edge i is hit by the ray and collinear with p: p may lie on the boundary. */
  predicate EdgeOn(poly: seq<Point>, p: Point, i: int)
    requires 0 <= i < |poly|
  {
    EdgeHit(poly, p, i) && Orient(poly[i], p, poly[Following(i, |poly|)]) == Collinear
  }

  /** How many of the first k edges the ray hits. */
  function HitCount(poly: seq<Point>, p: Point, k: int): nat
    requires 0 <= k <= |poly|
  {
    if k == 0 then 0 else HitCount(poly, p, k - 1) + (if EdgeHit(poly, p, k - 1) then 1 else 0)
  }

  /** `isPointInPolygon`: the answer at the first hit edge collinear with p is whether p
      lies in that edge's box; with no such edge it is the parity of the hit count.
      The source's `(i + 1) % n` divides by zero on an empty polygon. */
  method PointInPolygon(p: Point, poly: seq<Point>) returns (inside: bool)
    requires |poly| >= 1
    ensures forall i :: 0 <= i < |poly| && EdgeOn(poly, p, i) && (forall j :: 0 <= j < i ==> !EdgeOn(poly, p, j))
              ==> inside == InBounds(poly[i], p, poly[Following(i, |poly|)])
    ensures (forall i :: 0 <= i < |poly| ==> !EdgeOn(poly, p, i)) ==> inside == (HitCount(poly, p, |poly|) % 2 == 1)
  {
    var n := |poly|;
    var count := 0;
    var i := 0;
    // the source's do-while advances i to (i + 1) % n and stops when it wraps to 0
    while i < n
      invariant 0 <= i <= n
      invariant count == HitCount(poly, p, i)
      invariant forall j :: 0 <= j < i ==> !EdgeOn(poly, p, j)
    {
      var next := Following(i, n);
      if EdgeHit(poly, p, i) {
        if Orient(poly[i], p, poly[next]) == Collinear {
          assert EdgeOn(poly, p, i);
          return InBounds(poly[i], p, poly[next]);
        }
        count := count + 1;
      }
      i := i + 1;
    }
    return count % 2 == 1;
  }
}
