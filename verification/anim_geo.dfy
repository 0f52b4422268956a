/** The predicates of `Animaciones/geo.h` that `geo.hpp` lacks: the strict
    counter-clockwise test `ccw`, the tolerant `collinear`, and distance comparison.
    Its point type, `cross`, `sqnorm` and `operator<` are those of `Geo`. */
module AnimGeo {
  import opened Geo

  /** The signed area tested by `ccw(p, q, r)` and `collinear(p, q, r)`. */
  function Area(p: Point, q: Point, r: Point): real {
    Cross(Sub(p, q), Sub(p, r))
  }

  /** `ccw(p, q, r)`: a strictly positive area, with no tolerance. */
  predicate Ccw(p: Point, q: Point, r: Point) {
    Area(p, q, r) > 0.0
  }

  /** `collinear(p, q, r)`: the area is within `Eps` of zero. */
  predicate Near(p: Point, q: Point, r: Point) {
    Abs(Area(p, q, r)) < Eps
  }

  /** The area of `ccw` is the area of `orientation`: both measure the turn p, q, r. */
  lemma AreaIsTurn(p: Point, q: Point, r: Point)
    ensures Area(p, q, r) == Turn(p, q, r)
  {
    var a, b := Sub(p, r), Sub(q, r);
    assert Sub(p, q) == Point(a.x - b.x, a.y - b.y);
    calc {
      Area(p, q, r);
      (a.x - b.x) * a.y - a.x * (a.y - b.y);
      a.x * b.y - b.x * a.y;
    }
  }

  /** `ccw` agrees with `orientation` wherever `orientation` is not collinear, and
      `collinear` is exactly `orientation`'s collinear band. */
  lemma CcwAgreesWithOrient(p: Point, q: Point, r: Point)
    ensures Orient(p, q, r) == Left ==> Ccw(p, q, r)
    ensures Orient(p, q, r) == Right ==> !Ccw(p, q, r)
    ensures Near(p, q, r) <==> Orient(p, q, r) == Collinear
  {
    AreaIsTurn(p, q, r);
  }

  /** A triple and its mirror image are never both counter-clockwise. */
  lemma CcwAsymmetric(p: Point, q: Point, r: Point)
    ensures !(Ccw(p, q, r) && Ccw(p, r, q))
    ensures Area(p, r, q) == -Area(p, q, r)
  {
    CrossAntisymmetric(Sub(p, q), Sub(p, r));
  }

  /** A triple with a repeated point is collinear and never counter-clockwise. */
  lemma NearRepeated(p: Point, r: Point)
    ensures Near(p, p, r) && !Ccw(p, p, r)
  {
    assert Sub(p, p) == Point(0.0, 0.0);
  }

  /** `dist` is `sqrt(sqnorm(p - q))`. Square roots are not modelled; for any
      non-negative roots d1, d2 of the squared norms, comparing the roots is the same
      as comparing the squared norms, which is how every `dist` comparison is read. */
  lemma DistOrder(p: Point, q: Point, r: Point, d1: real, d2: real)
    requires d1 >= 0.0 && d1 * d1 == SqNorm(Sub(p, q))
    requires d2 >= 0.0 && d2 * d2 == SqNorm(Sub(p, r))
    ensures d1 < d2 <==> SqNorm(Sub(p, q)) < SqNorm(Sub(p, r))
  {
    var a, b, c := d1 * d1, d1 * d2, d2 * d2;
    if d1 < d2 {
      assert a <= b;
      assert b < c;
    } else {
      assert c <= b;
      assert b <= a;
    }
  }
}
