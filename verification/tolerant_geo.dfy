/** The counter-clockwise tests of the root `geo.h`: the strict `ccw(p, q, r)` (the
    same as `AnimGeo.Ccw`) and the tolerant `ccw(p, q, r, ref)`, which with
    `ref = true` accepts a nearly collinear turn as counter-clockwise and with
    `ref = false` accepts it as clockwise. */
module TolerantGeo {
  import opened Geo
  import opened AnimGeo

  /** `ccw(p, q, r, ref)`. */
  predicate CcwTol(p: Point, q: Point, r: Point, ref: bool) {
    if ref then Area(p, q, r) > -Eps else Area(p, q, r) < Eps
  }

  /** The strict test implies the tolerant one leaning counter-clockwise, every triple
      passes at least one tolerant variant, and both pass exactly on the collinear
      band of `AnimGeo.Near`. */
  lemma CcwTolBands(p: Point, q: Point, r: Point)
    ensures Ccw(p, q, r) ==> CcwTol(p, q, r, true)
    ensures CcwTol(p, q, r, true) || CcwTol(p, q, r, false)
    ensures (CcwTol(p, q, r, true) && CcwTol(p, q, r, false)) <==> Near(p, q, r)
    ensures !CcwTol(p, q, r, false) ==> Ccw(p, q, r)
  {
  }
}
