/** The start of `jarvisMarch` and `grahamScan`: the index of the lowest point under
    `operator<`, found by one left-to-right scan that keeps the current candidate and
    replaces it by any later point strictly below it. */
module Lowest {
  import opened Geo

  /** The candidate after scanning indices up to i - 1, starting from candidate l. */
  function LowestFrom(p: seq<Point>, i: nat, l: nat): (r: nat)
    requires l < i <= |p|
    ensures r < |p| && (r == l || i <= r)
    ensures forall j :: r < j < |p| && i <= j ==> !Less(p[j], p[r])
    decreases |p| - i
  {
    if i == |p| then l
    else LowestFrom(p, i + 1, if Less(p[i], p[l]) then i else l)
  }

  /** The index `jarvisMarch` and `grahamScan` compute (lines 40-43 and 71-75). */
  function LowestIndex(p: seq<Point>): (r: nat)
    requires |p| >= 1
    ensures r < |p|
    ensures forall j :: r < j < |p| ==> !Less(p[j], p[r])
  {
    LowestFrom(p, 1, 0)
  }

  /** `operator<` restricted to the points of p is transitive. Within `Eps` it need not
      be (see `Geo.LessNotAsymmetric`), so this is a property of the input. */
  predicate LessTransitiveOn(p: seq<Point>) {
    forall a, b, c :: 0 <= a < |p| && 0 <= b < |p| && 0 <= c < |p| && Less(p[a], p[b]) && Less(p[b], p[c]) ==> Less(p[a], p[c])
  }

  /** A point not below the old candidate is not below a new one that is below it. */
  lemma NotBelowNew(p: seq<Point>, j: nat, i: nat, l: nat)
    requires j < |p| && i < |p| && l < |p| && LessTransitiveOn(p)
    requires Less(p[i], p[l]) && !Less(p[j], p[l])
    ensures !Less(p[j], p[i])
  {
  }

  /** When p[i] is below the candidate l, no point up to i is below p[i]. */
  lemma NewCandidate(p: seq<Point>, i: nat, l: nat)
    requires l < i < |p| && LessTransitiveOn(p)
    requires forall j :: 0 <= j < i ==> !Less(p[j], p[l])
    requires Less(p[i], p[l])
    ensures forall j :: 0 <= j < i + 1 ==> !Less(p[j], p[i])
  {
    forall j | 0 <= j < i + 1
      ensures !Less(p[j], p[i])
    {
      if j == i {
        LessLexicographic(p[i], p[i]);
      } else {
        NotBelowNew(p, j, i, l);
      }
    }
  }

  /** When `operator<` is transitive on the input, no point at all is below the scan's
      result: the scan finds a minimum. */
  lemma {:induction false} LowestFromIsMinimum(p: seq<Point>, i: nat, l: nat)
    requires l < i <= |p|
    requires LessTransitiveOn(p)
    requires forall j :: 0 <= j < i ==> !Less(p[j], p[l])
    ensures forall j :: 0 <= j < |p| ==> !Less(p[j], p[LowestFrom(p, i, l)])
    decreases |p| - i
  {
    if i < |p| {
      var l' := if Less(p[i], p[l]) then i else l;
      assert LowestFrom(p, i, l) == LowestFrom(p, i + 1, l');
      if l' == i {
        NewCandidate(p, i, l);
      }
      LowestFromIsMinimum(p, i + 1, l');
    }
  }

  lemma LowestIsMinimum(p: seq<Point>)
    requires |p| >= 1
    requires LessTransitiveOn(p)
    ensures forall j :: 0 <= j < |p| ==> !Less(p[j], p[LowestIndex(p)])
  {
    LessLexicographic(p[0], p[0]);
    LowestFromIsMinimum(p, 1, 0);
  }
}
