/** `jarvisMarch` (gift wrapping), lines 35-65 of `AlgoritmosConvexHull/ConvexHulls.cpp`.
    From the lowest point, each round pushes the current pivot and scans every other
    point for the next one, keeping a candidate k and replacing it by any point i
    such that k lies to the left of pivot -> i; the march ends when the candidate is the
    starting point again. The source's loop has no bound, so the march runs on fuel:
    one round per unit, and no result when the fuel runs out.

    Two lines of the scan are read as written and as evidently intended, selected by
    a `Variant`: the scan starts at index 1 (line 49), so index 0 is never a
    candidate unless it is the initial one, and the collinear test of line 56 reads
    `!orientation(...) != RIGHT`, which holds for every orientation. */
module Jarvis {
  import opened Wrappers
  import opened Geo
  import opened Lowest
  import opened Walk

  /** Where the scan starts, and whether the replacement test is the intended one. */
  datatype Variant = Variant(first: nat, strict: bool)

  /** The loop as written: from index 1, with the test of line 56 as written. */
  const AsWritten := Variant(1, false)

  /** The loop as intended: from index 0, replacing on collinear points only. */
  const Corrected := Variant(0, true)

  predicate Usable(v: Variant) {
    v.first <= 1
  }

  /** Line 56 as written. `!orientation(...)` is the `int` 0 or 1, never `RIGHT` (2). */
  predicate TakesAsWritten(a: Point, b: Point, c: Point) {
    Orient(a, b, c) == Left
    || (Not(Code(Orient(a, b, c))) != Code(Right) && Orient(a, b, c) != Left && SqDist(a, b) > SqDist(a, c))
  }

  /** The evident intent of lines 51-57: b replaces c when c is to the left of a -> b,
      or when the three are collinear and b is farther from a. */
  predicate Takes(a: Point, b: Point, c: Point) {
    Orient(a, b, c) == Left || (Orient(a, b, c) == Collinear && SqDist(a, b) > SqDist(a, c))
  }

  predicate Replaces(v: Variant, a: Point, b: Point, c: Point) {
    if v.strict then Takes(a, b, c) else TakesAsWritten(a, b, c)
  }

  /** The collinear test of line 56 is idle: a farther point replaces the candidate
      even when the candidate is to its right. */
  lemma TakesAsWrittenIgnoresSide(a: Point, b: Point, c: Point)
    ensures TakesAsWritten(a, b, c) <==> Orient(a, b, c) == Left || SqDist(a, b) > SqDist(a, c)
    ensures Takes(a, b, c) ==> TakesAsWritten(a, b, c)
  {
  }

  /** The inner loop (lines 49-60) from index i with candidate k. */
  function Step(p: seq<Point>, v: Variant, pivot: nat, i: nat, k: nat): (r: nat)
    requires pivot < |p| && k < |p| && i <= |p|
    ensures r < |p|
    ensures r == k || (i <= r && r != pivot)
    decreases |p| - i
  {
    if i == |p| then k
    else if i != pivot && Replaces(v, p[pivot], p[i], p[k]) then Step(p, v, pivot, i + 1, i)
    else Step(p, v, pivot, i + 1, k)
  }

  /** One round: the candidate starts at the point after the pivot, `(pivot + 1) % n`
      (line 48). */
  function Next(p: seq<Point>, v: Variant, pivot: nat): (r: nat)
    requires pivot < |p| && Usable(v)
    ensures r < |p|
    ensures |p| >= 2 ==> r != pivot
  {
    Step(p, v, pivot, v.first, Following(pivot, |p|))
  }

  /** The round from every pivot, as a successor map over the indices. */
  function Rounds(p: seq<Point>, v: Variant): (succ: map<int, int>)
    requires Usable(v)
    ensures forall i :: i in succ <==> 0 <= i < |p|
    ensures forall i :: 0 <= i < |p| ==> succ[i] == Next(p, v, i)
  {
    map i | 0 <= i < |p| :: Next(p, v, i)
  }

  /** The pivots pushed by the do-while loop of lines 45-62: the lowest point, then the
      rounds from it until one returns to it. */
  function March(p: seq<Point>, v: Variant, fuel: nat): (r: Option<seq<int>>)
    requires |p| >= 1 && Usable(v)
    ensures r.Some? ==> |r.value| <= fuel
  {
    var l, succ := LowestIndex(p), Rounds(p, v);
    if fuel == 0 then None
    else match Walk.Walk(succ, succ[l], l, fuel - 1)
      case None => None
      case Some(c) =>
        WalkGivesPath(succ, succ[l], l, fuel - 1, c);
        Some([l] + c)
  }

  /** The march returns a cycle of the rounds through the lowest point. */
  lemma MarchIsCycle(p: seq<Point>, v: Variant, fuel: nat)
    requires |p| >= 1 && Usable(v)
    requires March(p, v, fuel).Some?
    ensures IsCycle(Rounds(p, v), March(p, v, fuel).value)
    ensures March(p, v, fuel).value[0] == LowestIndex(p)
  {
    var l, succ := LowestIndex(p), Rounds(p, v);
    var c := Walk.Walk(succ, succ[l], l, fuel - 1).value;
    WalkGivesPath(succ, succ[l], l, fuel - 1, c);
    CycleFromPath(succ, l, c);
  }

  /** Conversely, any cycle of the rounds through the lowest point is what the march
      returns once it has fuel for every round. */
  lemma MarchComplete(p: seq<Point>, v: Variant, c: seq<int>, fuel: nat)
    requires |p| >= 1 && Usable(v)
    requires IsCycle(Rounds(p, v), c) && c[0] == LowestIndex(p) && fuel >= |c|
    ensures March(p, v, fuel) == Some(c)
  {
    var l, succ := LowestIndex(p), Rounds(p, v);
    var rest := c[1..];
    CycleRest(succ, c);
    WalkFollowsPath(succ, rest, l, fuel - 1);
    assert [l] + rest == c;
  }

  /** `jarvisMarch`: inputs of at most three points come back unchanged (lines 37-38);
      otherwise the points at the pivots of the march. */
  function JarvisMarch(p: seq<Point>, v: Variant, fuel: nat): (r: Option<seq<Point>>)
    requires Usable(v)
    ensures |p| <= 3 ==> r == Some(p)
    ensures r.Some? && |p| > 3 ==> |r.value| >= 1 && r.value[0] == p[LowestIndex(p)]
    ensures r.Some? ==> forall j :: 0 <= j < |r.value| ==> r.value[j] in p
  {
    if |p| <= 3 then Some(p)
    else match March(p, v, fuel)
      case None => None
      case Some(ix) =>
        MarchIsCycle(p, v, fuel);
        Some(seq(|ix|, j requires 0 <= j < |ix| => p[ix[j]]))
  }

  /** The points other than the pivot and j lie strictly to the left of pivot -> j:
      p[j] is the next hull point counter-clockwise. */
  predicate MostClockwise(p: seq<Point>, pivot: nat, j: nat)
    requires pivot < |p| && j < |p|
  {
    j != pivot && forall i :: 0 <= i < |p| && i != pivot && i != j ==> Orient(p[pivot], p[j], p[i]) == Left
  }

  /** The corrected scan finds such a point whichever candidate it starts from, as
      long as the point is still ahead or is the candidate. */
  lemma {:induction false} StepFinds(p: seq<Point>, pivot: nat, i: nat, k: nat, j: nat)
    requires pivot < |p| && k < |p| && i <= |p| && j < |p|
    requires MostClockwise(p, pivot, j)
    requires k != pivot && (k == j || i <= j)
    ensures Step(p, Corrected, pivot, i, k) == j
    decreases |p| - i
  {
    if i < |p| {
      var a := p[pivot];
      if i == pivot {
        StepFinds(p, pivot, i + 1, k, j);
      } else if k == j {
        if i == j {
          OrientRepeated(a, p[j]);
        } else {
          OrientSwapLast(a, p[j], p[i]);
        }
        assert !Takes(a, p[i], p[k]);
        StepFinds(p, pivot, i + 1, k, j);
      } else if i == j {
        assert Takes(a, p[i], p[k]);
        StepFinds(p, pivot, i + 1, i, j);
      } else {
        var k' := if Takes(a, p[i], p[k]) then i else k;
        StepFinds(p, pivot, i + 1, k', j);
      }
    }
  }

  /** The corrected round moves to the next hull point counter-clockwise. */
  lemma NextMostClockwise(p: seq<Point>, pivot: nat, j: nat)
    requires pivot < |p| && j < |p| && |p| >= 2
    requires MostClockwise(p, pivot, j)
    ensures Next(p, Corrected, pivot) == j
  {
    StepFinds(p, pivot, 0, Following(pivot, |p|), j);
  }
}
