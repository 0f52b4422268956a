/** Walks along a successor map. Every traversal loop of the half-edge mesh follows
    one pointer per step (`e->next`, `e->next->twin` or `e->twin->next`) until it
    reaches a given edge; such a walk is modelled over the map from each edge to the
    edge one step on. The source loops have no bound; here a walk gets as many steps
    as the map has entries, enough for any walk that reaches its stop, since such a
    walk never repeats an edge (`PathDistinct`). A walk that runs out of steps, or
    meets an edge the map does not know (a dangling pointer), yields no result. */
module Walk {
  import opened Wrappers

  /** The edges visited from x, up to but excluding the first visit of stop. */
  function Walk(succ: map<int, int>, x: int, stop: int, fuel: nat): Option<seq<int>>
    decreases fuel
  {
    if x == stop then Some([])
    else if fuel == 0 || x !in succ then None
    else match Walk(succ, succ[x], stop, fuel - 1)
      case None => None
      case Some(c) => Some([x] + c)
  }

  /** A walk with the full step budget. */
  function Chain(succ: map<int, int>, x: int, stop: int): Option<seq<int>> {
    Walk(succ, x, stop, |succ|)
  }

  /** Each element of c steps to the next one, and the last steps to stop. */
  predicate Linked(succ: map<int, int>, c: seq<int>, stop: int) {
    && (forall i :: 0 <= i < |c| ==> c[i] in succ)
    && (forall i :: 0 <= i < |c| - 1 ==> succ[c[i]] == c[i + 1])
    && (|c| > 0 ==> succ[c[|c| - 1]] == stop)
  }

  /** c is the walk from its first element to stop: linked, and stop is not met earlier. */
  predicate IsPath(succ: map<int, int>, c: seq<int>, stop: int) {
    Linked(succ, c, stop) && stop !in c
  }

  /** Where a walk that visits c before reaching stop begins. */
  function Start(c: seq<int>, stop: int): int {
    if |c| == 0 then stop else c[0]
  }

  predicate Distinct(c: seq<int>) {
    forall i, j :: 0 <= i < j < |c| ==> c[i] != c[j]
  }

  /** A cycle of the successor map: distinct elements, each stepping to the next and
      the last back to the first. */
  predicate IsCycle(succ: map<int, int>, c: seq<int>) {
    |c| > 0 && Distinct(c) && Linked(succ, c, c[0])
  }

  lemma PathSuffix(succ: map<int, int>, c: seq<int>, stop: int, k: int)
    requires IsPath(succ, c, stop) && 0 <= k <= |c|
    ensures IsPath(succ, c[k..], stop)
  {
    var d := c[k..];
    assert forall i :: 0 <= i < |d| ==> d[i] == c[k + i];
    forall i | 0 <= i < |d| - 1
      ensures succ[d[i]] == d[i + 1]
    {
      assert succ[c[k + i]] == c[k + i + 1];
    }
  }

  /** The first step of a linked sequence leads to where the rest of it starts. */
  lemma StepStart(succ: map<int, int>, c: seq<int>, stop: int)
    requires Linked(succ, c, stop) && |c| > 0
    ensures c[0] in succ && succ[c[0]] == Start(c[1..], stop)
    ensures Linked(succ, c[1..], stop)
  {
    var d := c[1..];
    assert forall i :: 0 <= i < |d| ==> d[i] == c[i + 1];
    if |c| > 1 {
      assert succ[c[0]] == c[1];
    }
  }

  /** A walk given enough steps follows any path to the end. */
  lemma {:induction false} WalkFollowsPath(succ: map<int, int>, c: seq<int>, stop: int, fuel: nat)
    requires IsPath(succ, c, stop) && fuel >= |c|
    ensures Walk(succ, Start(c, stop), stop, fuel) == Some(c)
  {
    if |c| > 0 {
      PathSuffix(succ, c, stop, 1);
      StepStart(succ, c, stop);
      WalkFollowsPath(succ, c[1..], stop, fuel - 1);
      assert [c[0]] + c[1..] == c;
    }
  }

  /** Conversely, whatever a walk returns is a path from its start. */
  lemma {:induction false} WalkGivesPath(succ: map<int, int>, x: int, stop: int, fuel: nat, c: seq<int>)
    requires Walk(succ, x, stop, fuel) == Some(c)
    ensures IsPath(succ, c, stop) && Start(c, stop) == x && |c| <= fuel
    decreases fuel
  {
    if x != stop {
      assert fuel > 0 && x in succ;
      var rest := Walk(succ, succ[x], stop, fuel - 1).value;
      assert c == [x] + rest;
      WalkGivesPath(succ, succ[x], stop, fuel - 1, rest);
      assert forall i :: 0 < i < |c| ==> c[i] == rest[i - 1];
      if |rest| > 0 {
        assert succ[c[0]] == c[1];
      }
    }
  }

  /** Two paths from the same start to the same stop are the same path. */
  lemma PathUnique(succ: map<int, int>, c: seq<int>, d: seq<int>, stop: int)
    requires IsPath(succ, c, stop) && IsPath(succ, d, stop)
    requires Start(c, stop) == Start(d, stop)
    ensures c == d
  {
    var fuel := |c| + |d|;
    WalkFollowsPath(succ, c, stop, fuel);
    WalkFollowsPath(succ, d, stop, fuel);
  }

  /** A path never repeats an element: a repeat would make it run forever. */
  lemma PathDistinct(succ: map<int, int>, c: seq<int>, stop: int)
    requires IsPath(succ, c, stop)
    ensures Distinct(c)
  {
    forall i, j | 0 <= i < j < |c|
      ensures c[i] != c[j]
    {
      if c[i] == c[j] {
        PathSuffix(succ, c, stop, i);
        PathSuffix(succ, c, stop, j);
        PathUnique(succ, c[i..], c[j..], stop);
        assert false;
      }
    }
  }

  /** A sequence without repeats drawn from a set is no longer than the set is large. */
  lemma {:induction false} DistinctBound(c: seq<int>, keys: set<int>)
    requires Distinct(c)
    requires forall i :: 0 <= i < |c| ==> c[i] in keys
    ensures |c| <= |keys|
  {
    if |c| > 0 {
      var rest := c[1..];
      assert forall i :: 0 <= i < |rest| ==> rest[i] == c[i + 1];
      DistinctBound(rest, keys - {c[0]});
    }
  }

  // ---------------------------------------------------------------------------
  // Searching along a walk
  // ---------------------------------------------------------------------------

  /** The outcome of a search loop: the first edge with the property, none before the
      walk returned to its stop, or a walk that broke off. */
  datatype Search = Found(at: int) | NotFound | Broken

  /** Walk from x towards stop and return the first edge satisfying p. An edge is tested
      before the walk steps past it, as in the source's loops. */
  function Find(succ: map<int, int>, x: int, stop: int, p: int -> bool, fuel: nat): (s: Search)
    ensures s.Found? ==> p(s.at) && s.at != stop
    decreases fuel
  {
    if x == stop then NotFound
    else if p(x) then Found(x)
    else if fuel == 0 || x !in succ then Broken
    else Find(succ, succ[x], stop, p, fuel - 1)
  }

  /** The first element of c satisfying p. */
  function FirstMatch(c: seq<int>, p: int -> bool): (s: Search)
    ensures s.Found? ==> s.at in c && p(s.at)
    ensures s.NotFound? <==> forall i :: 0 <= i < |c| ==> !p(c[i])
    ensures !s.Broken?
  {
    if |c| == 0 then NotFound
    else if p(c[0]) then Found(c[0])
    else FirstMatch(c[1..], p)
  }

  /** Along a known path a search finds exactly the first match on the path. */
  lemma {:induction false} FindOnPath(succ: map<int, int>, c: seq<int>, stop: int, p: int -> bool, fuel: nat)
    requires IsPath(succ, c, stop) && fuel >= |c|
    ensures Find(succ, Start(c, stop), stop, p, fuel) == FirstMatch(c, p)
  {
    if |c| > 0 && !p(c[0]) {
      PathSuffix(succ, c, stop, 1);
      StepStart(succ, c, stop);
      FindOnPath(succ, c[1..], stop, p, fuel - 1);
    }
  }

  /** A property the successor map preserves holds of whatever a search from an edge
      with that property finds. */
  lemma {:induction false} FindKeeps(succ: map<int, int>, x: int, stop: int, p: int -> bool, fuel: nat, keep: int -> bool)
    requires forall e :: e in succ && keep(e) ==> keep(succ[e])
    requires keep(x)
    ensures Find(succ, x, stop, p, fuel).Found? ==> keep(Find(succ, x, stop, p, fuel).at)
    decreases fuel
  {
    if x != stop && !p(x) && fuel > 0 && x in succ {
      FindKeeps(succ, succ[x], stop, p, fuel - 1, keep);
    }
  }

  /** A search that ends without a match walked all the way to its stop, and nothing on
      the walk matched. */
  lemma {:induction false} FindNotFound(succ: map<int, int>, x: int, stop: int, p: int -> bool, fuel: nat)
    requires Find(succ, x, stop, p, fuel) == NotFound
    ensures Walk(succ, x, stop, fuel).Some?
    ensures FirstMatch(Walk(succ, x, stop, fuel).value, p) == NotFound
    decreases fuel
  {
    if x != stop {
      FindNotFound(succ, succ[x], stop, p, fuel - 1);
      var rest := Walk(succ, succ[x], stop, fuel - 1).value;
      assert ([x] + rest)[1..] == rest;
    }
  }

  /** A search that finds an edge walked up to it without passing its stop, and
      nothing before it matched. */
  lemma {:induction false} FindFound(succ: map<int, int>, x: int, stop: int, p: int -> bool, fuel: nat)
    requires Find(succ, x, stop, p, fuel).Found?
    ensures var w := Walk(succ, x, Find(succ, x, stop, p, fuel).at, fuel);
            w.Some? && stop !in w.value && FirstMatch(w.value, p) == NotFound
    decreases fuel
  {
    var a := Find(succ, x, stop, p, fuel).at;
    if x != a {
      FindFound(succ, succ[x], stop, p, fuel - 1);
      var rest := Walk(succ, succ[x], a, fuel - 1).value;
      assert ([x] + rest)[1..] == rest;
    }
  }

  /** Conversely, a cycle without its first element is a path back to it. */
  lemma CycleRest(succ: map<int, int>, c: seq<int>)
    requires IsCycle(succ, c)
    ensures IsPath(succ, c[1..], c[0]) && Start(c[1..], c[0]) == succ[c[0]]
  {
    var rest := c[1..];
    assert forall j :: 0 <= j < |rest| ==> rest[j] == c[j + 1];
    if |c| > 1 {
      assert succ[c[0]] == c[1];
    }
  }

  /** An element followed by a path back to itself is a cycle. */
  lemma CycleFromPath(succ: map<int, int>, s: int, c: seq<int>)
    requires s in succ && IsPath(succ, c, s) && Start(c, s) == succ[s]
    ensures IsCycle(succ, [s] + c)
  {
    var d := [s] + c;
    PathDistinct(succ, c, s);
    assert forall i :: 0 < i < |d| ==> d[i] == c[i - 1];
    forall i | 0 <= i < |d| - 1
      ensures succ[d[i]] == d[i + 1]
    {
      if i > 0 {
        assert succ[c[i - 1]] == c[i];
      }
    }
    forall i, j | 0 <= i < j < |d|
      ensures d[i] != d[j]
    {
      if i > 0 {
        assert d[i] == c[i - 1] && d[j] == c[j - 1];
      }
    }
  }
}
