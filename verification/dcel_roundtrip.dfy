/** Removing the diagonal that `addHalfEdges` has just inserted gives back every
    half-edge record exactly, the same vertices and the same set of faces, when the
    diagonal splits one face: the edges into v1 and into v2 that `addHalfEdges` hooks
    it onto lie on one boundary cycle carrying the split face. */
module DcelRoundTrip {
  import opened Wrappers
  import opened Walk
  import opened Dcel
  import opened DcelEdit

  /** The boundary cycle through the two hook edges, read from the edge after prev1:
      the arc `a` runs up to prev2 and the arc `b` on up to prev1. Every edge on it
      carries the face being split. */
  predicate SplitsOneFace(m: Mesh, plan: Plan, a: seq<int>, b: seq<int>) {
    && |a| > 0 && |b| > 0
    && IsCycle(NextMap(m.edges), a + b)
    && a[|a| - 1] == plan.prev2
    && b[|b| - 1] == plan.prev1
    && plan.face.Some?
    && (forall i :: 0 <= i < |a + b| ==> (a + b)[i] in m.edges && m.edges[(a + b)[i]].face == plan.face)
  }

  /** What the cycle says about its two arcs. */
  lemma ArcFacts(m: Mesh, plan: Plan, a: seq<int>, b: seq<int>)
    requires SplitsOneFace(m, plan, a, b)
    ensures forall x :: x in a ==> x in m.edges && x !in b
    ensures forall x :: x in b ==> x in m.edges
    ensures Distinct(a) && Distinct(b)
    ensures plan.prev1 in m.edges && plan.prev2 in m.edges
    ensures m.edges[plan.prev1].next == a[0] && m.edges[plan.prev2].next == b[0]
    ensures Linked(NextMap(m.edges), a, b[0]) && Linked(NextMap(m.edges), b, a[0])
    ensures |a| + |b| <= |m.edges|
  {
    var c := a + b;
    var succ := NextMap(m.edges);
    assert forall i :: 0 <= i < |a| ==> c[i] == a[i];
    assert forall i :: 0 <= i < |b| ==> c[|a| + i] == b[i];
    forall x | x in a
      ensures x in m.edges && x !in b
    {
      var i :| 0 <= i < |a| && a[i] == x;
      assert c[i] == x;
    }
    forall x | x in b
      ensures x in m.edges
    {
      var j :| 0 <= j < |b| && b[j] == x;
      assert c[|a| + j] == x;
    }
    assert succ[c[|a| - 1]] == c[|a|];
    assert succ[c[|c| - 1]] == c[0];
    forall i | 0 <= i < |a| - 1
      ensures succ[a[i]] == a[i + 1]
    {
      assert succ[c[i]] == c[i + 1];
    }
    forall i | 0 <= i < |b| - 1
      ensures succ[b[i]] == b[i + 1]
    {
      assert succ[c[|a| + i]] == c[|a| + i + 1];
    }
    forall i, j | 0 <= i < j < |a|
      ensures a[i] != a[j]
    {
      assert c[i] != c[j];
    }
    forall i, j | 0 <= i < j < |b|
      ensures b[i] != b[j]
    {
      assert c[|a| + i] != c[|a| + j];
    }
    DistinctBound(c, m.edges.Keys);
  }

  /** After the hooks are in place, the arc b leads from the edge after prev2 to `left`. */
  lemma HookPath(m: Mesh, v1: int, v2: int, plan: Plan, a: seq<int>, b: seq<int>, f: int, g: int)
    requires m.nextEdge !in m.edges && m.nextEdge + 1 !in m.edges
    requires SplitsOneFace(m, plan, a, b)
    ensures plan.prev1 in m.edges && plan.prev2 in m.edges
    ensures Chain(NextMap(Hook(m.edges, plan, v1, v2, m.nextEdge, m.nextEdge + 1, f, g)), b[0], m.nextEdge) == Some(b)
  {
    ArcFacts(m, plan, a, b);
    var left, right := m.nextEdge, m.nextEdge + 1;
    var e2 := Hook(m.edges, plan, v1, v2, left, right, f, g);
    var succ, succ2 := NextMap(m.edges), NextMap(e2);
    assert plan.prev1 != plan.prev2;
    assert IsPath(succ2, b, left) by {
      forall i | 0 <= i < |b| - 1
        ensures succ2[b[i]] == b[i + 1]
      {
        assert b[i] != plan.prev1;
        assert succ[b[i]] == b[i + 1];
      }
    }
    assert |succ2| == |m.edges| + 2 by {
      assert succ2.Keys == m.edges.Keys + {left, right};
    }
    WalkFollowsPath(succ2, b, left, |succ2|);
  }

  /** The ids the next insertion takes are free. */
  predicate Fresh(m: Mesh) {
    m.nextEdge !in m.edges && m.nextEdge + 1 !in m.edges && m.nextFace !in m.faces
  }

  /** A valid mesh has free next ids, and the face of a boundary is live. */
  lemma ValidFacts(m: Mesh, plan: Plan, a: seq<int>, b: seq<int>)
    requires Valid(m)
    requires SplitsOneFace(m, plan, a, b)
    ensures Fresh(m)
    ensures plan.face.value in m.faces
  {
    assert (a + b)[0] in m.edges;
    assert EdgeOk(m, (a + b)[0]);
  }

  /** What `addHalfEdges` builds once its plan is fixed. */
  function Added(m: Mesh, v1: int, v2: int, plan: Plan, b: seq<int>): Mesh
    requires plan.prev1 in m.edges && plan.prev2 in m.edges && plan.face.Some?
  {
    Mesh(m.vertices,
         Relabel(Hook(m.edges, plan, v1, v2, m.nextEdge, m.nextEdge + 1, plan.face.value, m.nextFace), b, Some(m.nextFace)),
         m.faces[m.nextFace := Face(Some(m.nextEdge))][plan.face.value := Face(Some(m.nextEdge + 1))],
         m.nextVertex, m.nextEdge + 2, m.nextFace + 1)
  }

  /** Once the relabelling walk is known to follow b, the insertion builds `Added`. */
  lemma InsertFollows(m: Mesh, v1: int, v2: int, plan: Plan, b: seq<int>)
    requires plan.prev1 in m.edges && plan.prev2 in m.edges
    requires plan.face.Some? && plan.face.value in m.faces
    requires Chain(NextMap(Hook(m.edges, plan, v1, v2, m.nextEdge, m.nextEdge + 1, plan.face.value, m.nextFace)),
                   m.edges[plan.prev2].next, m.nextEdge) == Some(b)
    ensures Insert(m, v1, v2, plan) == Ok(Added(m, v1, v2, plan, b))
  {
  }

  /** On a split face, the insertion relabels exactly the arc b with the new face. */
  lemma InsertSplits(m: Mesh, v1: int, v2: int, plan: Plan, a: seq<int>, b: seq<int>)
    requires Fresh(m)
    requires SplitsOneFace(m, plan, a, b)
    requires plan.face.value in m.faces
    ensures plan.prev1 in m.edges && plan.prev2 in m.edges
    ensures Insert(m, v1, v2, plan) == Ok(Added(m, v1, v2, plan, b))
  {
    ArcFacts(m, plan, a, b);
    HookPath(m, v1, v2, plan, a, b, plan.face.value, m.nextFace);
    InsertFollows(m, v1, v2, plan, b);
  }

  lemma AddDoesSplice(m: Mesh, v1: int, v2: int, plan: Plan, a: seq<int>, b: seq<int>)
    requires Fresh(m)
    requires Splice(m, v1, v2) == Ok(plan)
    requires SplitsOneFace(m, plan, a, b)
    requires plan.face.value in m.faces
    ensures plan.prev1 in m.edges && plan.prev2 in m.edges
    ensures AddHalfEdges(m, v1, v2) == Ok(Added(m, v1, v2, plan, b))
  {
    InsertSplits(m, v1, v2, plan, a, b);
  }

  /** Record by record, what `addHalfEdges` leaves in the edge table. */
  lemma AddedEdges(m: Mesh, v1: int, v2: int, plan: Plan, a: seq<int>, b: seq<int>)
    requires Fresh(m)
    requires SplitsOneFace(m, plan, a, b)
    ensures plan.prev1 in m.edges && plan.prev2 in m.edges
    ensures var e', left, right, g := Added(m, v1, v2, plan, b).edges, m.nextEdge, m.nextEdge + 1, m.nextFace;
            && e'.Keys == m.edges.Keys + {left, right}
            && e'[left] == HalfEdge(right, v1, b[0], Some(g))
            && e'[right] == HalfEdge(left, v2, a[0], plan.face)
            && e'[plan.prev1] == m.edges[plan.prev1].(next := left, face := Some(g))
            && e'[plan.prev2] == m.edges[plan.prev2].(next := right)
            && (forall x :: x in m.edges && x != plan.prev1 && x != plan.prev2 ==>
                  e'[x] == if x in b then m.edges[x].(face := Some(g)) else m.edges[x])
  {
    ArcFacts(m, plan, a, b);
    assert plan.prev1 != plan.prev2;
    assert plan.prev1 == b[|b| - 1];
  }

  /** An arc whose records keep their `next` pointers, except that its last edge now
      leads to stop, is a path to stop. */
  lemma ArcSurvives(edges: map<int, HalfEdge>, e': map<int, HalfEdge>, c: seq<int>, stop: int)
    requires |c| > 0
    requires forall i :: 0 <= i < |c| ==> c[i] in e'
    requires forall i :: 0 <= i < |c| - 1 ==> c[i] in edges && edges[c[i]].next == c[i + 1] && e'[c[i]].next == edges[c[i]].next
    requires e'[c[|c| - 1]].next == stop && stop !in c
    ensures IsPath(NextMap(e'), c, stop)
  {
  }

  /** In the mesh after the insertion, the arc b leads to `left` and the arc a to `right`. */
  lemma AddedPaths(m: Mesh, v1: int, v2: int, plan: Plan, a: seq<int>, b: seq<int>)
    requires Fresh(m)
    requires SplitsOneFace(m, plan, a, b)
    ensures plan.prev1 in m.edges && plan.prev2 in m.edges
    ensures IsPath(NextMap(Added(m, v1, v2, plan, b).edges), b, m.nextEdge)
    ensures IsPath(NextMap(Added(m, v1, v2, plan, b).edges), a, m.nextEdge + 1)
  {
    ArcFacts(m, plan, a, b);
    AddedEdges(m, v1, v2, plan, a, b);
    var e' := Added(m, v1, v2, plan, b).edges;
    var succ := NextMap(m.edges);
    forall i | 0 <= i < |b| - 1
      ensures b[i] in m.edges && m.edges[b[i]].next == b[i + 1] && e'[b[i]].next == m.edges[b[i]].next
    {
      assert b[i] != plan.prev1;
      assert b[i] in m.edges && b[i] !in a;
      assert succ[b[i]] == b[i + 1];
    }
    forall i | 0 <= i < |a| - 1
      ensures a[i] in m.edges && m.edges[a[i]].next == a[i + 1] && e'[a[i]].next == m.edges[a[i]].next
    {
      assert a[i] != plan.prev2;
      assert a[i] in m.edges && a[i] !in b;
      assert succ[a[i]] == a[i + 1];
    }
    ArcSurvives(m.edges, e', b, m.nextEdge);
    ArcSurvives(m.edges, e', a, m.nextEdge + 1);
  }

  /** In the mesh after the insertion, the edges before `left` and `right` are prev1
      and prev2. */
  lemma AddedPrevious(m: Mesh, v1: int, v2: int, plan: Plan, a: seq<int>, b: seq<int>)
    requires Fresh(m)
    requires SplitsOneFace(m, plan, a, b)
    ensures plan.prev1 in m.edges && plan.prev2 in m.edges
    ensures GetPrevious(Added(m, v1, v2, plan, b), m.nextEdge) == Ok(plan.prev1)
    ensures GetPrevious(Added(m, v1, v2, plan, b), m.nextEdge + 1) == Ok(plan.prev2)
  {
    AddedPaths(m, v1, v2, plan, a, b);
    AddedEdges(m, v1, v2, plan, a, b);
    var m' := Added(m, v1, v2, plan, b);
    var succ' := NextMap(m'.edges);
    CycleFromPath(succ', m.nextEdge, b);
    GetPreviousOnCycle(m', [m.nextEdge] + b);
    CycleFromPath(succ', m.nextEdge + 1, a);
    GetPreviousOnCycle(m', [m.nextEdge + 1] + a);
  }

  lemma RemoveFollows(m: Mesh, e: int, ePrev: int, tPrev: int, c: seq<int>)
    requires e in m.edges && m.edges[e].twin in m.edges
    requires GetPrevious(m, e) == Ok(ePrev) && GetPrevious(m, m.edges[e].twin) == Ok(tPrev)
    requires var face := m.edges[m.edges[e].twin].face; face.Some? && face.value in m.faces
    requires Chain(NextMap(Relink(m.edges, ePrev, tPrev, m.edges[e].next, m.edges[m.edges[e].twin].next)),
                   m.edges[e].next, m.edges[m.edges[e].twin].next) == Some(c)
    ensures RemoveHalfEdges(m, e) == Ok(Removed(m, e, ePrev, tPrev, c))
  {
  }

  /** After the insertion, relinking around `left` puts b back on the path to the edge
      after prev1, so the relabelling walk of the removal follows b. */
  lemma RelinkedWalk(m: Mesh, v1: int, v2: int, plan: Plan, a: seq<int>, b: seq<int>)
    requires Fresh(m)
    requires SplitsOneFace(m, plan, a, b)
    ensures plan.prev1 in m.edges && plan.prev2 in m.edges
    ensures Chain(NextMap(Relink(Added(m, v1, v2, plan, b).edges, plan.prev1, plan.prev2, b[0], a[0])), b[0], a[0]) == Some(b)
  {
    ArcFacts(m, plan, a, b);
    AddedEdges(m, v1, v2, plan, a, b);
    var e' := Added(m, v1, v2, plan, b).edges;
    var f2 := Relink(e', plan.prev1, plan.prev2, b[0], a[0]);
    var succ := NextMap(m.edges);
    assert plan.prev1 != plan.prev2;
    forall i | 0 <= i < |b| - 1
      ensures b[i] in m.edges && m.edges[b[i]].next == b[i + 1] && f2[b[i]].next == m.edges[b[i]].next
    {
      assert b[i] != plan.prev1;
      assert b[i] in m.edges && b[i] !in a;
      assert succ[b[i]] == b[i + 1];
    }
    assert a[0] in a;
    ArcSurvives(m.edges, f2, b, a[0]);
    assert |NextMap(f2)| == |m.edges| + 2 by {
      assert NextMap(f2).Keys == m.edges.Keys + {m.nextEdge, m.nextEdge + 1};
    }
    WalkFollowsPath(NextMap(f2), b, a[0], |NextMap(f2)|);
  }

  /** Undoing the surgery on an edge table: relinking prev1 and prev2 to their old
      successors, relabelling b back to f and dropping the two new edges restores every
      record. */
  lemma UndoEdges(edges: map<int, HalfEdge>, e': map<int, HalfEdge>, a: seq<int>, b: seq<int>,
                  p1: int, p2: int, left: int, right: int, f: int, g: int)
    requires |a| > 0 && |b| > 0
    requires left !in edges && right !in edges && left != right
    requires p1 in edges && p2 in edges && p1 != p2 && p1 in b && p2 !in b
    requires edges[p1].next == a[0] && edges[p2].next == b[0]
    requires forall x :: x in b ==> x in edges && edges[x].face == Some(f)
    requires e'.Keys == edges.Keys + {left, right}
    requires e'[p1] == edges[p1].(next := left, face := Some(g))
    requires e'[p2] == edges[p2].(next := right)
    requires forall x :: x in edges && x != p1 && x != p2 ==>
               e'[x] == if x in b then edges[x].(face := Some(g)) else edges[x]
    ensures Relabel(Relink(e', p1, p2, b[0], a[0]), b, Some(f)) - {left, right} == edges
  {
    var e3 := Relabel(Relink(e', p1, p2, b[0], a[0]), b, Some(f));
    forall x | x in edges
      ensures e3[x] == edges[x]
    {
      if x != p1 && x != p2 && x in b {
        assert edges[x].face == Some(f);
      }
    }
    assert (e3 - {left, right}).Keys == edges.Keys;
  }

  /** The shape of `Removed` when the twin's face is f and e's face is g, e being off
      the relabelled walk. */
  lemma RemovedShape(m: Mesh, e: int, ePrev: int, tPrev: int, c: seq<int>, f: int, g: int)
    requires e in m.edges && m.edges[e].twin in m.edges && ePrev in m.edges && tPrev in m.edges
    requires m.edges[m.edges[e].twin].face == Some(f) && m.edges[e].face == Some(g) && e !in c
    ensures Removed(m, e, ePrev, tPrev, c) ==
            Mesh(m.vertices,
                 Relabel(Relink(m.edges, ePrev, tPrev, m.edges[e].next, m.edges[m.edges[e].twin].next), c, Some(f)) - {e, m.edges[e].twin},
                 m.faces[f := Face(Some(m.edges[e].next))] - {g},
                 m.nextVertex, m.nextEdge, m.nextFace)
  {
  }

  /** The arc b carries the split face, ends at prev1, and avoids prev2. */
  lemma ArcFaces(m: Mesh, plan: Plan, a: seq<int>, b: seq<int>)
    requires SplitsOneFace(m, plan, a, b)
    ensures forall x :: x in b ==> x in m.edges && m.edges[x].face == plan.face
    ensures plan.prev1 in b && plan.prev2 !in b && plan.prev1 != plan.prev2
  {
    ArcFacts(m, plan, a, b);
    assert plan.prev2 in a;
    forall x | x in b
      ensures x in m.edges && m.edges[x].face == plan.face
    {
      var i :| 0 <= i < |b| && b[i] == x;
      assert (a + b)[|a| + i] == x;
    }
  }

  /** Relinking around `left`, relabelling b back and dropping the two new edges gives
      back the edge table before the insertion. */
  lemma RemovedEdges(m: Mesh, v1: int, v2: int, plan: Plan, a: seq<int>, b: seq<int>)
    requires Fresh(m)
    requires SplitsOneFace(m, plan, a, b)
    ensures plan.prev1 in m.edges && plan.prev2 in m.edges
    ensures var e' := Added(m, v1, v2, plan, b).edges;
            Relabel(Relink(e', plan.prev1, plan.prev2, b[0], a[0]), b, plan.face) - {m.nextEdge, m.nextEdge + 1} == m.edges
  {
    ArcFacts(m, plan, a, b);
    ArcFaces(m, plan, a, b);
    AddedEdges(m, v1, v2, plan, a, b);
    var e' := Added(m, v1, v2, plan, b).edges;
    UndoEdges(m.edges, e', a, b, plan.prev1, plan.prev2, m.nextEdge, m.nextEdge + 1, plan.face.value, m.nextFace);
  }

  /** The two records of the new diagonal, and that neither is on the arc b. */
  lemma AddedPair(m: Mesh, v1: int, v2: int, plan: Plan, a: seq<int>, b: seq<int>)
    requires Fresh(m)
    requires SplitsOneFace(m, plan, a, b)
    ensures plan.prev1 in m.edges && plan.prev2 in m.edges
    ensures var e', left, right := Added(m, v1, v2, plan, b).edges, m.nextEdge, m.nextEdge + 1;
            && left in e' && right in e' && left !in b
            && e'[left] == HalfEdge(right, v1, b[0], Some(m.nextFace))
            && e'[right] == HalfEdge(left, v2, a[0], plan.face)
  {
    ArcFacts(m, plan, a, b);
    AddedEdges(m, v1, v2, plan, a, b);
  }

  /** The removal's result, record by record, is the mesh before the insertion. */
  lemma RemovedIsOriginal(m: Mesh, v1: int, v2: int, plan: Plan, a: seq<int>, b: seq<int>)
    requires Fresh(m)
    requires SplitsOneFace(m, plan, a, b)
    requires plan.face.value in m.faces
    ensures plan.prev1 in m.edges && plan.prev2 in m.edges
    ensures var m' := Added(m, v1, v2, plan, b);
            && m.nextEdge in m'.edges && m'.edges[m.nextEdge].twin in m'.edges
            && Removed(m', m.nextEdge, plan.prev1, plan.prev2, b) ==
               Mesh(m.vertices, m.edges, m.faces[plan.face.value := Face(Some(b[0]))],
                    m.nextVertex, m.nextEdge + 2, m.nextFace + 1)
  {
    AddedPair(m, v1, v2, plan, a, b);
    RemovedEdges(m, v1, v2, plan, a, b);
    var m' := Added(m, v1, v2, plan, b);
    var left, right, f, g := m.nextEdge, m.nextEdge + 1, plan.face.value, m.nextFace;
    assert left !in b;
    RemovedShape(m', left, plan.prev1, plan.prev2, b, f, g);
    FacesUndone(m.faces, f, g, Face(Some(left)), Face(Some(right)), Face(Some(b[0])));
  }

  /** Adding face g and then deleting it leaves only the update of face f. */
  lemma FacesUndone(faces: map<int, Face>, f: int, g: int, x: Face, y: Face, z: Face)
    requires g != f && g !in faces
    ensures faces[g := x][f := y][f := z] - {g} == faces[f := z]
  {
  }

  /** `removeHalfEdges` undoes `addHalfEdges`: deleting the new diagonal `left` gives
      back every half-edge record and vertex, and the same faces; only the reference
      edge of the split face has moved on to the edge after prev2. */
  lemma AddThenRemove(m: Mesh, v1: int, v2: int, plan: Plan, a: seq<int>, b: seq<int>)
    requires Valid(m)
    requires Splice(m, v1, v2) == Ok(plan)
    requires SplitsOneFace(m, plan, a, b)
    ensures AddHalfEdges(m, v1, v2).Ok?
    ensures plan.prev2 in m.edges
    ensures RemoveHalfEdges(AddHalfEdges(m, v1, v2).value, m.nextEdge) ==
            Ok(Mesh(m.vertices, m.edges, m.faces[plan.face.value := Face(Some(m.edges[plan.prev2].next))],
                    m.nextVertex, m.nextEdge + 2, m.nextFace + 1))
  {
    ValidFacts(m, plan, a, b);
    ArcFacts(m, plan, a, b);
    AddDoesSplice(m, v1, v2, plan, a, b);
    AddedEdges(m, v1, v2, plan, a, b);
    AddedPrevious(m, v1, v2, plan, a, b);
    RelinkedWalk(m, v1, v2, plan, a, b);
    var m' := Added(m, v1, v2, plan, b);
    RemoveFollows(m', m.nextEdge, plan.prev1, plan.prev2, b);
    RemovedIsOriginal(m, v1, v2, plan, a, b);
  }

  /** The boundaries of the two faces after the insertion. */
  lemma AddedCycles(m: Mesh, v1: int, v2: int, plan: Plan, a: seq<int>, b: seq<int>)
    requires Fresh(m)
    requires SplitsOneFace(m, plan, a, b)
    requires plan.face.value in m.faces
    ensures plan.prev1 in m.edges && plan.prev2 in m.edges
    ensures FaceCycle(Added(m, v1, v2, plan, b), m.nextFace) == Ok([m.nextEdge] + b)
    ensures FaceCycle(Added(m, v1, v2, plan, b), plan.face.value) == Ok([m.nextEdge + 1] + a)
  {
    ArcFacts(m, plan, a, b);
    AddedEdges(m, v1, v2, plan, a, b);
    AddedPaths(m, v1, v2, plan, a, b);
    var m' := Added(m, v1, v2, plan, b);
    var succ' := NextMap(m'.edges);
    assert |succ'| == |m.edges| + 2 by {
      assert succ'.Keys == m.edges.Keys + {m.nextEdge, m.nextEdge + 1};
    }
    WalkFollowsPath(succ', b, m.nextEdge, |succ'|);
    WalkFollowsPath(succ', a, m.nextEdge + 1, |succ'|);
    assert m'.faces[m.nextFace].edge == Some(m.nextEdge);
    assert m'.faces[plan.face.value].edge == Some(m.nextEdge + 1);
  }

  /** The faces the edges carry after the insertion: b the new face, a the old one. */
  lemma AddedLabels(m: Mesh, v1: int, v2: int, plan: Plan, a: seq<int>, b: seq<int>)
    requires Fresh(m)
    requires SplitsOneFace(m, plan, a, b)
    ensures plan.prev1 in m.edges && plan.prev2 in m.edges
    ensures forall x :: x in b ==> x in Added(m, v1, v2, plan, b).edges && Added(m, v1, v2, plan, b).edges[x].face == Some(m.nextFace)
    ensures forall x :: x in a ==> x in Added(m, v1, v2, plan, b).edges && Added(m, v1, v2, plan, b).edges[x].face == plan.face
  {
    ArcFacts(m, plan, a, b);
    AddedEdges(m, v1, v2, plan, a, b);
    forall x | x in a
      ensures x in Added(m, v1, v2, plan, b).edges && Added(m, v1, v2, plan, b).edges[x].face == plan.face
    {
      var i :| 0 <= i < |a| && a[i] == x;
      assert (a + b)[i] == x;
    }
  }

  /** `addHalfEdges` splits the face: the new face's boundary is `left` followed by
      the arc b, all labelled with the new face, and the old face keeps `right`
      followed by the arc a. */
  lemma AddSplitsFace(m: Mesh, v1: int, v2: int, plan: Plan, a: seq<int>, b: seq<int>)
    requires Valid(m)
    requires Splice(m, v1, v2) == Ok(plan)
    requires SplitsOneFace(m, plan, a, b)
    ensures AddHalfEdges(m, v1, v2).Ok?
    ensures var m' := AddHalfEdges(m, v1, v2).value;
            && FaceCycle(m', m.nextFace) == Ok([m.nextEdge] + b)
            && FaceCycle(m', plan.face.value) == Ok([m.nextEdge + 1] + a)
            && GetEdgeCount(m', m.nextFace) == Ok(|b| + 1)
            && GetEdgeCount(m', plan.face.value) == Ok(|a| + 1)
            && (forall x :: x in b ==> x in m'.edges && m'.edges[x].face == Some(m.nextFace))
            && (forall x :: x in a ==> x in m'.edges && m'.edges[x].face == plan.face)
  {
    ValidFacts(m, plan, a, b);
    AddDoesSplice(m, v1, v2, plan, a, b);
    AddedCycles(m, v1, v2, plan, a, b);
    AddedLabels(m, v1, v2, plan, a, b);
    var m' := Added(m, v1, v2, plan, b);
    assert AddHalfEdges(m, v1, v2).value == m';
    assert GetEdgeCount(m', m.nextFace) == Ok(|b| + 1);
    assert GetEdgeCount(m', plan.face.value) == Ok(|a| + 1);
  }
}
