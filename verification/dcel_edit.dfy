/** The two mutations of the half-edge mesh: `addHalfEdges` splits a face with a
    diagonal, `removeHalfEdges` deletes a diagonal and merges its two faces. */
module DcelEdit {
  import opened Wrappers
  import opened Walk
  import opened Dcel

  /** Give every edge of c the face f; nothing else changes. */
  function Relabel(edges: map<int, HalfEdge>, c: seq<int>, f: Option<int>): (r: map<int, HalfEdge>)
    ensures r.Keys == edges.Keys
    ensures forall e :: e in r ==> r[e] == (if e in c then edges[e].(face := f) else edges[e])
  {
    map e | e in edges :: if e in c then edges[e].(face := f) else edges[e]
  }

  /** Relabelling faces leaves every `next` pointer as it was. */
  lemma RelabelKeepsNext(edges: map<int, HalfEdge>, c: seq<int>, f: Option<int>)
    ensures NextMap(Relabel(edges, c, f)) == NextMap(edges)
  {
  }

  /** `addHalfEdges(v1, v2)`: find where the diagonal goes (`Splice`), then insert it. */
  function AddHalfEdges(m: Mesh, v1: int, v2: int): Result<Mesh, Fault> {
    var plan :- Splice(m, v1, v2);
    Insert(m, v1, v2, plan)
  }

  /** The body of `addHalfEdges` once the split face and the edges into v1 and v2 are
      known: allocate a face and a twin pair `left` (v1 to v2, on the new face) and
      `right` (v2 to v1, on the split face); hook `left` in after the edge into v1 and
      `right` after the edge into v2; then give the new face to every edge on the
      cycle from `left` back to it. A null split face is dereferenced: `NoFace`. */
  function Insert(m: Mesh, v1: int, v2: int, plan: Plan): (r: Result<Mesh, Fault>)
    requires plan.prev1 in m.edges && plan.prev2 in m.edges
    ensures r.Ok? ==> plan.face.Some? && plan.face.value in m.faces
    ensures r.Ok? ==> r.value.vertices == m.vertices
    ensures r.Ok? ==> r.value.edges.Keys == m.edges.Keys + {m.nextEdge, m.nextEdge + 1}
    ensures r.Ok? ==> r.value.faces.Keys == m.faces.Keys + {m.nextFace}
    ensures r.Ok? ==> r.value.nextEdge == m.nextEdge + 2 && r.value.nextFace == m.nextFace + 1
    ensures r.Ok? ==> var left, right := r.value.edges[m.nextEdge], r.value.edges[m.nextEdge + 1];
                      && left.twin == m.nextEdge + 1 && right.twin == m.nextEdge
                      && left.origin == v1 && right.origin == v2
                      && left.face == Some(m.nextFace)
    ensures r.Ok? ==> r.value.faces[plan.face.value].edge == Some(m.nextEdge + 1)
    ensures m.nextFace !in m.faces && r.Ok? ==> r.value.faces[m.nextFace].edge == Some(m.nextEdge)
  {
    if plan.face.None? || plan.face.value !in m.faces then Err(NoFace)
    else
      var f, g, left, right := plan.face.value, m.nextFace, m.nextEdge, m.nextEdge + 1;
      var a1, a2 := m.edges[plan.prev1].next, m.edges[plan.prev2].next;
      var e2 := Hook(m.edges, plan, v1, v2, left, right, f, g);
      match Chain(NextMap(e2), a2, left)
      case None => Err(BrokenWalk)
      case Some(c) =>
        var faces := m.faces[g := Face(Some(left))][f := Face(Some(right))];
        Ok(Mesh(m.vertices, Relabel(e2, c, Some(g)), faces, m.nextVertex, m.nextEdge + 2, m.nextFace + 1))
  }

  /** The pointer surgery of `addHalfEdges`, before the relabelling walk. */
  function Hook(edges: map<int, HalfEdge>, plan: Plan, v1: int, v2: int, left: int, right: int, f: int, g: int): (r: map<int, HalfEdge>)
    requires plan.prev1 in edges && plan.prev2 in edges && left != right
    ensures r.Keys == edges.Keys + {left, right}
    ensures r[left].twin == right && r[right].twin == left
    ensures r[left].origin == v1 && r[right].origin == v2 && r[left].face == Some(g)
  {
    var a1, a2 := edges[plan.prev1].next, edges[plan.prev2].next;
    var e0 := edges[left := HalfEdge(right, v1, a2, Some(g))][right := HalfEdge(left, v2, a1, Some(f))];
    var e1 := e0[plan.prev1 := e0[plan.prev1].(next := left)];
    e1[plan.prev2 := e1[plan.prev2].(next := right)]
  }

  /** With fresh ids for the pair, the hooks leave every old record as it was except
      for the `next` of prev1 (now `left`) and prev2 (now `right`); `left` continues
      where prev2 used to and `right` where prev1 used to. */
  lemma HookRecords(edges: map<int, HalfEdge>, plan: Plan, v1: int, v2: int, left: int, right: int, f: int, g: int)
    requires plan.prev1 in edges && plan.prev2 in edges && left != right
    requires left !in edges && right !in edges
    ensures var r := Hook(edges, plan, v1, v2, left, right, f, g);
            && r[left] == HalfEdge(right, v1, edges[plan.prev2].next, Some(g))
            && r[right] == HalfEdge(left, v2, edges[plan.prev1].next, Some(f))
            && forall x :: x in edges ==>
                 r[x] == edges[x].(next := if x == plan.prev2 then right else if x == plan.prev1 then left else edges[x].next)
  {
  }

  /** The `next` pointer of edge x once `removeHalfEdges(e)` has relinked around e:
      the edge before e leads to the edge after the twin, the edge before the twin to
      the edge after e. */
  function NextAfterRemoval(edges: map<int, HalfEdge>, e: int, ePrev: int, tPrev: int, x: int): int
    requires e in edges && edges[e].twin in edges && x in edges
  {
    if x == tPrev then edges[e].next
    else if x == ePrev then edges[edges[e].twin].next
    else edges[x].next
  }

  /** The walk whose edges `removeHalfEdges(e)` hands the twin's face: from the edge after
      e, along the relinked pointers, up to the edge after the twin. */
  function MergedWalk(m: Mesh, e: int, ePrev: int, tPrev: int): Option<seq<int>>
    requires e in m.edges && m.edges[e].twin in m.edges && ePrev in m.edges && tPrev in m.edges
  {
    var t := m.edges[e].twin;
    Chain(NextMap(Relink(m.edges, ePrev, tPrev, m.edges[e].next, m.edges[t].next)), m.edges[e].next, m.edges[t].next)
  }

  /** m' is m with the diagonal e and its twin t removed, ePrev and tPrev being the edges
      before them: every surviving record keeps its twin and origin, takes its relinked
      `next`, and carries t's face when it lies on the merged walk c (lines 211-218 of
      `DCEL.hpp`); t's face now starts at the edge after e (line 213); the face e carries
      once the walk is relabelled is deleted and every other face is untouched (lines
      220-221); e and t are gone (lines 223-228). */
  predicate Merges(m: Mesh, e: int, ePrev: int, tPrev: int, c: seq<int>, m': Mesh)
    requires e in m.edges && m.edges[e].twin in m.edges
  {
    var t := m.edges[e].twin;
    var face := m.edges[t].face;
    var doomed := if e in c then face else m.edges[e].face;
    && face.Some?
    && m'.vertices == m.vertices
    && m'.nextVertex == m.nextVertex && m'.nextEdge == m.nextEdge && m'.nextFace == m.nextFace
    && m'.edges.Keys == m.edges.Keys - {e, t}
    && (forall x :: x in m'.edges ==>
          m'.edges[x] == HalfEdge(m.edges[x].twin, m.edges[x].origin, NextAfterRemoval(m.edges, e, ePrev, tPrev, x),
                                  if x in c then face else m.edges[x].face))
    && m'.faces.Keys == m.faces.Keys - (if doomed.Some? then {doomed.value} else {})
    && (forall k :: k in m'.faces ==> m'.faces[k] == if Some(k) == face then Face(Some(m.edges[e].next)) else m.faces[k])
  }

  /** `removeHalfEdges(e)`: link the edge before e to the edge after its twin and the
      edge before the twin to the edge after e; give the twin's face to the walk from
      e's successor up to the twin's successor; delete e, its twin and e's face. */
  function RemoveHalfEdges(m: Mesh, e: int): (r: Result<Mesh, Fault>)
    ensures r.Ok? ==> e in m.edges && m.edges[e].twin in m.edges
    ensures r.Ok? ==> r.value.vertices == m.vertices
    ensures r.Ok? ==> r.value.edges.Keys == m.edges.Keys - {e, m.edges[e].twin}
    ensures r.Ok? ==> r.value.faces.Keys <= m.faces.Keys && |m.faces.Keys - r.value.faces.Keys| <= 1
    ensures r.Ok? ==> GetPrevious(m, e).Ok? && GetPrevious(m, m.edges[e].twin).Ok?
    ensures r.Ok? ==> var ePrev, tPrev := GetPrevious(m, e).value, GetPrevious(m, m.edges[e].twin).value;
                      && m.edges[m.edges[e].twin].face.Some? && m.edges[m.edges[e].twin].face.value in m.faces
                      && MergedWalk(m, e, ePrev, tPrev).Some?
                      && Merges(m, e, ePrev, tPrev, MergedWalk(m, e, ePrev, tPrev).value, r.value)
  {
    if e !in m.edges || m.edges[e].twin !in m.edges then Err(NoEdge)
    else
      var t := m.edges[e].twin;
      var face := m.edges[t].face;
      var ePrev :- GetPrevious(m, e);
      var eNext := m.edges[e].next;
      var tPrev :- GetPrevious(m, t);
      var tNext := m.edges[t].next;
      var e2 := Relink(m.edges, ePrev, tPrev, eNext, tNext);
      if face.None? || face.value !in m.faces then Err(NoFace)
      else match Chain(NextMap(e2), eNext, tNext)
        case None => Err(BrokenWalk)
        case Some(c) =>
          var m' := Removed(m, e, ePrev, tPrev, c);
          LosesAtMostOneFace(m, e, ePrev, tPrev, c, m');
          Ok(m')
  }

  /** The removal deletes at most one face. */
  lemma LosesAtMostOneFace(m: Mesh, e: int, ePrev: int, tPrev: int, c: seq<int>, m': Mesh)
    requires e in m.edges && m.edges[e].twin in m.edges
    requires Merges(m, e, ePrev, tPrev, c, m')
    ensures m'.faces.Keys <= m.faces.Keys && |m.faces.Keys - m'.faces.Keys| <= 1
  {
    var t := m.edges[e].twin;
    var doomed := if e in c then m.edges[t].face else m.edges[e].face;
    var gone := if doomed.Some? then {doomed.value} else {};
    assert m.faces.Keys - m'.faces.Keys <= gone;
  }

  /** What `removeHalfEdges(e)` builds once the edges before e and its twin and the
      relabelling walk c are known. */
  function Removed(m: Mesh, e: int, ePrev: int, tPrev: int, c: seq<int>): (m': Mesh)
    requires e in m.edges && m.edges[e].twin in m.edges && ePrev in m.edges && tPrev in m.edges
    ensures var face := m.edges[m.edges[e].twin].face;
            face.Some? && face.value in m.faces ==> Merges(m, e, ePrev, tPrev, c, m')
  {
    var t := m.edges[e].twin;
    var face := m.edges[t].face;
    RelinkRecords(m.edges, ePrev, tPrev, m.edges[e].next, m.edges[t].next);
    var e3 := Relabel(Relink(m.edges, ePrev, tPrev, m.edges[e].next, m.edges[t].next), c, face);
    var faces := if face.Some? then m.faces[face.value := Face(Some(m.edges[e].next))] else m.faces;
    var doomed := e3[e].face;
    Mesh(m.vertices, e3 - {e, t}, if doomed.Some? then faces - {doomed.value} else faces,
         m.nextVertex, m.nextEdge, m.nextFace)
  }

  /** The pointer surgery of `removeHalfEdges`: the edge before e now leads to the edge
      after the twin, and the edge before the twin to the edge after e. */
  function Relink(edges: map<int, HalfEdge>, ePrev: int, tPrev: int, eNext: int, tNext: int): (r: map<int, HalfEdge>)
    requires ePrev in edges && tPrev in edges
    ensures r.Keys == edges.Keys
  {
    var e1 := edges[ePrev := edges[ePrev].(next := tNext)];
    e1[tPrev := e1[tPrev].(next := eNext)]
  }

  /** Relinking changes only the `next` of ePrev and tPrev. */
  lemma RelinkRecords(edges: map<int, HalfEdge>, ePrev: int, tPrev: int, eNext: int, tNext: int)
    requires ePrev in edges && tPrev in edges
    ensures var r := Relink(edges, ePrev, tPrev, eNext, tNext);
            forall x :: x in r ==>
              r[x] == edges[x].(next := if x == tPrev then eNext else if x == ePrev then tNext else edges[x].next)
  {
  }
}
