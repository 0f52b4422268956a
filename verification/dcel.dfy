/** The half-edge mesh of `AnimacionGaleriaArtes/DCEL.hpp`: vertices, half-edges and
    faces linked by pointers. Here the three lists are arenas keyed by the records'
    ids, a pointer is an id, and the unbounded exterior face (the source's null face
    pointer) is `None`. Deleting a record removes its key. */
module Dcel {
  import opened Wrappers
  import opened Geo
  import opened Walk

  /** A directed edge: its opposite twin, the vertex it leaves, the next edge around
      its face, and that face (`None` for the exterior). */
  datatype HalfEdge = HalfEdge(twin: int, origin: int, next: int, face: Option<int>)

  /** A vertex and one edge leaving it (`None` before any edge exists). */
  datatype Vertex = Vertex(point: Point, leaving: Option<int>)

  /** A bounded face and one edge on its boundary. */
  datatype Face = Face(edge: Option<int>)

  /** The mesh: the three arenas and the id counters `next_vertex_id`,
      `next_halfedge_id`, `next_face_id`. */
  datatype Mesh = Mesh(
    vertices: map<int, Vertex>,
    edges: map<int, HalfEdge>,
    faces: map<int, Face>,
    nextVertex: nat,
    nextEdge: nat,
    nextFace: nat)

  /** Why an operation is abandoned: a missing vertex, a null or deleted edge or face
      pointer, or a walk that never returns to where it should stop. */
  datatype Fault = NoVertex | NoEdge | NoFace | BrokenWalk

  // ---------------------------------------------------------------------------
  // Well-formedness
  // ---------------------------------------------------------------------------

  /** Edge e points only at live records, its twin is a different edge whose twin is e,
      and the edge after it starts where e ends (at its twin's origin). */
  predicate EdgeOk(m: Mesh, e: int)
    requires e in m.edges
  {
    var h := m.edges[e];
    && h.twin in m.edges && h.twin != e && m.edges[h.twin].twin == e
    && h.next in m.edges
    && h.origin in m.vertices
    && (h.face.Some? ==> h.face.value in m.faces)
    && m.edges[h.next].origin == m.edges[h.twin].origin
  }

  /** A vertex's leaving edge is live and leaves it. */
  predicate VertexOk(m: Mesh, v: int)
    requires v in m.vertices
  {
    var l := m.vertices[v].leaving;
    l.Some? ==> l.value in m.edges && m.edges[l.value].origin == v
  }

  /** A face's boundary edge is live. */
  predicate FaceOk(m: Mesh, f: int)
    requires f in m.faces
  {
    m.faces[f].edge.Some? ==> m.faces[f].edge.value in m.edges
  }

  /** The invariant of a mesh: every record consistent and every id below its counter,
      so that the next id handed out is fresh. */
  predicate Valid(m: Mesh) {
    && (forall v :: v in m.vertices ==> 0 <= v < m.nextVertex)
    && (forall e :: e in m.edges ==> 0 <= e < m.nextEdge)
    && (forall f :: f in m.faces ==> 0 <= f < m.nextFace)
    && (forall v {:trigger VertexOk(m, v)} :: v in m.vertices ==> VertexOk(m, v))
    && (forall e {:trigger EdgeOk(m, e)} :: e in m.edges ==> EdgeOk(m, e))
    && (forall f {:trigger FaceOk(m, f)} :: f in m.faces ==> FaceOk(m, f))
  }

  /** Edge e ends at vertex v. */
  predicate EndsAt(m: Mesh, e: int, v: int) {
    e in m.edges && m.edges[e].twin in m.edges && m.edges[m.edges[e].twin].origin == v
  }

  /** Edge e starts or ends at vertex v. */
  predicate Touches(m: Mesh, e: int, v: int) {
    e in m.edges && (m.edges[e].origin == v || EndsAt(m, e, v))
  }

  // ---------------------------------------------------------------------------
  // One-step maps for the traversals
  // ---------------------------------------------------------------------------

  /** e -> e.next: around a face. */
  function NextMap(edges: map<int, HalfEdge>): map<int, int> {
    map e | e in edges :: edges[e].next
  }

  /** e -> e.next.twin: the next edge into the same vertex. */
  function RotInMap(edges: map<int, HalfEdge>): map<int, int> {
    map e | e in edges && edges[e].next in edges :: edges[edges[e].next].twin
  }

  /** e -> e.twin.next: the next edge out of the same vertex. */
  function RotOutMap(edges: map<int, HalfEdge>): map<int, int> {
    map e | e in edges && edges[e].twin in edges :: edges[edges[e].twin].next
  }

  /** Rotating from an edge into v gives another edge into v. */
  lemma RotInKeepsEnd(m: Mesh, v: int)
    requires Valid(m)
    ensures forall e :: e in RotInMap(m.edges) && EndsAt(m, e, v) ==> EndsAt(m, RotInMap(m.edges)[e], v)
  {
    forall e | e in RotInMap(m.edges) && EndsAt(m, e, v)
      ensures EndsAt(m, RotInMap(m.edges)[e], v)
    {
      assert EdgeOk(m, e);
      var n := m.edges[e].next;
      assert EdgeOk(m, n);
    }
  }

  /** Rotating from an edge out of v gives another edge out of v. */
  lemma RotOutKeepsOrigin(m: Mesh, v: int)
    requires Valid(m)
    ensures forall e :: e in RotOutMap(m.edges) && e in m.edges && m.edges[e].origin == v ==>
              RotOutMap(m.edges)[e] in m.edges && m.edges[RotOutMap(m.edges)[e]].origin == v
  {
    forall e | e in RotOutMap(m.edges) && e in m.edges && m.edges[e].origin == v
      ensures RotOutMap(m.edges)[e] in m.edges && m.edges[RotOutMap(m.edges)[e]].origin == v
    {
      assert EdgeOk(m, e);
      var t := m.edges[e].twin;
      assert EdgeOk(m, t);
    }
  }

  // ---------------------------------------------------------------------------
  // Queries
  // ---------------------------------------------------------------------------

  /** `getDestination`: the origin of the next edge. In a valid mesh this is where the
      twin starts. */
  function GetDestination(m: Mesh, e: int): (r: Result<int, Fault>)
    ensures Valid(m) && e in m.edges ==> EdgeOk(m, e) && r.Ok? && r.value == m.edges[m.edges[e].twin].origin
    ensures r.Ok? ==> r.value in m.vertices || !Valid(m)
  {
    assert Valid(m) && e in m.edges ==> EdgeOk(m, e);
    if e !in m.edges || m.edges[e].next !in m.edges then Err(NoEdge)
    else
      assert Valid(m) ==> EdgeOk(m, e) && EdgeOk(m, m.edges[e].next);
      Ok(m.edges[m.edges[e].next].origin)
  }

  /** `getPrevious`: the edge whose `next` is e, found by walking on from e.next. */
  function GetPrevious(m: Mesh, e: int): (r: Result<int, Fault>)
    ensures r.Ok? ==> r.value in m.edges && m.edges[r.value].next == e
  {
    if e !in m.edges then Err(NoEdge)
    else if m.edges[e].next == e then Ok(e)
    else
      match Find(NextMap(m.edges), m.edges[e].next, e, x => x in m.edges && m.edges[x].next == e, |m.edges|)
      case Found(p) => Ok(p)
      // the walk reaches e only through an edge whose next is e, which it would have found
      case NotFound => Err(BrokenWalk)
      case Broken => Err(BrokenWalk)
  }

  /** On a cycle of `next` pointers, `getPrevious` finds the edge before e on the cycle. */
  lemma GetPreviousOnCycle(m: Mesh, c: seq<int>)
    requires IsCycle(NextMap(m.edges), c)
    ensures GetPrevious(m, c[0]) == Ok(c[|c| - 1])
  {
    var succ := NextMap(m.edges);
    var e := c[0];
    assert e in succ;
    if |c| == 1 {
      assert m.edges[e].next == succ[e] == e;
    } else {
      assert succ[c[0]] == c[1];
      var rest := c[1..];
      assert forall i :: 0 <= i < |rest| ==> rest[i] == c[i + 1];
      assert IsPath(succ, rest, e) by {
        forall i | 0 <= i < |rest| - 1
          ensures succ[rest[i]] == rest[i + 1]
        {
          assert succ[c[i + 1]] == c[i + 2];
        }
      }
      assert Distinct(c);
      DistinctBound(c, succ.Keys);
      assert succ.Keys == m.edges.Keys;
      assert |succ.Keys| == |m.edges|;
      var p := x => x in m.edges && m.edges[x].next == e;
      FindOnPath(succ, rest, e, p, |m.edges|);
      LastMatch(succ, rest, e, p);
    }
  }

  /** On a path to e, the only edge whose successor is e is the last one. */
  lemma {:induction false} LastMatch(succ: map<int, int>, c: seq<int>, e: int, p: int -> bool)
    requires IsPath(succ, c, e) && |c| > 0
    requires forall x :: p(x) <==> x in succ && succ[x] == e
    ensures FirstMatch(c, p) == Found(c[|c| - 1])
  {
    if |c| > 1 {
      assert succ[c[0]] == c[1] && c[1] != e;
      PathSuffix(succ, c, e, 1);
      LastMatch(succ, c[1..], e, p);
    }
  }

  /** The boundary of face f: its reference edge and the `next` walk back to it. A face
      without a reference edge has an empty boundary. */
  function FaceCycle(m: Mesh, f: int): (r: Result<seq<int>, Fault>)
    ensures r.Ok? ==> f in m.faces && (r.value == [] <==> m.faces[f].edge.None?)
    ensures r.Ok? && r.value != [] ==> IsCycle(NextMap(m.edges), r.value) && m.faces[f].edge == Some(r.value[0])
  {
    if f !in m.faces then Err(NoFace)
    else match m.faces[f].edge
      case None => Ok([])
      case Some(s) =>
        if s !in m.edges then Err(NoEdge)
        else match Chain(NextMap(m.edges), m.edges[s].next, s)
          case None => Err(BrokenWalk)
          case Some(c) =>
            WalkGivesPath(NextMap(m.edges), m.edges[s].next, s, |NextMap(m.edges)|, c);
            CycleFromPath(NextMap(m.edges), s, c);
            Ok([s] + c)
  }

  /** `getEdgeCount`: the number of edges around face f, 0 when it has no reference
      edge; otherwise the length of the `next` cycle through that edge. */
  function GetEdgeCount(m: Mesh, f: int): (r: Result<nat, Fault>)
    ensures r.Ok? ==> f in m.faces && (r.value == 0 <==> m.faces[f].edge.None?)
    ensures r.Ok? && r.value > 0 ==>
              exists c :: IsCycle(NextMap(m.edges), c) && |c| == r.value && m.faces[f].edge == Some(c[0])
  {
    var c :- FaceCycle(m, f);
    Ok(|c|)
  }

  /** No edge on the rotation around v, starting at its leaving edge, ends at node. */
  predicate RotationMisses(m: Mesh, v: int, node: int)
    requires v in m.vertices && m.vertices[v].leaving.Some?
  {
    var l := m.vertices[v].leaving.value;
    var rout := RotOutMap(m.edges);
    && !EndsAt(m, l, node)
    && l in rout
    && var w := Chain(rout, rout[l], l);
       w.Some? && forall i :: 0 <= i < |w.value| ==> !EndsAt(m, w.value[i], node)
  }

  /** `Vertex::getEdgeTo`: an edge from v to node, searched among the edges leaving v by
      rotating `e -> e.twin.next` from v's leaving edge; `None` when v has no leaving
      edge or the rotation returns without finding one. */
  function GetEdgeTo(m: Mesh, v: int, node: int): (r: Result<Option<int>, Fault>)
    ensures r.Ok? ==> v in m.vertices
    ensures r.Ok? && r.value.Some? ==> EndsAt(m, r.value.value, node)
    ensures Valid(m) && r.Ok? && r.value.Some? ==> m.edges[r.value.value].origin == v
    ensures r.Ok? && r.value.None? ==> m.vertices[v].leaving.None? || RotationMisses(m, v, node)
  {
    if v !in m.vertices then Err(NoVertex)
    else match m.vertices[v].leaving
      case None => Ok(None)
      case Some(l) =>
        if l !in m.edges || m.edges[l].twin !in m.edges then Err(NoEdge)
        else if EndsAt(m, l, node) then
          assert Valid(m) ==> VertexOk(m, v);
          Ok(Some(l))
        else
          var rout := RotOutMap(m.edges);
          var p := x => EndsAt(m, x, node);
          match Find(rout, rout[l], l, p, |rout|)
          case Found(e) =>
            assert Valid(m) ==> m.edges[e].origin == v by {
              if Valid(m) {
                RotOutKeepsOrigin(m, v);
                assert VertexOk(m, v) && EdgeOk(m, l);
                FindKeeps(rout, rout[l], l, p, |rout|, x => x in m.edges && m.edges[x].origin == v);
              }
            }
            Ok(Some(e))
          case NotFound =>
            FindNotFound(rout, rout[l], l, p, |rout|);
            Ok(None)
          case Broken => Err(BrokenWalk)
  }

  /** The twin of v's leaving edge: the edge into v that the rotations of
      `getPreviousEdge` and `getReferenceFace` start after and stop at. */
  function LeavingTwin(m: Mesh, v: int): int
    requires v in m.vertices && m.vertices[v].leaving.Some? && m.vertices[v].leaving.value in m.edges
  {
    m.edges[m.vertices[v].leaving.value].twin
  }

  /** Edge x lies on face f. */
  predicate OnFace(m: Mesh, x: int, f: Option<int>) {
    x in m.edges && m.edges[x].face == f
  }

  /** The rotation `e -> e.next.twin` around v, from the edge after the twin of v's
      leaving edge back to that twin, ends and meets no edge on face f. */
  predicate RotationOffFace(m: Mesh, v: int, f: Option<int>)
    requires v in m.vertices && m.vertices[v].leaving.Some? && m.vertices[v].leaving.value in m.edges
  {
    var rin, t := RotInMap(m.edges), LeavingTwin(m, v);
    && t in rin
    && var w := Chain(rin, rin[t], t);
       w.Some? && forall i :: 0 <= i < |w.value| ==> !OnFace(m, w.value[i], f)
  }

  /** The same rotation reaches e before returning to the twin, and no edge it passes
      on the way lies on face f. */
  predicate FirstOnRotation(m: Mesh, v: int, f: Option<int>, e: int)
    requires v in m.vertices && m.vertices[v].leaving.Some? && m.vertices[v].leaving.value in m.edges
  {
    var rin, t := RotInMap(m.edges), LeavingTwin(m, v);
    && t in rin
    && var w := Walk.Walk(rin, rin[t], e, |rin|);
       w.Some? && t !in w.value && forall i :: 0 <= i < |w.value| ==> !OnFace(m, w.value[i], f)
  }

  /** `getPreviousEdge(v, f)`: rotating `e -> e.next.twin` through the edges into v,
      starting after the twin of v's leaving edge, the first one on face f; that twin
      itself when the rotation returns to it. */
  function GetPreviousEdge(m: Mesh, v: int, f: Option<int>): (r: Result<int, Fault>)
    ensures r.Ok? ==> v in m.vertices && m.vertices[v].leaving.Some? && m.vertices[v].leaving.value in m.edges
    ensures r.Ok? ==> r.value in m.edges
    ensures r.Ok? ==> m.edges[r.value].face == f || r.value == LeavingTwin(m, v)
    ensures r.Ok? && r.value != LeavingTwin(m, v) ==> OnFace(m, r.value, f) && FirstOnRotation(m, v, f, r.value)
    ensures r.Ok? && r.value == LeavingTwin(m, v) ==> RotationOffFace(m, v, f)
    ensures Valid(m) && r.Ok? ==> EndsAt(m, r.value, v)
  {
    if v !in m.vertices then Err(NoVertex)
    else match m.vertices[v].leaving
      case None => Err(NoEdge)
      case Some(l) =>
        var rin := RotInMap(m.edges);
        if l !in m.edges || m.edges[l].twin !in rin then Err(NoEdge)
        else
          var t := m.edges[l].twin;
          RotationSearch(m, v, f);
          RotationSearchEnds(m, v, f);
          match Find(rin, rin[t], t, x => OnFace(m, x, f), |rin|)
          case Found(e) => Ok(e)
          case NotFound => Ok(t)
          case Broken => Err(BrokenWalk)
  }

  /** The search of `getPreviousEdge`: a match is the first edge on f the rotation meets
      before returning to the twin; no match means the rotation meets none. */
  lemma RotationSearch(m: Mesh, v: int, f: Option<int>)
    requires v in m.vertices && m.vertices[v].leaving.Some? && m.vertices[v].leaving.value in m.edges
    requires LeavingTwin(m, v) in RotInMap(m.edges)
    ensures var rin, t := RotInMap(m.edges), LeavingTwin(m, v);
            var s := Find(rin, rin[t], t, x => OnFace(m, x, f), |rin|);
            && (s.Found? ==> s.at != t && OnFace(m, s.at, f) && FirstOnRotation(m, v, f, s.at))
            && (s.NotFound? ==> RotationOffFace(m, v, f))
  {
    var rin, t := RotInMap(m.edges), LeavingTwin(m, v);
    var p := x => OnFace(m, x, f);
    var s := Find(rin, rin[t], t, p, |rin|);
    if s.Found? {
      FindFound(rin, rin[t], t, p, |rin|);
    } else if s.NotFound? {
      FindNotFound(rin, rin[t], t, p, |rin|);
    }
  }

  /** In a valid mesh the rotation stays among the edges into v, so whatever the search
      of `getPreviousEdge` returns ends at v. */
  lemma RotationSearchEnds(m: Mesh, v: int, f: Option<int>)
    requires v in m.vertices && m.vertices[v].leaving.Some? && m.vertices[v].leaving.value in m.edges
    requires LeavingTwin(m, v) in RotInMap(m.edges)
    ensures var rin, t := RotInMap(m.edges), LeavingTwin(m, v);
            var s := Find(rin, rin[t], t, x => OnFace(m, x, f), |rin|);
            Valid(m) ==> EndsAt(m, t, v) && (s.Found? ==> EndsAt(m, s.at, v))
  {
    if Valid(m) {
      var rin, t := RotInMap(m.edges), LeavingTwin(m, v);
      var l := m.vertices[v].leaving.value;
      assert VertexOk(m, v) && EdgeOk(m, l);
      RotInKeepsEnd(m, v);
      FindKeeps(rin, rin[t], t, x => OnFace(m, x, f), |rin|, x => EndsAt(m, x, v));
    }
  }

  /** The result of the nested scan of `getReferenceFace`: an edge a into v1 and an edge
      b into v2 on the same face, or no such pair. */
  datatype Scan = Match(a: int, b: int) | NoMatch

  /** Edges x and y are live and on the same face. */
  predicate SameFace(m: Mesh, x: int, y: int) {
    x in m.edges && y in m.edges && m.edges[x].face == m.edges[y].face
  }

  /** The rotation from the edge after stop back to stop ends, and no edge on it shares a
      face with x. */
  predicate Apart(m: Mesh, succ: map<int, int>, x: int, stop: int) {
    && stop in succ
    && var w := Chain(succ, succ[stop], stop);
       w.Some? && forall j :: 0 <= j < |w.value| ==> !SameFace(m, x, w.value[j])
  }

  /** The nested loops of `getReferenceFace`: for each edge e1 of the rotation into v1
      (up to stop1), rotate through the edges into v2, from the one after stop2 back
      to stop2, looking for an edge with e1's face. No match means both rotations ran
      to their end and no pair shared a face. */
  function RefScan(m: Mesh, succ: map<int, int>, e1: int, stop1: int, stop2: int, fuel: nat): (r: Result<Scan, Fault>)
    ensures r.Ok? && r.value.Match? ==>
              r.value.a in m.edges && r.value.b in m.edges && m.edges[r.value.a].face == m.edges[r.value.b].face
    ensures r.Ok? && r.value.NoMatch? ==>
              var w := Walk.Walk(succ, e1, stop1, fuel);
              w.Some? && forall i :: 0 <= i < |w.value| ==> Apart(m, succ, w.value[i], stop2)
    decreases fuel
  {
    if e1 == stop1 then Ok(NoMatch)
    else if stop2 !in succ then Err(NoEdge)
    else
      match Find(succ, succ[stop2], stop2, x => SameFace(m, e1, x), |succ|)
      case Found(b) => Ok(Match(e1, b))
      case Broken => Err(BrokenWalk)
      case NotFound =>
        if fuel == 0 || e1 !in succ then Err(BrokenWalk)
        else
          var r := RefScan(m, succ, succ[e1], stop1, stop2, fuel - 1);
          RefScanStep(m, succ, e1, stop1, stop2, fuel, r);
          r
  }

  /** When the inner rotation finds no partner for e1 and the scan of the rest of the
      outer rotation finds no pair, the whole outer rotation is apart. */
  lemma RefScanStep(m: Mesh, succ: map<int, int>, e1: int, stop1: int, stop2: int, fuel: nat, r: Result<Scan, Fault>)
    requires e1 != stop1 && stop2 in succ && fuel > 0 && e1 in succ
    requires Find(succ, succ[stop2], stop2, x => SameFace(m, e1, x), |succ|) == NotFound
    requires r.Ok? && r.value.NoMatch? ==>
               var w := Walk.Walk(succ, succ[e1], stop1, fuel - 1);
               w.Some? && forall i :: 0 <= i < |w.value| ==> Apart(m, succ, w.value[i], stop2)
    ensures r.Ok? && r.value.NoMatch? ==>
              var w := Walk.Walk(succ, e1, stop1, fuel);
              w.Some? && forall i :: 0 <= i < |w.value| ==> Apart(m, succ, w.value[i], stop2)
  {
    if r.Ok? && r.value.NoMatch? {
      FindNotFound(succ, succ[stop2], stop2, x => SameFace(m, e1, x), |succ|);
      var rest := Walk.Walk(succ, succ[e1], stop1, fuel - 1).value;
      var w := [e1] + rest;
      assert Apart(m, succ, e1, stop2);
      assert forall i :: 0 < i < |w| ==> w[i] == rest[i - 1];
    }
  }

  /** Properties the rotation preserves hold of the pair the scan matches. */
  lemma {:induction false} RefScanKeeps(m: Mesh, succ: map<int, int>, e1: int, stop1: int, stop2: int, fuel: nat,
                                        keep1: int -> bool, keep2: int -> bool)
    requires forall e :: e in succ && keep1(e) ==> keep1(succ[e])
    requires forall e :: e in succ && keep2(e) ==> keep2(succ[e])
    requires keep1(e1) && keep2(stop2)
    ensures var r := RefScan(m, succ, e1, stop1, stop2, fuel);
            r.Ok? && r.value.Match? ==> keep1(r.value.a) && keep2(r.value.b)
    decreases fuel
  {
    if e1 != stop1 && stop2 in succ {
      var p := x => SameFace(m, e1, x);
      FindKeeps(succ, succ[stop2], stop2, p, |succ|, keep2);
      if Find(succ, succ[stop2], stop2, p, |succ|).NotFound? && fuel > 0 && e1 in succ {
        RefScanKeeps(m, succ, succ[e1], stop1, stop2, fuel - 1, keep1, keep2);
      }
    }
  }

  /** Face f (possibly the exterior) borders an edge at v1 and an edge at v2. */
  predicate SharedFace(m: Mesh, v1: int, v2: int, f: Option<int>) {
    && (exists a :: a in m.edges && Touches(m, a, v1) && m.edges[a].face == f)
    && (exists b :: b in m.edges && Touches(m, b, v2) && m.edges[b].face == f)
  }

  /** The face of v's leaving edge. */
  function LeavingFace(m: Mesh, v: int): Option<int>
    requires v in m.vertices && m.vertices[v].leaving.Some? && m.vertices[v].leaving.value in m.edges
  {
    m.edges[m.vertices[v].leaving.value].face
  }

  /** The rotation into v1 ends, and no edge on it shares a face with an edge of the
      rotation into v2 (both rotations run `e -> e.next.twin` from the edge after the
      twin of the leaving edge back to that twin). */
  predicate NoSharedPair(m: Mesh, v1: int, v2: int)
    requires v1 in m.vertices && m.vertices[v1].leaving.Some? && m.vertices[v1].leaving.value in m.edges
    requires v2 in m.vertices && m.vertices[v2].leaving.Some? && m.vertices[v2].leaving.value in m.edges
  {
    var rin, t1, t2 := RotInMap(m.edges), LeavingTwin(m, v1), LeavingTwin(m, v2);
    && t1 in rin
    && var w := Chain(rin, rin[t1], t1);
       w.Some? && forall i :: 0 <= i < |w.value| ==> Apart(m, rin, w.value[i], t2)
  }

  /** `getReferenceFace(v1, v2)`: the face of v1's leaving edge when v2's leaving edge has
      the same face; otherwise the face of the first edge into v1 that shares its face
      with an edge into v2, neither being the twin of its vertex's leaving edge, which
      the loops never visit; failing that, the face of v1's leaving edge again. In a
      valid mesh the result is a face at both vertices, or else the fallback, which then
      comes back only because no edge of v1's rotation other than that twin shares a face
      with an edge of v2's rotation other than its twin. */
  function GetReferenceFace(m: Mesh, v1: int, v2: int): (r: Result<Option<int>, Fault>)
    ensures r.Ok? ==> v1 in m.vertices && m.vertices[v1].leaving.Some? && m.vertices[v1].leaving.value in m.edges
    ensures r.Ok? ==> v2 in m.vertices && m.vertices[v2].leaving.Some? && m.vertices[v2].leaving.value in m.edges
    ensures r.Ok? && LeavingFace(m, v1) == LeavingFace(m, v2) ==> r.value == LeavingFace(m, v1)
    ensures Valid(m) && r.Ok? ==>
              SharedFace(m, v1, v2, r.value) || (r.value == LeavingFace(m, v1) && NoSharedPair(m, v1, v2))
  {
    if v1 !in m.vertices || v2 !in m.vertices then Err(NoVertex)
    else if m.vertices[v1].leaving.None? || m.vertices[v2].leaving.None? then Err(NoEdge)
    else if m.vertices[v1].leaving.value !in m.edges || m.vertices[v2].leaving.value !in m.edges then Err(NoEdge)
    else if LeavingFace(m, v1) == LeavingFace(m, v2) then
      LeavingShared(m, v1, v2);
      Ok(LeavingFace(m, v1))
    else
      var rin, t1, t2 := RotInMap(m.edges), LeavingTwin(m, v1), LeavingTwin(m, v2);
      if t1 !in rin then Err(NoEdge)
      else
        var s :- RefScan(m, rin, rin[t1], t1, t2, |rin|);
        ScanShared(m, v1, v2);
        match s
        case NoMatch => Ok(LeavingFace(m, v1))
        case Match(a, _) => Ok(m.edges[a].face)
  }

  /** In a valid mesh two leaving edges on one face make it a face at both vertices. */
  lemma LeavingShared(m: Mesh, v1: int, v2: int)
    requires v1 in m.vertices && m.vertices[v1].leaving.Some? && m.vertices[v1].leaving.value in m.edges
    requires v2 in m.vertices && m.vertices[v2].leaving.Some? && m.vertices[v2].leaving.value in m.edges
    requires LeavingFace(m, v1) == LeavingFace(m, v2)
    ensures Valid(m) ==> SharedFace(m, v1, v2, LeavingFace(m, v1))
  {
    if Valid(m) {
      var l1, l2 := m.vertices[v1].leaving.value, m.vertices[v2].leaving.value;
      assert VertexOk(m, v1) && VertexOk(m, v2);
      assert Touches(m, l1, v1) && Touches(m, l2, v2);
    }
  }

  /** The nested scan of `getReferenceFace`: a match is a face at both vertices in a
      valid mesh; no match means no pair of edges into v1 and into v2 shares a face. */
  lemma ScanShared(m: Mesh, v1: int, v2: int)
    requires v1 in m.vertices && m.vertices[v1].leaving.Some? && m.vertices[v1].leaving.value in m.edges
    requires v2 in m.vertices && m.vertices[v2].leaving.Some? && m.vertices[v2].leaving.value in m.edges
    requires LeavingTwin(m, v1) in RotInMap(m.edges)
    ensures var rin, t1, t2 := RotInMap(m.edges), LeavingTwin(m, v1), LeavingTwin(m, v2);
            var r := RefScan(m, rin, rin[t1], t1, t2, |rin|);
            && (r.Ok? && r.value.NoMatch? ==> NoSharedPair(m, v1, v2))
            && (r.Ok? && r.value.Match? && Valid(m) ==> SharedFace(m, v1, v2, m.edges[r.value.a].face))
  {
    var rin, t1, t2 := RotInMap(m.edges), LeavingTwin(m, v1), LeavingTwin(m, v2);
    var r := RefScan(m, rin, rin[t1], t1, t2, |rin|);
    if r.Ok? && r.value.Match? && Valid(m) {
      var l1, l2 := m.vertices[v1].leaving.value, m.vertices[v2].leaving.value;
      assert VertexOk(m, v1) && VertexOk(m, v2) && EdgeOk(m, l1) && EdgeOk(m, l2);
      RotInKeepsEnd(m, v1);
      RotInKeepsEnd(m, v2);
      assert EndsAt(m, t1, v1) && EndsAt(m, t2, v2);
      RefScanKeeps(m, rin, rin[t1], t1, t2, |rin|, x => EndsAt(m, x, v1), x => EndsAt(m, x, v2));
      assert Touches(m, r.value.a, v1) && Touches(m, r.value.b, v2);
    }
  }

  /** Where `addHalfEdges(v1, v2)` splices the diagonal in: the face it splits and the
      edges into v1 and into v2 on that face's boundary. */
  datatype Plan = Plan(face: Option<int>, prev1: int, prev2: int)

  function Splice(m: Mesh, v1: int, v2: int): (r: Result<Plan, Fault>)
    ensures r.Ok? ==> r.value.prev1 in m.edges && r.value.prev2 in m.edges
    ensures r.Ok? ==> v1 in m.vertices && v2 in m.vertices
    ensures Valid(m) && r.Ok? ==> EndsAt(m, r.value.prev1, v1) && EndsAt(m, r.value.prev2, v2)
  {
    var f :- GetReferenceFace(m, v1, v2);
    var p1 :- GetPreviousEdge(m, v1, f);
    var p2 :- GetPreviousEdge(m, v2, f);
    Ok(Plan(f, p1, p2))
  }
}
