/** The mesh invariant `Dcel.Valid` under the two mutations. `addHalfEdges` keeps it
    whatever the plan, as long as the hook edges end at v1 and v2, which `Splice`
    guarantees in a valid mesh. `removeHalfEdges` keeps it only on a mesh with the
    structure a half-edge mesh is meant to have (each edge the `next` of exactly one
    edge, faces labelled consistently around their boundary) and for an edge that is
    really a diagonal: the source updates no vertex's `leaving` pointer and no other
    face's reference edge, and deletes e's face outright. */
module DcelValid {
  import opened Wrappers
  import opened Walk
  import opened Dcel
  import opened DcelEdit
  import opened DcelRoundTrip

  /** Record x, if present, is well formed and below the edge counter. */
  predicate EdgeOkIfIn(m: Mesh, x: int) {
    x in m.edges ==> 0 <= x < m.nextEdge && EdgeOk(m, x)
  }

  /** The invariant from its parts, one record at a time. */
  lemma ValidIntro(m: Mesh)
    requires forall v {:trigger VertexOk(m, v)} :: v in m.vertices ==> 0 <= v < m.nextVertex && VertexOk(m, v)
    requires forall x {:trigger EdgeOkIfIn(m, x)} :: EdgeOkIfIn(m, x)
    requires forall k {:trigger FaceOk(m, k)} :: k in m.faces ==> 0 <= k < m.nextFace && FaceOk(m, k)
    ensures Valid(m)
  {
    forall v | v in m.vertices
      ensures 0 <= v < m.nextVertex
    {
      assert VertexOk(m, v);
    }
    forall x | x in m.edges
      ensures 0 <= x < m.nextEdge && EdgeOk(m, x)
    {
      assert EdgeOkIfIn(m, x);
    }
    forall k | k in m.faces
      ensures 0 <= k < m.nextFace
    {
      assert FaceOk(m, k);
    }
  }

  /** The pointer part of `EdgeOk`: the twin is a different edge whose twin is x, the
      next edge exists and starts where the twin starts, and the origin is a vertex. */
  predicate Links(edges: map<int, HalfEdge>, vertices: map<int, Vertex>, x: int)
    requires x in edges
  {
    var h := edges[x];
    && h.twin in edges && h.twin != x && edges[h.twin].twin == x
    && h.next in edges
    && h.origin in vertices
    && edges[h.next].origin == edges[h.twin].origin
  }

  // ---------------------------------------------------------------------------
  // Insertion
  // ---------------------------------------------------------------------------

  /** The hooks of `addHalfEdges` keep the pointers of record x consistent. */
  lemma HookLinksAt(m: Mesh, v1: int, v2: int, plan: Plan, f: int, g: int, x: int)
    requires m.nextEdge !in m.edges && m.nextEdge + 1 !in m.edges
    requires plan.prev1 in m.edges && plan.prev2 in m.edges && v1 in m.vertices && v2 in m.vertices
    requires EdgeOk(m, plan.prev1) && EdgeOk(m, plan.prev2)
    requires EndsAt(m, plan.prev1, v1) && EndsAt(m, plan.prev2, v2)
    requires x in m.edges ==> EdgeOk(m, x)
    requires x in Hook(m.edges, plan, v1, v2, m.nextEdge, m.nextEdge + 1, f, g)
    ensures Links(Hook(m.edges, plan, v1, v2, m.nextEdge, m.nextEdge + 1, f, g), m.vertices, x)
  {
    var left, right := m.nextEdge, m.nextEdge + 1;
    HookRecords(m.edges, plan, v1, v2, left, right, f, g);
    var e2 := Hook(m.edges, plan, v1, v2, left, right, f, g);
    var p1, p2 := plan.prev1, plan.prev2;
    if x == left {
      var a2 := m.edges[p2].next;
      assert e2[a2].origin == m.edges[a2].origin == v2;
    } else if x == right {
      var a1 := m.edges[p1].next;
      assert e2[a1].origin == m.edges[a1].origin == v1;
    } else {
      var h := m.edges[x];
      assert e2[h.twin] == m.edges[h.twin].(next := e2[h.twin].next);
      if x != p1 && x != p2 {
        assert e2[h.next].origin == m.edges[h.next].origin;
      }
    }
  }

  /** The hooks of `addHalfEdges` keep every record's pointers consistent. */
  lemma HookLinks(m: Mesh, v1: int, v2: int, plan: Plan, f: int, g: int)
    requires Valid(m)
    requires plan.prev1 in m.edges && plan.prev2 in m.edges && v1 in m.vertices && v2 in m.vertices
    requires EndsAt(m, plan.prev1, v1) && EndsAt(m, plan.prev2, v2)
    ensures var e2 := Hook(m.edges, plan, v1, v2, m.nextEdge, m.nextEdge + 1, f, g);
            forall x {:trigger Links(e2, m.vertices, x)} :: x in e2 ==> Links(e2, m.vertices, x)
  {
    var e2 := Hook(m.edges, plan, v1, v2, m.nextEdge, m.nextEdge + 1, f, g);
    assert m.nextEdge !in m.edges && m.nextEdge + 1 !in m.edges;
    assert EdgeOk(m, plan.prev1) && EdgeOk(m, plan.prev2);
    forall x | x in e2
      ensures Links(e2, m.vertices, x)
    {
      assert x in m.edges ==> EdgeOk(m, x);
      HookLinksAt(m, v1, v2, plan, f, g, x);
    }
  }

  /** Relabelling faces keeps every record's pointers consistent. */
  lemma RelabelLinks(edges: map<int, HalfEdge>, vertices: map<int, Vertex>, c: seq<int>, f: Option<int>)
    requires forall x {:trigger Links(edges, vertices, x)} :: x in edges ==> Links(edges, vertices, x)
    ensures forall x {:trigger Links(Relabel(edges, c, f), vertices, x)} :: x in Relabel(edges, c, f) ==> Links(Relabel(edges, c, f), vertices, x)
  {
    var r := Relabel(edges, c, f);
    forall x | x in r
      ensures Links(r, vertices, x)
    {
      assert Links(edges, vertices, x);
      var h := edges[x];
      assert r[x].twin == h.twin && r[x].next == h.next && r[x].origin == h.origin;
      assert r[h.twin].twin == x && r[h.twin].origin == edges[h.twin].origin;
      assert r[h.next].origin == edges[h.next].origin;
    }
  }

  /** A vertex of the inserted mesh keeps its leaving edge, which still leaves it. */
  lemma AddedVertexOk(m: Mesh, v1: int, v2: int, plan: Plan, c: seq<int>, v: int)
    requires m.nextEdge !in m.edges && m.nextEdge + 1 !in m.edges
    requires plan.prev1 in m.edges && plan.prev2 in m.edges && plan.face.Some?
    requires v in m.vertices && VertexOk(m, v)
    ensures VertexOk(Added(m, v1, v2, plan, c), v)
  {
    HookRecords(m.edges, plan, v1, v2, m.nextEdge, m.nextEdge + 1, plan.face.value, m.nextFace);
  }

  /** A face of the inserted mesh has a live reference edge. */
  lemma AddedFaceOk(m: Mesh, v1: int, v2: int, plan: Plan, c: seq<int>, k: int)
    requires plan.prev1 in m.edges && plan.prev2 in m.edges && plan.face.Some? && plan.face.value in m.faces
    requires m.nextFace !in m.faces
    requires k in Added(m, v1, v2, plan, c).faces
    requires k in m.faces ==> FaceOk(m, k) && 0 <= k < m.nextFace
    ensures 0 <= k < Added(m, v1, v2, plan, c).nextFace && FaceOk(Added(m, v1, v2, plan, c), k)
  {
  }

  /** The requirements the insertion lemmas share: a valid mesh, hook edges ending at
      v1 and v2 on a live face, and the walk the insertion relabels. */
  predicate Plans(m: Mesh, v1: int, v2: int, plan: Plan, c: seq<int>) {
    && Valid(m)
    && plan.prev1 in m.edges && plan.prev2 in m.edges && v1 in m.vertices && v2 in m.vertices
    && EndsAt(m, plan.prev1, v1) && EndsAt(m, plan.prev2, v2)
    && plan.face.Some? && plan.face.value in m.faces
    && Chain(NextMap(Hook(m.edges, plan, v1, v2, m.nextEdge, m.nextEdge + 1, plan.face.value, m.nextFace)),
             m.edges[plan.prev2].next, m.nextEdge) == Some(c)
  }

  lemma AddedVerticesOk(m: Mesh, v1: int, v2: int, plan: Plan, c: seq<int>)
    requires Plans(m, v1, v2, plan, c)
    ensures var m' := Added(m, v1, v2, plan, c);
            forall v {:trigger VertexOk(m', v)} :: v in m'.vertices ==> 0 <= v < m'.nextVertex && VertexOk(m', v)
  {
    var m' := Added(m, v1, v2, plan, c);
    assert m.nextEdge !in m.edges && m.nextEdge + 1 !in m.edges;
    forall v | v in m'.vertices
      ensures 0 <= v < m'.nextVertex && VertexOk(m', v)
    {
      assert VertexOk(m, v);
      AddedVertexOk(m, v1, v2, plan, c, v);
    }
  }

  lemma AddedLinks(m: Mesh, v1: int, v2: int, plan: Plan, c: seq<int>)
    requires Valid(m)
    requires plan.prev1 in m.edges && plan.prev2 in m.edges && v1 in m.vertices && v2 in m.vertices
    requires EndsAt(m, plan.prev1, v1) && EndsAt(m, plan.prev2, v2) && plan.face.Some?
    ensures var m' := Added(m, v1, v2, plan, c);
            forall x {:trigger Links(m'.edges, m.vertices, x)} :: x in m'.edges ==> Links(m'.edges, m.vertices, x)
  {
    var f, g, left := plan.face.value, m.nextFace, m.nextEdge;
    var e2 := Hook(m.edges, plan, v1, v2, left, left + 1, f, g);
    HookLinks(m, v1, v2, plan, f, g);
    RelabelLinks(e2, m.vertices, c, Some(g));
  }

  /** The inserted mesh has the two new records and the new face, and nothing else new. */
  lemma AddedKeys(m: Mesh, v1: int, v2: int, plan: Plan, c: seq<int>)
    requires plan.prev1 in m.edges && plan.prev2 in m.edges && plan.face.Some? && plan.face.value in m.faces
    ensures var m' := Added(m, v1, v2, plan, c);
            && m'.vertices == m.vertices && m'.faces.Keys == m.faces.Keys + {m.nextFace}
            && m'.edges.Keys == m.edges.Keys + {m.nextEdge, m.nextEdge + 1} && m'.nextEdge == m.nextEdge + 2
  {
  }

  /** Record x of m' lies on the new face, on face f, or on the face it lay on in m. */
  predicate FaceFrom(m: Mesh, m': Mesh, f: int, x: int)
    requires x in m'.edges
  {
    m'.edges[x].face == Some(m.nextFace) || m'.edges[x].face == Some(f) ||
    (x in m.edges && m'.edges[x].face == m.edges[x].face)
  }

  /** Every record of the inserted mesh lies on the new face, on the split face, or on
      the face it lay on before. */
  lemma AddedFaceChoices(m: Mesh, v1: int, v2: int, plan: Plan, c: seq<int>)
    requires m.nextEdge !in m.edges && m.nextEdge + 1 !in m.edges
    requires plan.prev1 in m.edges && plan.prev2 in m.edges && plan.face.Some?
    ensures var m' := Added(m, v1, v2, plan, c);
            forall x {:trigger FaceFrom(m, m', plan.face.value, x)} :: x in m'.edges ==> FaceFrom(m, m', plan.face.value, x)
  {
    var m' := Added(m, v1, v2, plan, c);
    HookRecords(m.edges, plan, v1, v2, m.nextEdge, m.nextEdge + 1, plan.face.value, m.nextFace);
    forall x | x in m'.edges
      ensures FaceFrom(m, m', plan.face.value, x)
    {
    }
  }

  /** Consistent pointers and faces drawn from live ones make every record well formed. */
  lemma AddedEdgesOk(m: Mesh, m': Mesh, f: int)
    requires f in m.faces && m'.faces.Keys == m.faces.Keys + {m.nextFace} && m'.vertices == m.vertices
    requires m'.edges.Keys == m.edges.Keys + {m.nextEdge, m.nextEdge + 1} && m'.nextEdge == m.nextEdge + 2
    requires Valid(m)
    requires forall x {:trigger Links(m'.edges, m.vertices, x)} :: x in m'.edges ==> Links(m'.edges, m.vertices, x)
    requires forall x {:trigger FaceFrom(m, m', f, x)} :: x in m'.edges ==> FaceFrom(m, m', f, x)
    ensures forall x {:trigger EdgeOkIfIn(m', x)} :: EdgeOkIfIn(m', x)
  {
    forall x
      ensures EdgeOkIfIn(m', x)
    {
      if x in m'.edges {
        assert Links(m'.edges, m.vertices, x) && FaceFrom(m, m', f, x);
        if x in m.edges {
          assert EdgeOk(m, x);
        }
      }
    }
  }

  lemma AddedFacesOk(m: Mesh, v1: int, v2: int, plan: Plan, c: seq<int>)
    requires Plans(m, v1, v2, plan, c)
    ensures var m' := Added(m, v1, v2, plan, c);
            forall k {:trigger FaceOk(m', k)} :: k in m'.faces ==> 0 <= k < m'.nextFace && FaceOk(m', k)
  {
    var m' := Added(m, v1, v2, plan, c);
    assert m.nextFace !in m.faces;
    forall k | k in m'.faces
      ensures 0 <= k < m'.nextFace && FaceOk(m', k)
    {
      assert k in m.faces ==> FaceOk(m, k) && 0 <= k < m.nextFace;
      AddedFaceOk(m, v1, v2, plan, c, k);
    }
  }

  /** The mesh `Added` builds from a valid mesh is valid. */
  lemma AddedValid(m: Mesh, v1: int, v2: int, plan: Plan, c: seq<int>)
    requires Plans(m, v1, v2, plan, c)
    ensures Valid(Added(m, v1, v2, plan, c))
  {
    var m' := Added(m, v1, v2, plan, c);
    AddedVerticesOk(m, v1, v2, plan, c);
    AddedLinks(m, v1, v2, plan, c);
    AddedFaceChoices(m, v1, v2, plan, c);
    AddedKeys(m, v1, v2, plan, c);
    AddedEdgesOk(m, m', plan.face.value);
    AddedFacesOk(m, v1, v2, plan, c);
    ValidIntro(m');
  }

  /** A successful insertion is `Added` along the walk it relabels. */
  lemma InsertIsAdded(m: Mesh, v1: int, v2: int, plan: Plan)
    requires plan.prev1 in m.edges && plan.prev2 in m.edges
    requires Insert(m, v1, v2, plan).Ok?
    ensures plan.face.Some? && plan.face.value in m.faces
    ensures var e2 := Hook(m.edges, plan, v1, v2, m.nextEdge, m.nextEdge + 1, plan.face.value, m.nextFace);
            var w := Chain(NextMap(e2), m.edges[plan.prev2].next, m.nextEdge);
            w.Some? && Insert(m, v1, v2, plan) == Ok(Added(m, v1, v2, plan, w.value))
  {
    var e2 := Hook(m.edges, plan, v1, v2, m.nextEdge, m.nextEdge + 1, plan.face.value, m.nextFace);
    var c := Chain(NextMap(e2), m.edges[plan.prev2].next, m.nextEdge).value;
    InsertFollows(m, v1, v2, plan, c);
  }

  /** The insertion itself keeps the invariant. */
  lemma InsertKeepsValid(m: Mesh, v1: int, v2: int, plan: Plan)
    requires Valid(m)
    requires plan.prev1 in m.edges && plan.prev2 in m.edges && v1 in m.vertices && v2 in m.vertices
    requires EndsAt(m, plan.prev1, v1) && EndsAt(m, plan.prev2, v2)
    requires Insert(m, v1, v2, plan).Ok?
    ensures Valid(Insert(m, v1, v2, plan).value)
  {
    InsertIsAdded(m, v1, v2, plan);
    var e2 := Hook(m.edges, plan, v1, v2, m.nextEdge, m.nextEdge + 1, plan.face.value, m.nextFace);
    var c := Chain(NextMap(e2), m.edges[plan.prev2].next, m.nextEdge).value;
    assert Plans(m, v1, v2, plan, c);
    AddedValid(m, v1, v2, plan, c);
  }

  /** `addHalfEdges` keeps the mesh invariant. */
  lemma AddKeepsValid(m: Mesh, v1: int, v2: int)
    requires Valid(m) && AddHalfEdges(m, v1, v2).Ok?
    ensures Valid(AddHalfEdges(m, v1, v2).value)
  {
    InsertKeepsValid(m, v1, v2, Splice(m, v1, v2).value);
  }

  // ---------------------------------------------------------------------------
  // Removal
  // ---------------------------------------------------------------------------

  /** Every edge is the `next` of at most one edge. */
  predicate NextInjective(m: Mesh) {
    forall x, y :: x in m.edges && y in m.edges && x != y ==> m.edges[x].next != m.edges[y].next
  }

  /** An edge and the edge after it lie on the same face. */
  predicate LabelsFollowNext(m: Mesh) {
    forall x :: x in m.edges && m.edges[x].next in m.edges ==> m.edges[m.edges[x].next].face == m.edges[x].face
  }

  /** A face's reference edge lies on that face. */
  predicate FacesOwnEdges(m: Mesh) {
    forall k :: k in m.faces && m.faces[k].edge.Some? && m.faces[k].edge.value in m.edges ==>
      m.edges[m.faces[k].edge.value].face == Some(k)
  }

  /** The walk from the edge after e back to e ends, and every other edge on e's face
      lies on it: the face has no boundary but e's cycle. */
  predicate BoundsItsFace(m: Mesh, e: int)
    requires e in m.edges
  {
    var w := Chain(NextMap(m.edges), m.edges[e].next, e);
    w.Some? && forall x :: x in m.edges && x != e && m.edges[x].face == m.edges[e].face ==> x in w.value
  }

  /** e is a diagonal that can be taken out: both its ends keep another edge, it
      separates two different faces, the bounded one of which e's cycle encloses, and
      no vertex leaves by it or by its twin. */
  predicate Removable(m: Mesh, e: int) {
    && e in m.edges && m.edges[e].twin in m.edges
    && var t := m.edges[e].twin;
       && m.edges[e].next != e && m.edges[e].next != t
       && m.edges[t].next != e && m.edges[t].next != t
       && m.edges[e].face != m.edges[t].face
       && (m.edges[e].face.Some? ==> BoundsItsFace(m, e))
       && forall v :: v in m.vertices ==> m.vertices[v].leaving != Some(e) && m.vertices[v].leaving != Some(t)
  }

  /** After the relinking nothing leads to e any more. */
  lemma NothingLeadsBack(m: Mesh, e: int, ePrev: int, tPrev: int)
    requires Valid(m) && NextInjective(m) && Removable(m, e)
    requires ePrev in m.edges && m.edges[ePrev].next == e
    requires tPrev in m.edges && m.edges[tPrev].next == m.edges[e].twin
    ensures forall x :: x in m.edges ==> NextAfterRemoval(m.edges, e, ePrev, tPrev, x) != e
  {
    forall x | x in m.edges
      ensures NextAfterRemoval(m.edges, e, ePrev, tPrev, x) != e
    {
      if x != tPrev && x != ePrev {
        assert m.edges[x].next != m.edges[ePrev].next;
      }
    }
  }

  /** The relabelling walk of the removal never meets e. */
  lemma {:induction false} WalkAvoids(succ: map<int, int>, c: seq<int>, stop: int, e: int)
    requires IsPath(succ, c, stop) && Start(c, stop) != e
    requires forall x :: x in succ ==> succ[x] != e
    ensures e !in c
  {
    if |c| > 1 {
      PathSuffix(succ, c, stop, 1);
      StepStart(succ, c, stop);
      WalkAvoids(succ, c[1..], stop, e);
      assert c == [c[0]] + c[1..];
    }
  }

  /** One step of `LabelsFollowNext`. */
  lemma LabelStep(m: Mesh, x: int)
    requires LabelsFollowNext(m) && x in m.edges && m.edges[x].next in m.edges
    ensures m.edges[m.edges[x].next].face == m.edges[x].face
  {
  }

  /** Along a walk of `next` pointers, every edge lies on the face of the first. */
  lemma {:induction false} PathLabels(m: Mesh, c: seq<int>, stop: int)
    requires LabelsFollowNext(m) && IsPath(NextMap(m.edges), c, stop) && |c| > 0
    ensures forall i :: 0 <= i < |c| ==> m.edges[c[i]].face == m.edges[c[0]].face
  {
    if |c| > 1 {
      var succ := NextMap(m.edges);
      PathSuffix(succ, c, stop, 1);
      PathLabels(m, c[1..], stop);
      assert c[0] in succ && succ[c[0]] == c[1] && c[1] in succ;
      assert m.edges[c[0]].next == c[1] && c[1] in m.edges;
      LabelStep(m, c[0]);
      forall i | 1 <= i < |c|
        ensures m.edges[c[i]].face == m.edges[c[0]].face
      {
        assert c[i] == c[1..][i - 1];
      }
    }
  }

  /** For a removable edge on a bounded face the relabelling walk of the removal is e's
      own cycle without e: the walk from the edge after e back to e. */
  lemma MergedWalkIsCycle(m: Mesh, e: int, ePrev: int, tPrev: int)
    requires Valid(m) && NextInjective(m) && LabelsFollowNext(m) && Removable(m, e)
    requires m.edges[e].face.Some?
    requires ePrev in m.edges && m.edges[ePrev].next == e
    requires tPrev in m.edges && m.edges[tPrev].next == m.edges[e].twin
    ensures MergedWalk(m, e, ePrev, tPrev) == Chain(NextMap(m.edges), m.edges[e].next, e)
  {
    var t := m.edges[e].twin;
    var eNext, tNext := m.edges[e].next, m.edges[t].next;
    var succ := NextMap(m.edges);
    assert EdgeOk(m, e) && EdgeOk(m, t);
    var p := Chain(succ, eNext, e).value;
    WalkGivesPath(succ, eNext, e, |succ|, p);
    assert |p| > 0;
    var last := p[|p| - 1];
    assert last in succ && succ[last] == e;
    assert m.edges[last].next == m.edges[ePrev].next;
    assert last == ePrev;
    PathLabels(m, p, e);
    assert m.edges[eNext].face == m.edges[e].face;
    assert m.edges[tPrev].face == m.edges[t].face && m.edges[tNext].face == m.edges[t].face;
    assert tPrev !in p && tNext !in p;
    PathDistinct(succ, p, e);
    RelinkRecords(m.edges, ePrev, tPrev, eNext, tNext);
    var r := NextMap(Relink(m.edges, ePrev, tPrev, eNext, tNext));
    assert IsPath(r, p, tNext) by {
      forall i | 0 <= i < |p| - 1
        ensures r[p[i]] == p[i + 1]
      {
        assert p[i] != ePrev;
        assert succ[p[i]] == p[i + 1];
      }
    }
    assert |r| == |succ| by {
      assert r.Keys == succ.Keys;
    }
    WalkFollowsPath(r, p, tNext, |r|);
  }

  /** The removal keeps every surviving record's pointers consistent. */
  lemma RemovedLinks(m: Mesh, e: int, ePrev: int, tPrev: int, c: seq<int>, m': Mesh)
    requires Valid(m) && NextInjective(m) && Removable(m, e)
    requires ePrev in m.edges && m.edges[ePrev].next == e
    requires tPrev in m.edges && m.edges[tPrev].next == m.edges[e].twin
    requires Merges(m, e, ePrev, tPrev, c, m')
    ensures forall x {:trigger Links(m'.edges, m'.vertices, x)} :: x in m'.edges ==> Links(m'.edges, m'.vertices, x)
  {
    var t := m.edges[e].twin;
    assert EdgeOk(m, e) && EdgeOk(m, t) && EdgeOk(m, ePrev) && EdgeOk(m, tPrev);
    forall x | x in m'.edges
      ensures Links(m'.edges, m'.vertices, x)
    {
      assert EdgeOk(m, x);
      var tw := m.edges[x].twin;
      assert tw != e && tw != t;
      if x != tPrev && x != ePrev {
        assert m.edges[x].next != m.edges[ePrev].next && m.edges[x].next != m.edges[tPrev].next;
      }
    }
  }

  /** The removal keeps every surviving record's face live and every face's reference
      edge live. */
  lemma RemovedFaces(m: Mesh, e: int, ePrev: int, tPrev: int, c: seq<int>, m': Mesh)
    requires Valid(m) && FacesOwnEdges(m) && Removable(m, e)
    requires e !in c
    requires m.edges[e].face.Some? ==> c == Chain(NextMap(m.edges), m.edges[e].next, e).value
    requires Merges(m, e, ePrev, tPrev, c, m')
    ensures forall x :: x in m'.edges && m'.edges[x].face.Some? ==> m'.edges[x].face.value in m'.faces
    ensures forall k :: k in m'.faces ==> 0 <= k < m'.nextFace && FaceOk(m', k)
  {
    var t := m.edges[e].twin;
    assert EdgeOk(m, e) && EdgeOk(m, t);
    forall x | x in m'.edges && m'.edges[x].face.Some?
      ensures m'.edges[x].face.value in m'.faces
    {
      assert EdgeOk(m, x);
    }
    forall k | k in m'.faces
      ensures 0 <= k < m'.nextFace && FaceOk(m', k)
    {
      assert FaceOk(m, k);
    }
  }

  /** The relabelling walk of a removal: it never meets e and, when e lies on a bounded
      face, it is e's cycle without e. */
  lemma RemovalWalk(m: Mesh, e: int, ePrev: int, tPrev: int, c: seq<int>)
    requires Valid(m) && NextInjective(m) && LabelsFollowNext(m) && Removable(m, e)
    requires ePrev in m.edges && m.edges[ePrev].next == e
    requires tPrev in m.edges && m.edges[tPrev].next == m.edges[e].twin
    requires MergedWalk(m, e, ePrev, tPrev) == Some(c)
    ensures e !in c
    ensures m.edges[e].face.Some? ==> c == Chain(NextMap(m.edges), m.edges[e].next, e).value
  {
    var t := m.edges[e].twin;
    var r := NextMap(Relink(m.edges, ePrev, tPrev, m.edges[e].next, m.edges[t].next));
    WalkGivesPath(r, m.edges[e].next, m.edges[t].next, |r|, c);
    NothingLeadsBack(m, e, ePrev, tPrev);
    RelinkRecords(m.edges, ePrev, tPrev, m.edges[e].next, m.edges[t].next);
    WalkAvoids(r, c, m.edges[t].next, e);
    if m.edges[e].face.Some? {
      MergedWalkIsCycle(m, e, ePrev, tPrev);
    }
  }

  /** The mesh a removal builds from a valid mesh is valid, given the shape of its
      relabelling walk. */
  lemma RemovedValid(m: Mesh, e: int, ePrev: int, tPrev: int, c: seq<int>, m': Mesh)
    requires Valid(m) && NextInjective(m) && FacesOwnEdges(m) && Removable(m, e)
    requires ePrev in m.edges && m.edges[ePrev].next == e
    requires tPrev in m.edges && m.edges[tPrev].next == m.edges[e].twin
    requires e !in c
    requires m.edges[e].face.Some? ==> c == Chain(NextMap(m.edges), m.edges[e].next, e).value
    requires Merges(m, e, ePrev, tPrev, c, m')
    ensures Valid(m')
  {
    RemovedLinks(m, e, ePrev, tPrev, c, m');
    RemovedFaces(m, e, ePrev, tPrev, c, m');
    var t := m.edges[e].twin;
    forall v | v in m'.vertices
      ensures 0 <= v < m'.nextVertex && VertexOk(m', v)
    {
      assert VertexOk(m, v);
      var l := m.vertices[v].leaving;
      if l.Some? {
        assert l.value != e && l.value != t;
        assert m'.edges[l.value].origin == m.edges[l.value].origin;
      }
    }
    forall x
      ensures EdgeOkIfIn(m', x)
    {
      if x in m'.edges {
        assert Links(m'.edges, m'.vertices, x);
      }
    }
    ValidIntro(m');
  }

  /** `removeHalfEdges` keeps the mesh invariant on a mesh with one predecessor per edge
      and consistent face labels, for an edge that is a removable diagonal. */
  lemma RemoveKeepsValid(m: Mesh, e: int)
    requires Valid(m) && NextInjective(m) && LabelsFollowNext(m) && FacesOwnEdges(m)
    requires Removable(m, e)
    requires RemoveHalfEdges(m, e).Ok?
    ensures Valid(RemoveHalfEdges(m, e).value)
  {
    var m' := RemoveHalfEdges(m, e).value;
    var t := m.edges[e].twin;
    var ePrev, tPrev := GetPrevious(m, e).value, GetPrevious(m, t).value;
    var c := MergedWalk(m, e, ePrev, tPrev).value;
    RemovalWalk(m, e, ePrev, tPrev, c);
    RemovedValid(m, e, ePrev, tPrev, c, m');
  }
}
