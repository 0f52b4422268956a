/** `DoubleConnectedEdgeList::init`: the mesh of a simple polygon given by its corners
    in order. Corner i becomes vertex i; the side from corner i to the next one becomes
    the pair of half-edges 2i (inside, on face 0) and 2i + 1 (outside, on the exterior),
    which is the order in which the constructor hands out ids. */
module DcelInit {
  import opened Wrappers
  import opened Geo
  import opened Walk
  import opened Dcel

  /** The corner before i, wrapping from the first to the last: the inverse of
      `Geo.Following`, the corner after i. */
  function Pred(i: int, n: int): (r: int)
    requires 0 <= i < n
    ensures 0 <= r < n && Following(r, n) == i
  {
    if i == 0 then n - 1 else i - 1
  }

  /** Half-edge e of the polygon with n corners: even ids are the inside edges, odd
      ids their outside twins. */
  function Side(n: int, e: int): HalfEdge
    requires 0 <= e < 2 * n
  {
    var i := e / 2;
    if e % 2 == 0 then HalfEdge(e + 1, i, 2 * Following(i, n), Some(0))
    else HalfEdge(e - 1, Following(i, n), 2 * Pred(i, n) + 1, None)
  }

  /** The inside edge of side i leaves corner i for the next corner's inside edge; its
      twin leaves the next corner for the previous side's outside edge. */
  lemma SideRecords(n: int, i: int)
    requires 0 <= i < n
    ensures Side(n, 2 * i) == HalfEdge(2 * i + 1, i, 2 * Following(i, n), Some(0))
    ensures Side(n, 2 * i + 1) == HalfEdge(2 * i, Following(i, n), 2 * Pred(i, n) + 1, None)
  {
    assert (2 * i) / 2 == i && (2 * i) % 2 == 0;
    assert (2 * i + 1) / 2 == i && (2 * i + 1) % 2 == 1;
  }

  /** Every id below 2n is the inside or the outside edge of some side. */
  lemma SideOf(n: int, e: int) returns (i: int)
    requires 0 <= e < 2 * n
    ensures 0 <= i < n && (e == 2 * i || e == 2 * i + 1)
  {
    i := e / 2;
  }

  /** The half-edges with ids below k, pushed in id order as the constructor's loop
      does. */
  function Sides(n: int, k: nat): (r: map<int, HalfEdge>)
    requires k <= 2 * n
    ensures forall e :: e in r <==> 0 <= e < k
  {
    if k == 0 then map[] else Sides(n, k - 1)[k - 1 := Side(n, k - 1)]
  }

  lemma {:induction false} SidesAt(n: int, k: nat, e: int)
    requires 0 <= e < k <= 2 * n
    ensures Sides(n, k)[e] == Side(n, e)
  {
    if e < k - 1 {
      SidesAt(n, k - 1, e);
    }
  }

  /** The vertices of the first k corners, each leaving by its inside half-edge. */
  function Corners(points: seq<Point>, k: nat): (r: map<int, Vertex>)
    requires k <= |points|
    ensures forall v :: v in r <==> 0 <= v < k
  {
    if k == 0 then map[] else Corners(points, k - 1)[k - 1 := Vertex(points[k - 1], Some(2 * (k - 1)))]
  }

  lemma {:induction false} CornersAt(points: seq<Point>, k: nat, v: int)
    requires 0 <= v < k <= |points|
    ensures Corners(points, k)[v] == Vertex(points[v], Some(2 * v))
  {
    if v < k - 1 {
      CornersAt(points, k - 1, v);
    }
  }

  /** The mesh built by `init`. The source dereferences the first edge of an empty
      list when there are no points, so at least one point is required. */
  function Init(points: seq<Point>): Mesh
    requires |points| >= 1
  {
    var n := |points|;
    Mesh(Corners(points, n),
         Sides(n, 2 * n),
         map[0 := Face(Some(0))],
         n, 2 * n, 1)
  }

  /** The ids 0 to k - 1. */
  function Range(k: nat): (r: set<int>)
    ensures forall x :: x in r <==> 0 <= x < k
    ensures |r| == k
  {
    if k == 0 then {} else Range(k - 1) + {k - 1}
  }

  /** `init` allocates n vertices, 2n half-edges and one face, and leaves the counters
      at the next free ids. */
  lemma InitSizes(points: seq<Point>)
    requires |points| >= 1
    ensures var m, n := Init(points), |points|;
            && |m.vertices| == n && |m.edges| == 2 * n && |m.faces| == 1
            && m.nextVertex == n && m.nextEdge == 2 * n && m.nextFace == 1
  {
    var m, n := Init(points), |points|;
    assert m.vertices.Keys == Range(n);
    assert m.edges.Keys == Range(2 * n);
  }

  /** The records `init` builds, side by side. */
  lemma InitRecords(points: seq<Point>, i: int)
    requires |points| >= 1 && 0 <= i < |points|
    ensures var m, n := Init(points), |points|;
            && 2 * i in m.edges && 2 * i + 1 in m.edges && i in m.vertices
            && m.edges[2 * i] == HalfEdge(2 * i + 1, i, 2 * Following(i, |points|), Some(0))
            && m.edges[2 * i + 1] == HalfEdge(2 * i, Following(i, n), 2 * Pred(i, n) + 1, None)
            && m.vertices[i] == Vertex(points[i], Some(2 * i))
  {
    var n := |points|;
    SideRecords(n, i);
    SidesAt(n, 2 * n, 2 * i);
    SidesAt(n, 2 * n, 2 * i + 1);
    CornersAt(points, n, i);
  }

  /** Both half-edges of side i satisfy the edge invariant. */
  lemma InitEdgeOk(points: seq<Point>, i: int)
    requires |points| >= 1 && 0 <= i < |points|
    ensures 2 * i in Init(points).edges && EdgeOk(Init(points), 2 * i)
    ensures 2 * i + 1 in Init(points).edges && EdgeOk(Init(points), 2 * i + 1)
  {
    var n := |points|;
    InitRecords(points, i);
    InitRecords(points, Following(i, n));
    InitRecords(points, Pred(i, n));
  }

  lemma InitEdgesOk(points: seq<Point>)
    requires |points| >= 1
    ensures var m := Init(points); forall e :: e in m.edges ==> 0 <= e < m.nextEdge && EdgeOk(m, e)
  {
    var m, n := Init(points), |points|;
    forall e | e in m.edges
      ensures 0 <= e < m.nextEdge && EdgeOk(m, e)
    {
      var i := SideOf(n, e);
      InitEdgeOk(points, i);
      if e == 2 * i {
        assert EdgeOk(m, 2 * i);
      } else {
        assert EdgeOk(m, 2 * i + 1);
      }
    }
  }

  lemma InitVerticesOk(points: seq<Point>)
    requires |points| >= 1
    ensures var m := Init(points); forall v :: v in m.vertices ==> 0 <= v < m.nextVertex && VertexOk(m, v)
  {
    var m := Init(points);
    forall v | v in m.vertices
      ensures 0 <= v < m.nextVertex && VertexOk(m, v)
    {
      InitRecords(points, v);
    }
  }

  lemma InitFacesOk(points: seq<Point>)
    requires |points| >= 1
    ensures var m := Init(points); forall f :: f in m.faces ==> 0 <= f < m.nextFace && FaceOk(m, f)
  {
    InitRecords(points, 0);
  }

  /** The mesh `init` builds is well formed. */
  lemma InitValid(points: seq<Point>)
    requires |points| >= 1
    ensures Valid(Init(points))
  {
    InitEdgesOk(points);
    InitVerticesOk(points);
    InitFacesOk(points);
  }

  /** Side i runs from corner i to the next corner: half-edge 2i leaves vertex i (its
      leaving edge) and ends at the next vertex, and its twin runs back. */
  lemma InitSides(points: seq<Point>, i: int)
    requires |points| >= 1 && 0 <= i < |points|
    ensures var m, n := Init(points), |points|;
            && m.vertices[i] == Vertex(points[i], Some(2 * i))
            && m.edges[2 * i].origin == i && m.edges[2 * i].twin == 2 * i + 1
            && m.edges[2 * i + 1].origin == Following(i, n)
            && GetDestination(m, 2 * i) == Ok(Following(i, n))
            && GetDestination(m, 2 * i + 1) == Ok(i)
  {
    InitValid(points);
    InitRecords(points, i);
  }

  /** The inside half-edges, in corner order. */
  function Inner(n: nat): seq<int> {
    seq(n, j => 2 * j)
  }

  /** The inside half-edges after the first. */
  function InnerRest(n: nat): seq<int>
    requires n >= 1
  {
    seq(n - 1, j => 2 * (j + 1))
  }

  /** From the edge after 0, the inside edges lead round the polygon back to 0. */
  lemma InnerPath(points: seq<Point>)
    requires |points| >= 1
    ensures IsPath(NextMap(Init(points).edges), InnerRest(|points|), 0)
    ensures Start(InnerRest(|points|), 0) == Init(points).edges[0].next
  {
    var m, n := Init(points), |points|;
    var succ := NextMap(m.edges);
    var c := InnerRest(n);
    forall j | 0 <= j < |c|
      ensures c[j] in succ && succ[c[j]] == if j + 1 < |c| then c[j + 1] else 0
    {
      InitRecords(points, j + 1);
    }
    if |c| > 0 {
      InitRecords(points, n - 1);
      assert c[|c| - 1] == 2 * (n - 1);
    }
    InitRecords(points, 0);
  }

  /** The inside half-edges all carry face 0. */
  lemma InnerFaces(points: seq<Point>)
    requires |points| >= 1
    ensures forall j :: 0 <= j < |points| ==>
              Inner(|points|)[j] in Init(points).edges && Init(points).edges[Inner(|points|)[j]].face == Some(0)
  {
    forall j | 0 <= j < |points|
      ensures Inner(|points|)[j] in Init(points).edges && Init(points).edges[Inner(|points|)[j]].face == Some(0)
    {
      InitRecords(points, j);
    }
  }

  /** The boundary of face 0 is the inside half-edge of every side, in corner order,
      each labelled with face 0; so the face has n edges. */
  lemma InitFace(points: seq<Point>)
    requires |points| >= 1
    ensures var m, n := Init(points), |points|;
            && FaceCycle(m, 0) == Ok(Inner(n))
            && GetEdgeCount(m, 0) == Ok(n)
            && (forall j :: 0 <= j < n ==> m.edges[Inner(n)[j]].face == Some(0))
  {
    var m, n := Init(points), |points|;
    var succ := NextMap(m.edges);
    var c := InnerRest(n);
    InnerPath(points);
    InitSizes(points);
    assert |succ| == 2 * n by {
      assert succ.Keys == m.edges.Keys;
    }
    WalkFollowsPath(succ, c, 0, |succ|);
    assert [0] + c == Inner(n);
    InnerFaces(points);
  }

  /** Position j of the outside cycle: an outside edge on the exterior, whose `next` is
      the edge at the following position, wrapping at the end. */
  lemma OuterAt(points: seq<Point>, j: int)
    requires |points| >= 1 && 0 <= j < |points|
    ensures var m, n := Init(points), |points|;
            && Outer(n)[j] in m.edges && m.edges[Outer(n)[j]].face.None?
            && m.edges[Outer(n)[j]].next == Outer(n)[if j + 1 < n then j + 1 else 0]
  {
    var n := |points|;
    var k := if j == 0 then 0 else n - j;
    assert Outer(n)[j] == 2 * k + 1;
    InitRecords(points, k);
  }

  /** The outside cycle never repeats an edge. */
  lemma OuterDistinct(n: nat)
    ensures Distinct(Outer(n))
  {
    forall i, j | 0 <= i < j < n
      ensures Outer(n)[i] != Outer(n)[j]
    {
      if i > 0 {
        assert Outer(n)[i] == 2 * (n - i) + 1 && Outer(n)[j] == 2 * (n - j) + 1;
      }
    }
  }

  /** The outside half-edges run the corners backwards, all on the exterior: from
      side 0 to side n - 1, n - 2, ..., 1 and back, a cycle of n edges. */
  lemma InitExterior(points: seq<Point>)
    requires |points| >= 1
    ensures var m, n := Init(points), |points|;
            var outer := Outer(n);
            && IsCycle(NextMap(m.edges), outer)
            && (forall j :: 0 <= j < n ==> m.edges[outer[j]].face.None?)
  {
    var m, n := Init(points), |points|;
    var succ := NextMap(m.edges);
    var outer := Outer(n);
    forall j | 0 <= j < n
      ensures outer[j] in succ && m.edges[outer[j]].face.None?
      ensures succ[outer[j]] == outer[if j + 1 < n then j + 1 else 0]
    {
      OuterAt(points, j);
    }
    OuterDistinct(n);
  }

  /** The outside half-edges from side 0 backwards round the polygon. */
  function Outer(n: nat): seq<int> {
    seq(n, j => if j == 0 then 1 else 2 * (n - j) + 1)
  }
}
