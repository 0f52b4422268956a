# Computational geometry core: half-edge mesh, planar predicates, convex hulls

This project models the following parts of a small computational-geometry code base.

- **The half-edge mesh** (doubly connected edge list) of `AnimacionGaleriaArtes/DCEL.hpp`.
  - It has vertices, half-edges and faces linked by pointers.
  - `init` builds a polygon.
  - `addHalfEdges` splits a face with a diagonal, and `removeHalfEdges` merges the two faces again.
  - The queries are `getPrevious`, `getDestination`, `getEdgeTo`, `getPreviousEdge`, `getReferenceFace` and `getEdgeCount`.
- **The planar predicates** of `geo.hpp`, `Animaciones/geo.h` and `geo.h`.
  - Point equality and the order within `EPS`.
  - `cross`, `orientation`, `inBounds`, `intersect` and `isPointInPolygon`.
  - The strict and tolerant `ccw` tests.
- **The convex-hull routines** of `AlgoritmosConvexHull/ConvexHulls.cpp`: `isConvex`, `jarvisMarch`, `grahamScan` and `monotoneChain`.

How the model represents things:

- The mesh is three arenas, `map<int, …>` keyed by record id. A pointer is an id, and the exterior face (the null face pointer) is `None`.
  - Every operation is a pure function returning `Result`.
  - A null or deleted pointer, or a walk that never returns to its start, is an explicit error (`Dcel.Fault`).
- Every pointer-chasing loop (around a face by `next`, around a vertex by `twin.next` or `next.twin`) is a walk over a successor map (module `Walk`).
  - The source's loops have no bound. A walk here gets one step per map entry.
  - That is enough for every walk that reaches its stop: such a walk never repeats an entry.
- Coordinates are `real`, and `EPS` is the constant `0.000000001`.
- `AlgoritmosConvexHull/ConvexHulls.cpp` calls `ccw`, which its header `geo.hpp` does not define. The model takes `ccw` from `Animaciones/geo.h` (module `AnimGeo`): a strictly positive `cross(p - q, p - r)`.
- Where the source is evidently wrong, both readings are modelled: the code as written and the evident intent (see "## Findings").
  - Jarvis march: a `Variant` selects the reading.
  - Graham scan: a `guarded` flag selects it.
  - `isConvex`: there are two functions.

Modules, one per file: `Wrappers`, `Geo`, `AnimGeo`, `TolerantGeo`, `Walk`, `Dcel`, `DcelInit`, `DcelEdit`, `DcelRoundTrip`, `DcelValid`, `Lowest`, `Convexity`, `Jarvis`, `JarvisFindings`, `Graham` and `Monotone`.

## Model

| member | source | states |
|---|---|---|
| Geo.CrossAntisymmetric | geo.hpp:85-87 | `cross(p, q) == -cross(q, p)` and `cross(p, p) == 0` |
| Geo.SqNormNonNegative | geo.hpp:93-95 | `sqnorm` is never negative |
| Geo.SameReflexiveSymmetric | geo.hpp:50-52 | `operator==` (equality within `EPS` per coordinate) is reflexive and symmetric |
| Geo.SameNotTransitive | geo.hpp:50-52 | `operator==` is not transitive: three points `6e-10` apart, where the outer two are not equal |
| Geo.LessLexicographic | geo.hpp:81-83 | `operator<` is irreflexive and lexicographic: x decides unless the x values are within `EPS`, in which case the strictly smaller x or y wins |
| Geo.LessNotAsymmetric | geo.hpp:81-83 | `operator<` is not asymmetric: two points with x values within `EPS` can each be below the other |
| Geo.Orient | geo.hpp:101-105 | `orientation` is COLLINEAL exactly when the area lies strictly within `EPS` of 0; LEFT exactly when the area is at least `EPS`; RIGHT exactly when it is at most `-EPS` |
| Geo.OrientSwap | geo.hpp:101-105 | swapping p and q negates the area and exchanges LEFT and RIGHT, keeping COLLINEAL |
| Geo.OrientSwapLast | geo.hpp:101-105 | swapping q and r negates the area and exchanges LEFT and RIGHT, keeping COLLINEAL |
| Geo.TurnCyclic | geo.hpp:101-105 | rotating the three points keeps the area and the orientation |
| Geo.OrientRepeated | geo.hpp:101-105 | a triple whose third point repeats the first or the second is COLLINEAL |
| Geo.InBoundsSymmetric | geo.hpp:107-109 | `inBounds(p, q, r)` is symmetric in p and q, and holds for r = p and r = q |
| Geo.IntersectSymmetric | geo.hpp:111-125 | `intersect(p, q, r, l) == intersect(r, l, p, q)` |
| Geo.IntersectSharedEndpoint | geo.hpp:111-125 | two segments that share an endpoint always intersect |
| Geo.PointInPolygon | geo.hpp:137-158 | at the first edge hit by the ray to (1e9, p.y) that is collinear with p, the answer is `inBounds` of that edge and p; with no such edge it is the parity of the number of edges hit |
| AnimGeo.AreaIsTurn | Animaciones/geo.h:87-89 | the area `cross(p - q, p - r)` tested by `ccw` equals the area `cross(p - r, q - r)` of `orientation` |
| AnimGeo.CcwAgreesWithOrient | Animaciones/geo.h:83-89 | a LEFT turn is `ccw`, a RIGHT turn is not, and `collinear` is exactly `orientation`'s COLLINEAL band |
| AnimGeo.CcwAsymmetric | Animaciones/geo.h:87-89 | `ccw(p, q, r)` and `ccw(p, r, q)` never both hold; the two areas are opposite |
| AnimGeo.NearRepeated | Animaciones/geo.h:83-89 | `collinear(p, p, r)` always holds and `ccw(p, p, r)` never does |
| AnimGeo.DistOrder | Animaciones/geo.h:75-81 | for non-negative reals whose squares are the squared norms, comparing `dist` values is the same as comparing `sqnorm` values |
| TolerantGeo.CcwTolBands | geo.h:78-84 | strict `ccw` implies `ccw(…, true)`; every triple passes at least one tolerant variant; both pass exactly on the `EPS` band around 0; failing `ccw(…, false)` implies strict `ccw` |
| Lowest.LowestIndex | AlgoritmosConvexHull/ConvexHulls.cpp:40-43 | the scan for the lowest point returns an index of p, and no later point is `operator<`-below it |
| Lowest.LowestIsMinimum | AlgoritmosConvexHull/ConvexHulls.cpp:40-43 | wherever `operator<` is transitive on the input, no input point is below the one the scan picks |
| Convexity.IsConvexCorrect | AlgoritmosConvexHull/ConvexHulls.cpp:19-33 | the corrected `isConvex` holds exactly for a triangle, or for four or more corners whose non-collinear turns all go the same way |
| Convexity.AsWrittenFirstLeft | AlgoritmosConvexHull/ConvexHulls.cpp:21-30 | when the first non-collinear turn is counter-clockwise, `isConvex` as written accepts exactly when no later non-collinear turn is clockwise |
| Convexity.AsWrittenAfterLeft | AlgoritmosConvexHull/ConvexHulls.cpp:25-31 | with direction 1 remembered, the written loop accepts exactly when no remaining non-collinear turn is clockwise |
| Convexity.AsWrittenAcceptsConvex | AlgoritmosConvexHull/ConvexHulls.cpp:19-33 | `isConvex` as written accepts every convex polygon: it never rejects what it should accept |
| Convexity.BowtieAcceptedAsWritten | AlgoritmosConvexHull/ConvexHulls.cpp:27-29 | the bow tie (0,0), (u,u), (u,0), (0,u) for any u >= 1 is accepted as written but is not convex |
| Jarvis.TakesAsWrittenIgnoresSide | AlgoritmosConvexHull/ConvexHulls.cpp:51-57 | the replacement test as written takes a point when the candidate lies to its left or when it is farther, whatever the side; the intended test implies it |
| Jarvis.Step | AlgoritmosConvexHull/ConvexHulls.cpp:49-60 | the inner scan returns an index of p: either the initial candidate or an index it reached that is not the pivot |
| Jarvis.Next | AlgoritmosConvexHull/ConvexHulls.cpp:48-60 | one round moves to an index of p different from the pivot |
| Jarvis.March | AlgoritmosConvexHull/ConvexHulls.cpp:45-62 | the pivots pushed by the do-while loop, never more than the fuel |
| Jarvis.MarchIsCycle | AlgoritmosConvexHull/ConvexHulls.cpp:45-62 | a finished march is a cycle of the rounds without repeats, starting at the lowest point |
| Jarvis.MarchComplete | AlgoritmosConvexHull/ConvexHulls.cpp:45-62 | conversely, given enough fuel, the march returns any such cycle through the lowest point |
| Jarvis.JarvisMarch | AlgoritmosConvexHull/ConvexHulls.cpp:35-65 | at most three points come back unchanged; otherwise the hull starts at the lowest input point and holds only input points |
| Jarvis.NextMostClockwise | AlgoritmosConvexHull/ConvexHulls.cpp:48-60 | the corrected round moves to the point that has every other point strictly to the left of pivot -> it |
| JarvisFindings.WrittenMarchNeverEnds | AlgoritmosConvexHull/ConvexHulls.cpp:56 | on the quadrilateral (0,0), (u,-u), (10u,u), (0,5u), the march as written cycles between points 2 and 3 and never returns, whatever the fuel |
| JarvisFindings.CorrectedMarchOnQuad | AlgoritmosConvexHull/ConvexHulls.cpp:45-62 | on the same input the corrected march returns the four corners counter-clockwise from the lowest |
| JarvisFindings.FromOneSkipsFirst | AlgoritmosConvexHull/ConvexHulls.cpp:49 | with the side test fixed but the scan still from index 1, the kite (u,-u), (0,0), (10u,u), (0,5u) loses hull corner (u,-u) at index 0 |
| JarvisFindings.CorrectedMarchOnKite | AlgoritmosConvexHull/ConvexHulls.cpp:45-62 | the corrected march returns all four corners of the kite |
| Graham.SwapFront | AlgoritmosConvexHull/ConvexHulls.cpp:77 | the swap puts the lowest point first, moves the old first point to its place, keeps every other position, and permutes p |
| Graham.Scan | AlgoritmosConvexHull/ConvexHulls.cpp:87-97 | the stack loop: push on a strict `ccw` turn, pop otherwise; as written it fails when fewer than two entries remain and a turn is tested |
| Graham.ScanKeepsChain | AlgoritmosConvexHull/ConvexHulls.cpp:87-97 | a finished stack turns strictly counter-clockwise at every entry, starts at the first point, ends at the last, and holds only input points |
| Graham.GuardedScanCompletes | AlgoritmosConvexHull/ConvexHulls.cpp:87-97 | with a guard that pushes when fewer than two entries remain, the loop always finishes |
| Graham.WrittenScanAgrees | AlgoritmosConvexHull/ConvexHulls.cpp:87-97 | whenever the loop as written finishes, it returns what the guarded loop returns |
| Graham.GrahamScan | AlgoritmosConvexHull/ConvexHulls.cpp:67-99 | at most three points come back unchanged |
| Graham.GrahamScanHull | AlgoritmosConvexHull/ConvexHulls.cpp:67-99 | given a tail sorted around the lowest point by the comparator of lines 79-85, the guarded scan succeeds; any result starts at the lowest point, ends at the last sorted point, turns left at every entry and holds only input points |
| Graham.LineUnderflows | AlgoritmosConvexHull/ConvexHulls.cpp:87-97 | on (0,0), (u,0), (2u,0), (u,u) the loop as written pops to one entry and then reads `CH[-1]`; the guarded loop returns (0,0), (2u,0), (u,u) |
| Monotone.LowerHull | AlgoritmosConvexHull/ConvexHulls.cpp:110-113 | the lower pass leaves between 2 and n entries, from the first to the last sorted point, each an input point, every consecutive triple turning strictly left |
| Monotone.UpperHull | AlgoritmosConvexHull/ConvexHulls.cpp:116-119 | the upper pass never pops into the lower hull, keeps it unchanged, ends with at most 2n - 1 entries, so every write is within the 2n slots, ends at the first sorted point, and turns strictly left except where it joins the lower hull |
| Monotone.MonotoneChain | AlgoritmosConvexHull/ConvexHulls.cpp:101-124 | at most three points come back unchanged; otherwise the hull has at most 2n - 2 input points, holds the lower hull to the last sorted point first, and closed up turns strictly left except at the join |
| Dcel.RotInKeepsEnd | AnimacionGaleriaArtes/DCEL.hpp:124-130 | in a valid mesh, the step `e -> e.next.twin` takes an edge into v to another edge into v |
| Dcel.RotOutKeepsOrigin | AnimacionGaleriaArtes/DCEL.hpp:264-270 | in a valid mesh, the step `e -> e.twin.next` takes an edge out of v to another edge out of v |
| Dcel.GetDestination | AnimacionGaleriaArtes/DCEL.hpp:279-281 | in a valid mesh `next.origin` is the twin's origin, a live vertex |
| Dcel.GetPrevious | AnimacionGaleriaArtes/DCEL.hpp:283-292 | any edge returned has e as its `next` |
| Dcel.GetPreviousOnCycle | AnimacionGaleriaArtes/DCEL.hpp:283-292 | on a `next` cycle, `getPrevious` of the first edge is the last edge |
| Dcel.FaceCycle | AnimacionGaleriaArtes/DCEL.hpp:298-309 | a face's boundary is a `next` cycle without repeats that starts at its reference edge; it is empty exactly when there is no reference edge |
| Dcel.GetEdgeCount | AnimacionGaleriaArtes/DCEL.hpp:298-309 | the count is 0 exactly when the face has no reference edge; otherwise it is the length of a `next` cycle through that edge |
| Dcel.GetEdgeTo | AnimacionGaleriaArtes/DCEL.hpp:258-276 | a returned edge ends at node and, in a valid mesh, starts at v; `None` only when v has no leaving edge or no edge of its rotation ends at node |
| Dcel.GetPreviousEdge | AnimacionGaleriaArtes/DCEL.hpp:123-134 | a result other than the twin t of v's leaving edge lies on face f and is the first edge on f that the rotation `e -> e.next.twin` meets after t, before returning to t; t comes back only when that rotation returns to t without meeting an edge on f; in a valid mesh the result ends at v |
| Dcel.RefScan | AnimacionGaleriaArtes/DCEL.hpp:142-155 | a match is a pair of live edges on one face; no match means the outer rotation reaches its stop and no edge on it shares a face with any edge of the inner rotation |
| Dcel.GetReferenceFace | AnimacionGaleriaArtes/DCEL.hpp:136-158 | when the two leaving edges lie on one face, that face; in a valid mesh otherwise a face that borders an edge at v1 and an edge at v2, or the face of v1's leaving edge, which comes back without a shared face only when no edge of v1's rotation other than the twin of its leaving edge shares a face with an edge of v2's rotation other than the twin of its leaving edge |
| Dcel.Splice | AnimacionGaleriaArtes/DCEL.hpp:166-169 | the two edges found end at v1 and at v2 respectively |
| DcelInit.InitValid | AnimacionGaleriaArtes/DCEL.hpp:70-121 | the mesh `init` builds is well formed: twins are mutual and distinct, pointers are live, `next` starts where the twin starts, every id is below its counter |
| DcelInit.InitSizes | AnimacionGaleriaArtes/DCEL.hpp:70-121 | `init` on n points makes n vertices, 2n half-edges and one face |
| DcelInit.InitSides | AnimacionGaleriaArtes/DCEL.hpp:79-119 | vertex i leaves by inside edge 2i, which ends at vertex (i + 1) mod n; its twin runs back |
| DcelInit.InitFace | AnimacionGaleriaArtes/DCEL.hpp:85-120 | the bounded face's boundary is the n inside edges in corner order, all on that face; `getEdgeCount` of the face is n |
| DcelInit.InitExterior | AnimacionGaleriaArtes/DCEL.hpp:90-117 | the outside edges form one `next` cycle running the corners backwards, all on the exterior |
| DcelEdit.Insert | AnimacionGaleriaArtes/DCEL.hpp:160-200 | the insertion adds exactly two half-edges and one face; the new pair are mutual twins from v1 and from v2; the split face now references `right` and the new face `left` |
| DcelEdit.RelabelKeepsNext | AnimacionGaleriaArtes/DCEL.hpp:191-194 | relabelling faces leaves every `next` pointer as it was |
| DcelEdit.RemoveHalfEdges | AnimacionGaleriaArtes/DCEL.hpp:202-230 | a removal that succeeds has found both predecessors and a bounded face f on the twin; it deletes e and its twin; ePrev now leads to the twin's next and tPrev to e's next, with every other `next`, twin and origin as before; the walk from e's next to the twin's next, and no other edge, is relabelled f; f now references e's next; the face e carries after the relabelling is deleted and no other; vertices, counters and other faces stay as they were |
| DcelValid.InsertKeepsValid | AnimacionGaleriaArtes/DCEL.hpp:171-200 | inserting a diagonal whose hook edges end at v1 and v2, in a valid mesh, gives a valid mesh |
| DcelValid.AddKeepsValid | AnimacionGaleriaArtes/DCEL.hpp:160-200 | `addHalfEdges` on a valid mesh, when it succeeds, gives a valid mesh |
| DcelValid.MergedWalkIsCycle | AnimacionGaleriaArtes/DCEL.hpp:211-218 | when e is a removable diagonal on a bounded face, the walk the removal relabels is e's own face cycle from e's next up to e |
| DcelValid.RemoveKeepsValid | AnimacionGaleriaArtes/DCEL.hpp:202-230 | `removeHalfEdges` of a removable diagonal (its two sides lie on different faces, its bounded face has no boundary but its own cycle, no vertex leaves by it or its twin, and neither `next` leads back into the pair), in a valid mesh where each edge is the `next` of exactly one edge and faces are labelled consistently along `next`, gives a valid mesh |
| DcelRoundTrip.AddSplitsFace | AnimacionGaleriaArtes/DCEL.hpp:171-194 | `addHalfEdges` splits one boundary: the new face's boundary is `left` plus one arc, all on the new face; the old face keeps `right` plus the other arc; the edge counts follow |
| DcelRoundTrip.AddedPrevious | AnimacionGaleriaArtes/DCEL.hpp:185-186 | after the insertion the edges before `left` and `right` are the two edges found for v1 and v2 |
| DcelRoundTrip.RemovedIsOriginal | AnimacionGaleriaArtes/DCEL.hpp:202-230 | after the insertion, the removal's relinking and relabelling restore every earlier half-edge record |
| DcelRoundTrip.AddThenRemove | AnimacionGaleriaArtes/DCEL.hpp:160-230 | `removeHalfEdges(left)` right after `addHalfEdges(v1, v2)` gives back the same vertices, half-edges and faces; only the split face's reference edge has moved |

## Left out

- Rendering, animation and drivers are not modelled: `printDCEL`, `print`, `randomPoints`, every `main`, and the OpenGL files under `AnimacionesConvexHull/`. They are console I/O, randomness and drawing.
- The mesh destructor and `new`/`delete`: allocation is arena insertion and deallocation is key removal. Pointer identity is the record id.
- The `visited` flag of a half-edge: no modelled operation reads or writes it.
- IEEE-754 rounding: coordinates are exact reals. `sqrt`, `acos` and `angle` are not modelled.
- `dist`: it is compared through squared distances. `AnimGeo.DistOrder` states why this is the same order.
- `std::sort`: neither the sort of `monotoneChain` (line 109) nor the comparator sort of `grahamScan` (lines 79-85) is modelled. The sorted points are a parameter whose order is a precondition. Within `EPS`, `operator<` is not a strict weak order (`Geo.LessNotAsymmetric`), so the sort's actual output cannot be stated.
- The `cout` message printed for fewer than three points is left out. The returned value is modelled.
- `ConvexHulls/ConvexHulls.cpp` and the root `ConvexHulls.cpp` are superseded drafts of the hull file and are not part of this model. So are the angle-sum `insidePolygon` of `AlgoritmosConvexHull/geo.h` and the Delaunay files.
- Jarvis.March: the source's do-while loop has no bound, so the march runs on fuel. No result means that the fuel ran out. The model does not prove that the corrected march ends.
- Walk.Walk: each pointer walk gets as many steps as the map has entries. A longer walk would repeat an edge and, in the source, loop forever. The model returns `BrokenWalk` in that case rather than proving that the source diverges.
- Lowest.LowestIsMinimum: the lowest point is a global minimum only where `operator<` is transitive on the input, because within `EPS` it need not be.
- DcelInit: `init` on an empty point list dereferences the front of an empty list, so the model requires at least one point.
- Geo.PointInPolygon: the source computes `(i + 1) % n`, which divides by zero on an empty polygon, so the model requires at least one vertex.
- DcelRoundTrip.AddThenRemove and DcelRoundTrip.AddSplitsFace assume that the split face's boundary is one `next` cycle through the two edges found. That is the case for a diagonal of a face. When v1 and v2 are not on a common face, the source relabels along whatever walk it finds, and the model states nothing about that walk.
- Graham.GrahamScanHull: the result is shown to be a strictly left-turning chain of input points. Nothing is proved about whether it contains every hull vertex.
- Monotone.MonotoneChain: like Graham, it states the turning chain and the index bounds. It does not state that the chain contains every hull vertex.
- Graham.GrahamScan: the source swaps the lowest point to the front of the caller's vector (line 77) and sorts the rest of it in place (lines 79-85). `main` then passes the same, reordered vector to `monotoneChain` (lines 143-149). The model returns a new sequence and leaves its input as it was.
- Monotone.MonotoneChain: the source sorts the caller's vector in place (line 109). The model takes the sorted order as a parameter, returns a new sequence and leaves its input as it was.
- Dcel.GetReferenceFace: when several faces are shared by the two rotations, the contract does not say which one the nested scan meets first. It says only that the result is shared, or that no pair the scan visits is. Like the source's loops (lines 143 and 146), the scan never looks at the twins of the two leaving edges. So the fallback can come back even when one of those twins shares a face with an edge at the other vertex, for instance the exterior face.
- DcelValid.RemoveKeepsValid: the invariant is kept only under the stated hypotheses. The source updates no vertex's `leaving` pointer, no other face's reference edge, and deletes e's face outright. An edge that some vertex leaves by, or one with the same face on both sides, can leave a dangling pointer.
- DcelEdit.RemoveHalfEdges: the source always deletes the face the removed edge carries (AnimacionGaleriaArtes/DCEL.hpp:220-221) and gives the merged walk the twin's face (213-218), whichever of the two faces is larger or bounded; the model does the same.

## Findings

| source | as written | input that shows it | evidently intended | confidence | as-written member | corrected member |
|---|---|---|---|---|---|---|
| AlgoritmosConvexHull/ConvexHulls.cpp:29 | `dir = ccw(...)` stores a `bool`, so after a clockwise turn `dir` becomes 0 and the next bent turn is treated as the first one | the bow tie (0,0), (1,1), (1,0), (0,1): turns -, -, +, + are accepted | keep `dir` as it is once a turn has confirmed it | not executed | Convexity.BowtieAcceptedAsWritten | Convexity.IsConvexCorrect |
| AlgoritmosConvexHull/ConvexHulls.cpp:56 | `!orientation(...) != RIGHT` is always true, so any farther point replaces the candidate even when it lies to the candidate's right | (0,0), (1,-1), (10,1), (0,5): from point 2 the march picks 3, and from 3 it picks 2 again, so the do-while never returns to 0 | replace only when the three points are collinear and the new one is farther | not executed | JarvisFindings.WrittenMarchNeverEnds | JarvisFindings.CorrectedMarchOnQuad |
| AlgoritmosConvexHull/ConvexHulls.cpp:49 | the scan starts at index 1, so point 0 is never chosen except as the initial candidate `(pivot + 1) % n` | (1,-1), (0,0), (10,1), (0,5): the hull misses (1,-1) even with line 56 corrected | scan from index 0 | not executed | JarvisFindings.FromOneSkipsFirst | JarvisFindings.CorrectedMarchOnKite |
| AlgoritmosConvexHull/ConvexHulls.cpp:91 | `CH[j-1]` is read with one stack entry after the stack is popped down to one | (0,0), (1,0), (2,0), (1,1): (1,0) is popped, then `CH[-1]` is read | push when fewer than two entries remain | not executed | Graham.LineUnderflows | Graham.GuardedScanCompletes |
