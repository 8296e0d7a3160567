# Clipping kernel model

A Dafny model of a 2D clipping kernel that works against an axis-aligned window. It covers three clippers:

- **Cohen-Sutherland** clips one line segment (`reta_cohen.py`).
- **Liang-Barsky** clips one line segment and tags each intersection point ENTRANDO or SAINDO (`reta_liang.py`).
- **Weiler-Atherton** clips a polygon. It builds two point lists with Liang-Barsky's help, turns them into circular linked rings and walks them (`algoritmos/poligonos.py`).

Coordinates are exact `real`s, and the tolerance 1e-14 is kept as a literal. Points, lines, polygons, windows, ring nodes and rings are heap classes, as in the Python program:

- clipping mutates points in place;
- the rings relink nodes;
- Cohen-Sutherland aliases one scratch point.

Modules, one per concern:

- `Geometry` (geometry.dfy):
  - `Ponto`, `Reta`, `Poligono`, `Window` and the `Orientacao` tag;
  - the equality helpers;
  - `PointClipping`, the centroid, the whole-polygon inside test;
  - the angular sort of `ordenar_pontos`;
  - `copy.deepcopy` of points and lines.
- `Ring` (ring.dfy): `CircularListPoligono` as `Node` objects linked by `next`/`prev`, with a cursor. A ghost sequence `nodes` holds the ring as seen from the cursor, and moving the cursor rotates it.
- `Liang` (liang.dfy):
  - the clipper as a pure function `Clip` on point snapshots (`PontoData`), proved sound and complete against the window: it hides a segment exactly when no point of it is inside, and otherwise it keeps exactly the inside parameter range;
  - the imperative `LiangBarskyClipping`, proved to produce `Clip`'s result in fresh objects.
- `Cohen` (cohen.dfy):
  - outcodes and their meaning;
  - the boundary crossing computed in each branch;
  - the clipping loop with its single shared scratch point `p`, and a termination proof that covers the aliasing.
- `Weiler` (weiler.dfy):
  - `calcula_listas_recorte`, with list 1 and list 2 specified on values (`List1Data`, `CutsData`) and lemmas about their structure;
  - the two searches;
  - the walks, which mark points UTILIZADA;
  - the outer loop, proved to terminate whenever every search succeeds, since each pass consumes an ENTRANDO point of the polygon ring, and proved to terminate always when the polygon ring has no ENTRANDO point;
  - the fallback and the result cases of `WeilerAthertonPolygonClipping`.

External collaborators become parameters: `math.atan2` is a function parameter `atan2: (real, real) -> real`.

## Model

| member | source | states |
|---|---|---|
| `Geometry.RoundHalfEven` | algoritmos/poligonos.py:58-62 | the rounded integer is within 0.5 of the value |
| `Geometry.Round8` | algoritmos/poligonos.py:57-62 | rounding to 8 decimal places moves a value by at most 5e-9 |
| `Geometry.Ponto.constructor` | algoritmos/poligonos.py:20-28 | a new point has its normalized coordinates equal to its coordinates, is visible, is not an intersection, and carries the given tag and colour |
| `Geometry.Ponto.Equals` | algoritmos/poligonos.py:54-62 | `__eq__` (both coordinate pairs to 8 places, and visibility) implies `compare_norm_coordinates` |
| `Geometry.Ponto.CompareNormCoordinates` | algoritmos/poligonos.py:70-76 | both normalized coordinates equal to 8 places and the same visibility; its meaning is stated by `Geometry.EqualsReflexiveSymmetric`, `Geometry.CompareNormIgnoresOtherFields` and `Liang.SameNormAgrees` |
| `Geometry.EqualsReflexiveSymmetric` | algoritmos/poligonos.py:54-76 | both equalities are reflexive and symmetric |
| `Geometry.CompareNormIgnoresOtherFields` | algoritmos/poligonos.py:70-76 | `compare_norm_coordinates` depends only on the normalized coordinates and visibility; x, y, orientation, colour and the intersection flag do not matter |
| `Geometry.CopyPonto` | reta_liang.py:42-43 | a deep copy of a point is a fresh object with every field equal |
| `Geometry.CopyPontos` | algoritmos/poligonos.py:424-425 | a deep copy of a list of distinct points is a list of fresh, pairwise distinct points with the same fields, in the same order |
| `Geometry.DistinctPermutation` | algoritmos/poligonos.py:137 | a permutation of a list of distinct points (a sort or a rotation of it) has no repetitions either |
| `Geometry.Reta.constructor` | algoritmos/poligonos.py:82-86 | a new line holds the two given points and the colour, and is visible |
| `Geometry.CopyReta` | reta_liang.py:10 | a deep copy of a line is fresh, with fresh endpoints whose fields are the originals'; the copy shares one endpoint object exactly when the original does |
| `Geometry.Poligono.constructor` | algoritmos/poligonos.py:102-105 | a new polygon holds the given points and colour, and is visible |
| `Geometry.Poligono.OrdenarPontos` | algoritmos/poligonos.py:132-137 | the points become a permutation of the old ones, in ascending order of minus their angle around the centre |
| `Geometry.InsertByKey` | algoritmos/poligonos.py:137 | inserting a point adds exactly that point to the multiset of points |
| `Geometry.InsertByKeySorted` | algoritmos/poligonos.py:137 | inserting into a list sorted by key keeps it sorted |
| `Geometry.SortByKey` | algoritmos/poligonos.py:137 | sorting is a permutation |
| `Geometry.SortByKeySorted` | algoritmos/poligonos.py:137 | the sorted list is in ascending key order |
| `Geometry.Window.constructor` | algoritmos/poligonos.py:146-150 | the four corners are four distinct fresh points at (xmin,ymin), (xmin,ymax), (xmax,ymax), (xmax,ymin), none of them an intersection |
| `Geometry.PointClipping` | algoritmos/poligonos.py:264-270 | the point becomes visible exactly when its normalized coordinates lie inclusively within the bounds read from the corners' raw coordinates, and the same point is returned |
| `Geometry.MeanWithinBounds` | algoritmos/poligonos.py:278-279 | the mean of values lying within bounds lies within the same bounds |
| `Geometry.CalculaCentroidePoligono` | algoritmos/poligonos.py:275-281 | a fresh point whose normalized coordinates are the means of the polygon's normalized coordinates |
| `Geometry.ChecaPoligonoTotalmenteDentroWindow` | algoritmos/poligonos.py:288-303 | true exactly when every vertex lies in the window widened by 1e-14 on each side; vacuously true with no vertices |
| `Ring.Forward` | algoritmos/poligonos.py:219-221 | one cursor step keeps the length and the elements |
| `Ring.Backward` | algoritmos/poligonos.py:226-228 | one step back keeps the length and the elements |
| `Ring.BackwardForward` | algoritmos/poligonos.py:219-231 | a step back undoes a step forward, and conversely |
| `Ring.ForwardNSplit` | algoritmos/poligonos.py:219-221 | k forward steps within a lap rotate the ring by k places |
| `Ring.FullLap` | algoritmos/poligonos.py:219-221 | n forward steps on a ring of n points return to the start |
| `Ring.ForwardNPermutes` | algoritmos/poligonos.py:219-221 | any number of steps keeps the elements with their multiplicities |
| `Ring.Node.constructor` | algoritmos/poligonos.py:177-181 | a new node holds the point and has no links |
| `Ring.CircularListPoligono.constructor` | algoritmos/poligonos.py:183-195 | the ring built from a polygon is valid, holds its points in order from the cursor, and has size n; an empty polygon gives an empty ring |
| `Ring.CircularListPoligono.Append` | algoritmos/poligonos.py:200-214 | the point becomes the new tail, just before the cursor; size grows by one, the cursor stays, and the ring stays valid |
| `Ring.CircularListPoligono.MoveForward` | algoritmos/poligonos.py:219-221 | the ring seen from the cursor rotates one place forward; nothing happens on an empty ring |
| `Ring.CircularListPoligono.MoveBackward` | algoritmos/poligonos.py:226-228 | the ring seen from the cursor rotates one place back; nothing happens on an empty ring |
| `Ring.CircularListPoligono.Step` | algoritmos/poligonos.py:395-396 | during a walk within one lap, a forward step turns a rotation by k into a rotation by k + 1 and yields the new current point |
| `Ring.CircularListPoligono.StepAround` | algoritmos/poligonos.py:375-376 | the same for a walk that may wrap around: the cursor position advances modulo n |
| `Ring.CircularListPoligono.GetCurrent` | algoritmos/poligonos.py:233-236 | the point at the cursor, or null exactly when the ring is empty |
| `Ring.CircularListPoligono.Elements` | algoritmos/poligonos.py:241-249 | iteration yields every point of the ring once, in ring order from the cursor |
| `Liang.ScanUpTo` | reta_liang.py:25-35 | the parameter range after the first n constraints; its meaning is stated by `Liang.ScanMonotone`, `Liang.ScanUnit`, `Liang.ScanSound` and `Liang.ScanComplete` |
| `Liang.ScanMonotone` | reta_liang.py:31-35 | u1 only grows and u2 only shrinks from one constraint to the next |
| `Liang.ScanUnit` | reta_liang.py:11-12 | hence 0 <= u1 and u2 <= 1 throughout |
| `Liang.ScanSound` | reta_liang.py:25-35 | every u in the final [u1, u2] meets every constraint u * p[i] <= q[i] scanned |
| `Liang.ScanComplete` | reta_liang.py:25-35 | every u in [0, 1] meeting all scanned constraints lies in [u1, u2], and no parallel edge rejected |
| `Liang.ScanParameters` | reta_liang.py:25-35 | the loop computes the scan of the four constraints, stopping at a parallel edge outside the window |
| `Liang.ParallelStays` | reta_liang.py:26-29 | once a parallel edge outside the window rejects, later constraints do not change the outcome |
| `Liang.SameNormAgrees` | reta_liang.py:65 | the coincidence test on objects agrees with its value form |
| `Liang.ScanSoundAll` | reta_liang.py:25-39 | every parameter of the final range meets the constraints |
| `Liang.ScanCompleteAll` | reta_liang.py:25-39 | every parameter in [0, 1] meeting the constraints is in the final range |
| `Liang.ConstraintsMeanInside` | reta_liang.py:17-23 | the four constraints at u hold exactly when P(u) lies in the window |
| `Liang.SegmentConstraints` | reta_liang.py:17-23 | the same for every u at once |
| `Liang.ScanSegmentRejectsExactly` | reta_liang.py:25-39 | the clipper rejects (parallel outside, or u1 > u2) exactly when no point of the segment lies in the window |
| `Liang.ScanSegmentRange` | reta_liang.py:25-39 | an open range lies within [0, 1]; every point of it is inside, and every inside point of the segment is in it |
| `Liang.Clip` | reta_liang.py:9-70 | the clipped segment on values; its meaning is stated by `Liang.ClipHiddenExactly`, `Liang.ClipShownIsInsidePart`, `Liang.ClipShownParts` and `Liang.ClipShownTags` |
| `Liang.ClipHiddenExactly` | reta_liang.py:25-39 | the result is hidden exactly when no point of the segment lies in the window |
| `Liang.ClipShownIsInsidePart` | reta_liang.py:37-57 | a shown result has 0 <= u1 <= u2 <= 1 and spans exactly the inside part of the segment |
| `Liang.EnteringAt` | reta_liang.py:46-50 | the first endpoint sits at P(u1) |
| `Liang.LeavingAt` | reta_liang.py:53-57 | the second endpoint sits at P(u2) |
| `Liang.ClipShownParts` | reta_liang.py:42-68 | a shown result is the entering and leaving points; when they coincide on normalized coordinates, the second is moved by -1e-14 in x and y and the first is reset to NAO_UTILIZADA |
| `Liang.ClipShownTags` | reta_liang.py:45-68 | the first endpoint is an intersection, tagged ENTRANDO unless nudged, exactly when u1 > 0, and otherwise is the original point; the second is a SAINDO intersection when u2 < 1, and the original point when u2 = 1 and it is not nudged; colour and visibility are kept |
| `Liang.CutCopy` | reta_liang.py:42-57 | a fresh copy of the endpoint, moved to P(u) and tagged as an intersection when the cut applies |
| `Liang.ShowClipped` | reta_liang.py:42-68 | the accepted branch installs two distinct fresh endpoints equal to the entering and leaving points, set apart if they coincide, and makes the line visible |
| `Liang.SetApart` | reta_liang.py:63-68 | two coinciding endpoints are set apart as described; other endpoints are untouched |
| `Liang.LiangBarskyClipping` | reta_liang.py:9-70 | the result is a fresh line with fresh endpoints. Its visibility is whether `Clip` shows the segment, and its endpoints' fields are `Clip`'s. A hidden result keeps copies of the original endpoints. The input line is not modified |
| `Cohen.BitsAgree` | reta_cohen.py:40-51 | the four flags and the integer code agree on the zero test, bitwise or, bitwise and, and each single-bit test |
| `Cohen.RegionCode` | reta_cohen.py:13-26 | the region code, top tested before bottom and right before left; its meaning is stated by `Cohen.RegionCodeMeaning` |
| `Cohen.RegionCodeMeaning` | reta_cohen.py:13-26 | the code is one of 0, 1, 2, 4, 5, 6, 8, 9, 10 (never both 8 and 4, nor both 2 and 1), and it is 0 exactly when the point lies inclusively in the window |
| `Cohen.CrossingAtY` | reta_cohen.py:75-80 | the top/bottom formula gives a point on the line through the endpoints |
| `Cohen.CrossingAtX` | reta_cohen.py:81-86 | the right/left formula gives a point on the line through the endpoints |
| `Cohen.EdgeCrossing` | reta_cohen.py:53-86 | the point written into the shared point, branch by branch; where it lies is stated by `Cohen.EdgeCrossingMeaning` |
| `Cohen.EdgeCrossingMeaning` | reta_cohen.py:53-86 | a vertical line crosses at ponto1's x, at ymax if bit 8 is set and else at ymin. A horizontal line crosses at ponto1's y, at xmin if bit 1 is set and else at xmax. A sloped line takes top > bottom > right > left and lands on that edge, on the line through the endpoints, unless ponto1 is the shared point |
| `Cohen.Intersecao` | reta_cohen.py:53-86 | only the shared point's coordinates change, and they become the crossing, read through the aliasing |
| `Cohen.ReplaceOutsideEndpoint` | reta_cohen.py:46-94 | ponto1 is replaced by the shared point exactly when codA != 0, else ponto2; only the replaced endpoint's code is recomputed, and the termination measure drops |
| `Cohen.RegionCodeOfCopy` | reta_cohen.py:33-36 | copies have the same code |
| `Cohen.AcceptExit` | reta_cohen.py:40-42 | when the bitwise or of codA and codB is 0, both current endpoints are inside |
| `Cohen.RejectExit` | reta_cohen.py:43-45 | when the bitwise and of codA and codB is not 0, both endpoints lie beyond one edge |
| `Cohen.BookkeepingAfterReplace` | reta_cohen.py:88-94 | a replacement keeps track of which endpoint object is the original and which is the shared point |
| `Cohen.ClipPass` | reta_cohen.py:40-94 | one loop pass accepts, rejects (endpoints unchanged, line invisible) or replaces, and a replacement decreases the measure |
| `Cohen.ClipLoop` | reta_cohen.py:39-94 | the loop terminates with visible exactly when accepted. Accepted means both endpoints are inside; rejected means they share an outside bit. An endpoint that starts inside is never replaced. When both start outside and are accepted, both endpoints are the shared point |
| `Cohen.ResultOfCopy` | reta_cohen.py:96 | the returned deep copy inherits the loop's outcome and endpoint sharing |
| `Cohen.CohenSutherlandClipping` | reta_cohen.py:31-96 | fresh result. Visible means both endpoints are inside; invisible means they share an outside bit. Endpoints that start inside are kept. If both start outside and the result is visible, both endpoints are one object. The input is not modified |
| `Weiler.Cuts` | algoritmos/poligonos.py:333-339 | an edge contributes at most two points, all tagged as intersections |
| `Weiler.EdgeCutsShape` | algoritmos/poligonos.py:330-339 | every edge's block has at most two points, all tagged |
| `Weiler.List1Cuts` | algoritmos/poligonos.py:322-339 | the intersection points of list 1 are exactly the intersection points of all edges, in edge order |
| `Weiler.List1Vertices` | algoritmos/poligonos.py:322-339 | the other points of list 1 are exactly the polygon's vertices, in order |
| `Weiler.List1Length` | algoritmos/poligonos.py:322-339 | list 1 holds n vertices and at most 2n intersection points |
| `Weiler.IntersecaoPontosMembers` | algoritmos/poligonos.py:463-466 | filtering keeps exactly the points tagged as intersections |
| `Weiler.CornersAndCutsDistinct` | algoritmos/poligonos.py:346-353 | the corners followed by the intersection points are distinct points |
| `Weiler.EdgeIntersections` | algoritmos/poligonos.py:330-339 | the intersection points Liang-Barsky reports for one edge, as distinct fresh points |
| `Weiler.WindowList` | algoritmos/poligonos.py:346-357 | list 2 is a fresh polygon of distinct points, a permutation of the four corners plus the intersection points, sorted by angle around their centroid |
| `Weiler.EdgeStep` | algoritmos/poligonos.py:322-331 | a fresh point for the vertex, then the edge's intersection points as distinct fresh points |
| `Weiler.ListStep` | algoritmos/poligonos.py:328-339 | appending a vertex and its edge's points keeps list 1 distinct and extends its intersection part by exactly those points |
| `Weiler.AppendEdge` | algoritmos/poligonos.py:322-339 | one loop iteration extends list 1 by the vertex and the edge's intersection points, and the intersection list by those points |
| `Weiler.EdgeStepData` | algoritmos/poligonos.py:322-339 | the value form of list 1 and of the intersection list grows edge by edge |
| `Weiler.EdgeRound` | algoritmos/poligonos.py:322-339 | after edge i the lists equal the value form of the first i + 1 edges |
| `Weiler.List1Points` | algoritmos/poligonos.py:313-339 | the loop builds list 1 and the intersection list, equal to their value forms, of distinct fresh points |
| `Weiler.MakeListas` | algoritmos/poligonos.py:346-359 | the two lists as fresh polygons; list 2 as in `WindowList` |
| `Weiler.CalculaListasRecorte` | algoritmos/poligonos.py:313-359 | with no intersection point, the whole-polygon inside test. Otherwise list 1 is the vertices interleaved with their edges' intersection points, and list 2 is a sorted permutation of the corners plus those points |
| `Weiler.MarkedConsumes` | algoritmos/poligonos.py:444-446 | a walk that starts on a point tagged t and marks it leaves fewer points tagged t |
| `Weiler.BuscaPontoEntrada` | algoritmos/poligonos.py:369-378 | the cursor stops on an ENTRANDO point or after max steps; every point passed is not ENTRANDO; with a bound of a whole lap, an ENTRANDO point is found whenever one exists |
| `Weiler.BuscaPontoLista` | algoritmos/poligonos.py:388-398 | the cursor stops on the first point matching coordinates and tag; null exactly when no point matches (the Python search would spin forever) |
| `Weiler.LapHasEntrando` | algoritmos/poligonos.py:432-437 | a lap of n steps finds an ENTRANDO point exactly when the ring holds one, and leaves the ring as it was |
| `Weiler.MarkStep` | algoritmos/poligonos.py:444-449 | one step marks the point UTILIZADA, emits it and advances the cursor |
| `Weiler.WalkLoop` | algoritmos/poligonos.py:444-449 | the walk emits and marks UTILIZADA the points up to the first one tagged `stop` |
| `Weiler.Walk` | algoritmos/poligonos.py:444-458 | emitted points are a prefix of the ring from the cursor, all now UTILIZADA and none tagged `stop`; null exactly after a whole lap |
| `Weiler.WalkEffects` | algoritmos/poligonos.py:444-458 | a walk from a point with another tag emits at least one point, all ring points now UTILIZADA, and fewer points keep the starting tag |
| `Weiler.WalkFrom` | algoritmos/poligonos.py:444-458 | the ring keeps its points; at least one point is emitted and marked UTILIZADA; fewer points keep the starting tag |
| `Weiler.HalfPass` | algoritmos/poligonos.py:442-449 | search and walk: emitted points are ring points now UTILIZADA; once the start is found, something is emitted and that tag is consumed |
| `Weiler.Locate` | algoritmos/poligonos.py:442 | the search moves only the cursor; a found point has the given coordinates and tag |
| `Weiler.WindowHalf` | algoritmos/poligonos.py:452-458 | the window walk leaves the polygon ring and its ENTRANDO count unchanged and emits only ring points |
| `Weiler.Pass` | algoritmos/poligonos.py:442-458 | one pass emits ring points only; when the polygon's entry point is found it emits something and the polygon ring has fewer ENTRANDO points |
| `Weiler.EntryPoint` | algoritmos/poligonos.py:427 | the first search keeps the ring's points and whether it holds an ENTRANDO point; (x, y) are the normalized coordinates of the point under the cursor, which is ENTRANDO whenever the ring holds one |
| `Weiler.Round` | algoritmos/poligonos.py:430-458 | a round runs a pass exactly when a lap finds an ENTRANDO point; a completed pass consumes one |
| `Weiler.PassFrom` | algoritmos/poligonos.py:442-458 | the pass of a round, over the rings' original points |
| `Weiler.Traverse` | algoritmos/poligonos.py:427-458 | the outer loop emits ring points only. It always ends when the polygon ring starts without an ENTRANDO point. When it ends, no ENTRANDO point is left, and something was emitted exactly when the polygon ring held an ENTRANDO point at the start |
| `Weiler.MarkIntersecoes` | algoritmos/poligonos.py:462-466 | the fallback emits the intersection points in list order, each made visible |
| `Weiler.BuildRings` | algoritmos/poligonos.py:424-425 | two fresh, valid, nonempty rings of distinct fresh copies with no point in common; each ring holds field-for-field copies of its list, in list order from the cursor |
| `Weiler.CopyRing` | algoritmos/poligonos.py:424-425 | a fresh, valid ring over fresh, distinct copies of the points, field for field and in order |
| `Weiler.TraverseOrFallback` | algoritmos/poligonos.py:427-466 | a terminating run emits something, and the run always terminates when the polygon ring has no ENTRANDO point. With no ENTRANDO point, it emits list 2's intersection points in list order, made visible. Otherwise it emits ring points only |
| `Weiler.ClipLists` | algoritmos/poligonos.py:424-468 | with no ENTRANDO point in list 1 the result is always given and is list 2's intersection points, made visible. Any given result is a fresh, visible, nonempty polygon in the given colour, made of fresh copies when list 1 has an ENTRANDO point |
| `Weiler.ClipRings` | algoritmos/poligonos.py:427-468 | with no ENTRANDO point in the polygon ring the result is always given and is list 2's intersection points, made visible; any given result is a fresh, visible, nonempty polygon in the given colour |
| `Weiler.WindowIntersecoes` | algoritmos/poligonos.py:346-353 | list 2's intersection points are a permutation of list 1's |
| `Weiler.ClipCut` | algoritmos/poligonos.py:424-468 | the result is made of fresh copies or list 1's intersection points. With no ENTRANDO point it is always given, and it is a permutation of list 1's intersection points whose snapshots are the old ones with `visible` set |
| `Weiler.Uncut` | algoritmos/poligonos.py:416-422 | the polygon itself when inside, else an empty invisible polygon |
| `Weiler.FromListas` | algoritmos/poligonos.py:413-468 | the result cases of the clipper in terms of list 1's value form: the uncut cases, and with cuts and no ENTRANDO point a given result that permutes list 1's intersection points, made visible |
| `Weiler.WeilerAthertonPolygonClipping` | algoritmos/poligonos.py:410-468 | no edge cut and every vertex inside gives the polygon itself. No edge cut otherwise gives an empty invisible polygon. With cuts, a given result is a fresh, visible, nonempty polygon in the input colour. With cuts and no ENTRANDO point in list 1 the result is always given, and its points' snapshots are a permutation of the cut points' value form with `visible` set. The input is not modified |

## Left out

- `Ponto.normalizar`, `Reta.normalizar` and `Poligono.normalizar` (the affine transform with `np.dot`) are not modelled. Every operation reads the normalized coordinates as given.
- `__str__`, `str_normalizado`, `Poligono.__iter__` and `Window.__iter__` are display or iteration conveniences. `vars(window).items()` is modelled as the corners in declaration order (`Window.Corners`).
- Floating point is not modelled; coordinates are exact reals.
  - `round(v, 8)` is `Geometry.Round8`, round-half-to-even on the exact value.
  - `math.isclose(p[i], 0)` with default tolerances is the exact test `p[i] == 0.0`. This follows the code; a tolerance test is not what the code does.
- `math.atan2` is a parameter of `OrdenarPontos`, `CalculaListasRecorte` and `WeilerAthertonPolygonClipping`. The sort is modelled as a stable insertion sort by the key.
- `Geometry.CalculaCentroidePoligono`: requires a nonempty polygon. The Python program divides by zero on an empty one, and its only caller passes list 2, which holds at least the four corners.
- `Weiler.BuscaPontoEntrada`: requires a nonempty ring. On an empty ring the Python program fails with an attribute access on None. Its caller's rings always hold the polygon's vertices.
- `Weiler.BuscaPontoLista`: requires a nonempty ring for the same reason. The Python search loops forever when no point matches; the model stops after one lap and returns null. `WeilerAthertonPolygonClipping` then returns `Diverges`.
- `Weiler.Walk`: returns null where the Python loop would spin forever.
- `Geometry.CopyPontos`: requires distinct points. `copy.deepcopy` would share a copy between repeated occurrences, which never occur in the lists it copies (proved distinct).
- `Cohen.CohenSutherlandClipping`: requires a window with min <= max on both axes. The Python program does not check this. The termination proof needs it.
- `Weiler.WindowHalf`: states where the emitted points come from, not that they are marked UTILIZADA. That is stated by `Weiler.HalfPass`, which it calls.
- `Weiler.WeilerAthertonPolygonClipping`:
  - does not state when the result is `Diverges` for a polygon whose list 1 holds an ENTRANDO point (there the Python loop can spin forever, and the model stops after one lap), nor the coordinates of the traversal's output;
  - does not state that the result points are fresh copies (stated by `Weiler.ClipCut` and `Weiler.ClipLists`).
  - Whether the result equals the true intersection of polygon and window is not claimed, because the Python program neither promises nor checks it. The same holds for polygons whose clip has several loops, and for polygons that enclose the window without any edge being cut: these have no cut, so they come out empty.
- The cyclic import between `algoritmos/poligonos.py` and the line clippers is ignored. Both names refer to the same functions.
- Where the code and its description differ, the model follows the code:
  - A polygon with no cut edge and a vertex outside yields a polygon with the default colour "black". That return happens before the colour is copied (algoritmos/poligonos.py:420-422, 467).
  - Cohen-Sutherland on (-5,5)-(15,5) in window (0,0)-(10,10) returns both endpoints as one object at (10,5), not (0,5)-(10,5). The single scratch point (reta_cohen.py:37) is reused for every replacement. `Cohen.CohenSutherlandClipping` states this sharing, not the textbook result.
  - Liang-Barsky endpoints that are not moved keep the original point's tag rather than being reset. The top edge is read from the upper-right corner (reta_liang.py:22), while Cohen-Sutherland reads it from the upper-left corner (reta_cohen.py:16). The two agree for a window built by `Window`.
