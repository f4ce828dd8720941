# MinigameMapGenerator, modelled in Dafny

This project models the deterministic core of a Unity map generator and of
the small game played on its maps, and proves properties of that model.

The generator cuts a boundary polygon into irregular cells:

- it samples Poisson-disk sites inside the polygon;
- it tops up the sites around the centre;
- it reduces them to a maximum count by farthest-point selection, keeping the centre and the protected sites near it;
- it clips one Voronoi cell per site;
- it insets each cell by a gap and pads it to a minimum number of corners;
- it keeps the cells with more than two corners as pieces;
- it picks the start piece;
- it links the cells whose polygons share an edge.

The game then opens cells one at a time, starting from the start cell. A
locked cell becomes available once it neighbours the current cell. The game
is won once every cell is opened.

Modules, one per source file or concern:

| file | module | source |
|---|---|---|
| `geometry.dfy` | `Geometry`, `Sequences`, `UnityRandom` | `Vector2`, `Mathf` and `UnityEngine.Random`, as values and oracles |
| `polygon_utils.dfy` | `PolygonUtils` | `Assets/Scripts/Utils/PolygonUtils.cs` |
| `vornoi_poisson.dfy` | `PoissonSampling` | `VornoiUtils.PoissonDiskSamples` |
| `vornoi_reduce.dfy` | `SiteReduction` | `VornoiUtils.ReduceSites` |
| `cell_graph.dfy` | `CellModels`, `CellGraphBuilder` | `Assets/Scripts/Models/CellModel.cs`, `Assets/Scripts/Core/CellGraphBuilder.cs` |
| `map_generator.dfy` | `MapGeneration` | `Assets/Scripts/Core/MapGenerator.cs` |
| `game_controller.dfy` | `GameControllers` | `Assets/Scripts/Core/GameController.cs` |

**How the source is represented.**

- Coordinates are exact `real` pairs.
- Unity's `Random` is an explicit stream value `Rng`, threaded through every call that draws from it. `Random.InitState(seed)` becomes the stream the caller passes in.
- `Mathf.Sqrt`, `Mathf.Cos` and `Mathf.Sin` are oracles passed as parameters. The only facts assumed about them are stated as predicates (`IsSqrt`, `UnitCircle`) in the contracts that need them.
- The Voronoi calculator and clipper are a function `clip(sites, i)`. It gives the clipped cell of site `i`, which may be empty.
- The code's loops are methods with loop invariants. Each is proved against a specification function (for example `Grow` for the sampler's main loop, `TopUp` for the centre top-up) or states its result outright.
- `CellModel`, `MapGenerator` and `GameController` are classes whose methods update their fields in place.
- `MeshFromPolygon` and `ReduceSites` fill arrays, and so does the Poisson sampler's grid (a two-dimensional array).
- A `CellController` is represented by its `CellModel`. The only state the game logic reads or writes through a controller is the model's.

**Behaviour of the code worth noting:**

- The sampler's distance check is local. It covers only the samples recorded in the grid cells at most two away, and each grid cell remembers only its latest sample. So the model proves the local check (`Clear`, stated over the newest sample of each nearby cell), not a global minimum distance.
- `ReduceSites` truncates its output to `maxSites`. A protected site is guaranteed to be kept when the centre and the protected sites number at most `maxSites`; beyond that, some protected sites can be cut.
- With `maxSites <= 1`, `ReduceSites` lists site 1 as well when site 1 is protected.
- Padding stops after 32 insertions, so a cell may end below `minPolygonCorners`.
- With no cells at all, the start cell is null and `GameController.Init` throws. The model returns this as `thrown`.

## Model

| member | source | states |
|---|---|---|
| UnityRandom.Range | Assets/Scripts/Utils/VornoiUtils.cs:37-38 | `Random.Range(lo, hi)` on floats takes exactly one draw and, for `lo <= hi`, lies in `[lo, hi]` |
| UnityRandom.RangeInt | Assets/Scripts/Utils/VornoiUtils.cs:54 | `Random.Range(0, n)` on ints takes one draw and lies in `[0, n)`, so it indexes the active list |
| Sequences.EmbedsAfterInsert | Assets/Scripts/Utils/PolygonUtils.cs:183 | inserting into a list keeps every earlier element, in order, shifted past the insertion point |
| PolygonUtils.ShareEdge | Assets/Scripts/Utils/PolygonUtils.cs:8-21 | true exactly when at least two vertex pairs, one vertex from each polygon, are closer than `eps` (`ClosePairs >= 2`) |
| PolygonUtils.ClosePairsSymmetric | Assets/Scripts/Utils/PolygonUtils.cs:13-18 | the number of close vertex pairs does not depend on which polygon is scanned first |
| PolygonUtils.SharesEdgeSymmetric | Assets/Scripts/Utils/PolygonUtils.cs:8-21 | the edge-sharing test is symmetric in its two polygons |
| PolygonUtils.SharesEdgeEmpty | Assets/Scripts/Utils/PolygonUtils.cs:13-20 | a polygon without vertices shares an edge with nothing |
| PolygonUtils.IsPointInPolygon | Assets/Scripts/Utils/PolygonUtils.cs:134-154 | the even-odd rule: false below three vertices, otherwise true exactly when the ray crosses an odd number of the edges `(j, i)` |
| PolygonUtils.NoCrossingsOutsideSpan | Assets/Scripts/Utils/PolygonUtils.cs:140-151 | a ray level with or above every vertex, or below every vertex, crosses no edge |
| PolygonUtils.OutsideVerticalSpan | Assets/Scripts/Utils/PolygonUtils.cs:139-153 | a point at or above the topmost vertex, or below the lowest, is outside |
| PolygonUtils.InsetVertexKept | Assets/Scripts/Utils/PolygonUtils.cs:120-123 | with no positive gap, or a vertex (almost) on the centre, the vertex is copied unchanged |
| PolygonUtils.InsetVertexFraction | Assets/Scripts/Utils/PolygonUtils.cs:124-128 | otherwise the vertex moves straight toward the centre by the fraction `s`, with `0 < s <= 0.999`, covering `min(gap, 0.999 dist)` |
| PolygonUtils.InsetVertexMoves | Assets/Scripts/Utils/PolygonUtils.cs:114-128 | every vertex of the inset is either kept or moved toward the centre as above |
| PolygonUtils.InsetTravel | Assets/Scripts/Utils/PolygonUtils.cs:126-127 | a vertex that moves travels at most `gap` |
| PolygonUtils.MoveDistance | Assets/Scripts/Utils/PolygonUtils.cs:127 | moving the fraction `s` along `c - v` covers `s` times the distance from `v` to `c` |
| PolygonUtils.ShrinkPolygonTowardsCenter | Assets/Scripts/Utils/PolygonUtils.cs:103-132 | a new list of the same length (empty gives empty); each vertex is kept or moved toward the vertex average as above |
| PolygonUtils.Longest | Assets/Scripts/Utils/PolygonUtils.cs:165-177 | the first of the longest among the first `n` edges: no edge is longer and every earlier one is strictly shorter |
| PolygonUtils.FirstLongestUnique | Assets/Scripts/Utils/PolygonUtils.cs:165-177 | a polygon has exactly one first longest edge |
| PolygonUtils.LongestIsFirst | Assets/Scripts/Utils/PolygonUtils.cs:165-177 | `Longest` over all edges finds that edge |
| PolygonUtils.LongestEdge | Assets/Scripts/Utils/PolygonUtils.cs:165-177 | the scan finds the first of the longest edges (`Longest`): no edge is longer and every earlier edge is strictly shorter; the closing edge counts |
| PolygonUtils.PadStep | Assets/Scripts/Utils/PolygonUtils.cs:179-183 | one padding step inserts a vertex right after the first longest edge's first vertex, within `1e-3` per axis of that edge's midpoint, and takes two draws |
| PolygonUtils.InsertMidpoint | Assets/Scripts/Utils/PolygonUtils.cs:165-183 | the code of one step computes `PadStep`: a vertex after the first longest edge's first vertex, within `1e-3` per axis of its midpoint, using two draws |
| PolygonUtils.Padded | Assets/Scripts/Utils/PolygonUtils.cs:162-186 | after `n` padding steps the polygon has `n` more vertices and `2 n` draws are taken |
| PolygonUtils.PaddedStep | Assets/Scripts/Utils/PolygonUtils.cs:165-183 | padding step `t` inserts its vertex right after the first longest edge of the polygon as padded so far, near that edge's midpoint, leaving the other vertices in place |
| PolygonUtils.PaddedNearMidpoints | Assets/Scripts/Utils/PolygonUtils.cs:162-186 | every padding step does so |
| PolygonUtils.EnsureMinVertices | Assets/Scripts/Utils/PolygonUtils.cs:156-189 | the length is `count` when `count >= minVerts` or `count == 0`, else `min(minVerts, count + 32)`; the input survives in order as a subsequence; each inserted vertex takes two draws; a non-empty result is `Padded` by that many steps, so each inserted vertex is a jittered first-longest-edge midpoint |
| PolygonUtils.WriteRing | Assets/Scripts/Utils/PolygonUtils.cs:37-47 | one ring of the polygon at height `z` is written from `start`, and nothing else in the array changes |
| PolygonUtils.WriteSideVertices | Assets/Scripts/Utils/PolygonUtils.cs:49-64 | four vertices per side (edge `i` to `i + 1`, wrapping), front then back, after both rings, which are left untouched |
| PolygonUtils.WriteVertices | Assets/Scripts/Utils/PolygonUtils.cs:37-64 | the whole vertex buffer: front ring, back ring and the side vertices |
| PolygonUtils.WriteFrontCap | Assets/Scripts/Utils/PolygonUtils.cs:67-72 | front-cap triangle `t` is `(0, t + 1, t + 2)` |
| PolygonUtils.WriteBackCap | Assets/Scripts/Utils/PolygonUtils.cs:74-79 | back-cap triangle `t` is `(n, n + t + 2, n + t + 1)`, stored after the front cap, which is left untouched |
| PolygonUtils.WriteQuad | Assets/Scripts/Utils/PolygonUtils.cs:85-91 | the two triangles of a side quad starting at `s`, with everything before them untouched |
| PolygonUtils.WriteSideQuads | Assets/Scripts/Utils/PolygonUtils.cs:81-92 | the side quads follow both caps, and each is `(s, s + 1, s + 2)` and `(s, s + 2, s + 3)` for `s = 2n + 4q` |
| PolygonUtils.WriteTriangles | Assets/Scripts/Utils/PolygonUtils.cs:67-92 | the whole index buffer: both fans and every side quad |
| PolygonUtils.MeshFromPolygon | Assets/Scripts/Utils/PolygonUtils.cs:23-101 | no vertices fails with a negative array size; one vertex overruns the empty index array; otherwise `6 n` vertices and `3 (4 n - 4)` indices laid out as a prism |
| PolygonUtils.CapTrianglesProper | Assets/Scripts/Utils/PolygonUtils.cs:67-79 | every cap triangle names three distinct existing vertices |
| PolygonUtils.SideTrianglesProper | Assets/Scripts/Utils/PolygonUtils.cs:81-92 | every side triangle names three distinct existing vertices |
| PolygonUtils.PrismTrianglesProper | Assets/Scripts/Utils/PolygonUtils.cs:67-92 | all `4 n - 4` triangles name three distinct vertices below `6 n` |
| PolygonUtils.PrismIndicesInRange | Assets/Scripts/Utils/PolygonUtils.cs:25-92 | every entry of the index buffer is a valid vertex index |
| PoissonSampling.Cell | Assets/Scripts/Utils/VornoiUtils.cs:27-28 | the clamped grid coordinate of a point is always a valid column (row) |
| PoissonSampling.GridSize | Assets/Scripts/Utils/VornoiUtils.cs:16-17 | the grid has at least one column and one row |
| PoissonSampling.NewGrid | Assets/Scripts/Utils/VornoiUtils.cs:18-21 | a fresh `cols x rows` grid with every cell `-1` |
| PoissonSampling.Layout | Assets/Scripts/Utils/VornoiUtils.cs:12-17 | the grid geometry: cell size `minDist / sqrt 2`, `GridSize` columns and rows (at least one each), and the given polygon, bounds, distance and attempt count |
| PoissonSampling.Newest | Assets/Scripts/Utils/VornoiUtils.cs:27-29 | the latest sample lying in a grid cell, `-1` when none does: it lies in that cell and no later sample does |
| PoissonSampling.GridEntries | Assets/Scripts/Utils/VornoiUtils.cs:78-81 | every grid entry is `-1` or the index of a sample |
| PoissonSampling.WindowClearIsClear | Assets/Scripts/Utils/VornoiUtils.cs:70-89 | the scan of the grid window around the candidate's cell decides exactly the local clearance `Clear` |
| PoissonSampling.CandidateClear | Assets/Scripts/Utils/VornoiUtils.cs:72-89 | `ok` exactly when no sample recorded within two cells of the candidate's cell is closer than `minDist` |
| PoissonSampling.Remember | Assets/Scripts/Utils/VornoiUtils.cs:95 | storing the newest index in its own cell keeps every grid cell holding the newest sample lying in it |
| PoissonSampling.FirstInside | Assets/Scripts/Utils/VornoiUtils.cs:32-49 | the seeding loop's stopping attempt: the first of the `k` bounded draws that lands in the polygon, or `k` when none does |
| PoissonSampling.SeedChoice | Assets/Scripts/Utils/VornoiUtils.cs:23-50 | the seed is the centre when the polygon holds it (no draws); otherwise one sample exactly when some of the `k` draws lands in the polygon, and, for ordered bounds, that draw lies in them |
| PoissonSampling.SeedSample | Assets/Scripts/Utils/VornoiUtils.cs:23-50 | the seeding code computes `Seed`, with its two draws per attempt, and leaves the grid recording sample 0 |
| PoissonSampling.CandidateFrom | Assets/Scripts/Utils/VornoiUtils.cs:60-62 | attempt `i` reads the stream after the `2 i` draws of the earlier attempts |
| PoissonSampling.FirstAccepted | Assets/Scripts/Utils/VornoiUtils.cs:58-99 | the first of the `k` candidates around a point that is in the bounds, in the polygon and clear, or `k` when none is |
| PoissonSampling.SomeAccepted | Assets/Scripts/Utils/VornoiUtils.cs:58-99 | the attempt loop succeeds exactly when some of its `k` candidates is accepted |
| PoissonSampling.TryCandidate | Assets/Scripts/Utils/VornoiUtils.cs:60-89 | one attempt takes two draws and accepts its candidate exactly when it is in the bounds, in the polygon and clear |
| PoissonSampling.TryAround | Assets/Scripts/Utils/VornoiUtils.cs:58-99 | `found` exactly when some of the `k` candidates is accepted; then the candidate is the first accepted one and `2 (r + 1)` draws are taken, otherwise two per attempt |
| PoissonSampling.GrowAppendsAccepted | Assets/Scripts/Utils/VornoiUtils.cs:52-103 | the main loop only appends, never past `maxSamples`, and every appended sample was accepted against the samples before it |
| PoissonSampling.GrowDone | Assets/Scripts/Utils/VornoiUtils.cs:52 | with no active point or `maxSamples` reached, the main loop stops |
| PoissonSampling.Pass | Assets/Scripts/Utils/VornoiUtils.cs:53-102 | one pass appends and activates the accepted candidate, or retires the picked point, keeping the grid records and the `Grow` outcome |
| PoissonSampling.GrowFromSeed | Assets/Scripts/Utils/VornoiUtils.cs:23-103 | from the seed, every sample is inside the polygon, and every later one is in the bounds and clear of the samples before it |
| PoissonSampling.PoissonDiskSamples | Assets/Scripts/Utils/VornoiUtils.cs:7-106 | the result is `Grow` from `Seed`: at most `max(maxSamples, 1)` samples, all inside the polygon; every later sample lies in the bounds and is clear of the earlier ones; the centre comes first when the polygon holds it; the main loop terminates |
| SiteReduction.Pick | Assets/Scripts/Utils/VornoiUtils.cs:163-172 | the sites at the listed positions, in that order |
| SiteReduction.ProtectedKeep | Assets/Scripts/Utils/VornoiUtils.cs:114-123 | position `i` is kept exactly when it is 0 or an in-range protected index; out-of-range ones are ignored |
| SiteReduction.MarkProtected | Assets/Scripts/Utils/VornoiUtils.cs:114-123 | the `keep` array after the protection loop is `ProtectedKeep` |
| SiteReduction.TrueIndices | Assets/Scripts/Utils/VornoiUtils.cs:125-130 | the `selected` list holds only kept positions, as many as are kept |
| SiteReduction.TrueIndicesComplete | Assets/Scripts/Utils/VornoiUtils.cs:125-130 | `selected` is strictly increasing and lists every kept position |
| SiteReduction.TrueIndicesPrefix | Assets/Scripts/Utils/VornoiUtils.cs:126-130 | a shorter scan lists a prefix of what a longer scan lists |
| SiteReduction.SelectKept | Assets/Scripts/Utils/VornoiUtils.cs:125-130 | the loop lists exactly the kept positions in order |
| SiteReduction.CountSet | Assets/Scripts/Utils/VornoiUtils.cs:159 | keeping one more site adds one to the kept count |
| SiteReduction.MinSqDist | Assets/Scripts/Utils/VornoiUtils.cs:142-147 | `minDistSq` lies between 0 and `float.MaxValue` |
| SiteReduction.MinSqDistIsLeast | Assets/Scripts/Utils/VornoiUtils.cs:142-147 | `minDistSq` is at most the squared distance to every selected site, and equals one of them unless it is still `float.MaxValue` |
| SiteReduction.ClosestSelected | Assets/Scripts/Utils/VornoiUtils.cs:142-147 | the inner loop computes `MinSqDist` |
| SiteReduction.Farthest | Assets/Scripts/Utils/VornoiUtils.cs:135-154 | `-1` exactly when every site is kept; otherwise an unkept site whose `minDistSq` is the largest, ties going to the lowest index (strict `>`) |
| SiteReduction.FarthestUnkept | Assets/Scripts/Utils/VornoiUtils.cs:135-154 | the scan computes `Farthest` |
| SiteReduction.Greedy | Assets/Scripts/Utils/VornoiUtils.cs:133-161 | a selection already holding `maxSites` sites is left alone |
| SiteReduction.GreedyFills | Assets/Scripts/Utils/VornoiUtils.cs:133-161 | the greedy loop keeps every kept site, keeps `selected` exact and, with more sites than `maxSites`, ends with `max(kept, maxSites)` kept sites |
| SiteReduction.GrowSelection | Assets/Scripts/Utils/VornoiUtils.cs:133-161 | the loop over the `keep` array and `selected` computes `Greedy` |
| SiteReduction.Emit | Assets/Scripts/Utils/VornoiUtils.cs:163-172 | every listed position indexes the sites |
| SiteReduction.EmitTakesPrefix | Assets/Scripts/Utils/VornoiUtils.cs:163-172 | the result loop lists the first `maxSites` kept positions, or all of them |
| SiteReduction.ListKept | Assets/Scripts/Utils/VornoiUtils.cs:163-172 | the result loop: the first site, then the kept ones in order, stopping at `maxSites` |
| SiteReduction.ReduceIndices | Assets/Scripts/Utils/VornoiUtils.cs:114-172 | every listed position indexes the sites |
| SiteReduction.GreedyKeep | Assets/Scripts/Utils/VornoiUtils.cs:114-161 | after the greedy loop, site 0 and every in-range protected site are kept, and `max(initially kept, maxSites)` sites are kept in all |
| SiteReduction.ReduceFits | Assets/Scripts/Utils/VornoiUtils.cs:110-112 | with no more sites than `maxSites` the sites are returned as they are |
| SiteReduction.ReduceIndicesPrefix | Assets/Scripts/Utils/VornoiUtils.cs:114-172 | with `maxSites >= 2` the listing is a prefix of the kept positions, with the kept count as above |
| SiteReduction.ReduceIndicesOrdered | Assets/Scripts/Utils/VornoiUtils.cs:163-172 | the listed positions start at 0 and strictly increase |
| SiteReduction.ReduceKeepsOrder | Assets/Scripts/Utils/VornoiUtils.cs:108-175 | the result starts with the first site and is an order-preserving subsequence of the input |
| SiteReduction.ReduceCount | Assets/Scripts/Utils/VornoiUtils.cs:116-172 | with `maxSites >= 2`, at most `maxSites` sites; exactly `maxSites`, including site 0 and every in-range protected site, when those number at most `maxSites` |
| SiteReduction.SmallLimitIndices | Assets/Scripts/Utils/VornoiUtils.cs:163-172 | with `maxSites <= 1` the listing is position 0, then position 1 when it is protected |
| SiteReduction.ReduceSmallLimit | Assets/Scripts/Utils/VornoiUtils.cs:108-172 | with `maxSites <= 1` the result is the first site, then the second when index 1 is protected |
| SiteReduction.ReduceSites | Assets/Scripts/Utils/VornoiUtils.cs:108-175 | the method returns what `Reduce` defines (the fitting case, the reduction, and the failure on an empty list with a negative `maxSites`), which the lemmas above characterise |
| CellModels.CellModel.constructor | Assets/Scripts/Models/CellModel.cs:6-7 | a new cell is locked and has no neighbours |
| CellGraphBuilder.LinkedIsShared | Assets/Scripts/Core/CellGraphBuilder.cs:16-21 | two cells are linked exactly when they differ and their polygons share an edge, whichever is asked first |
| CellGraphBuilder.LinksMembers | Assets/Scripts/Core/CellGraphBuilder.cs:15-26 | model `y` is among `x`'s links below `hi` exactly when `y < hi` and they are linked |
| CellGraphBuilder.LinksAreModels | Assets/Scripts/Core/CellGraphBuilder.cs:23-24 | every link is one of the models |
| CellGraphBuilder.LinksDistinct | Assets/Scripts/Core/CellGraphBuilder.cs:15-26 | no model is linked twice |
| CellGraphBuilder.BuildAdjacency | Assets/Scripts/Core/CellGraphBuilder.cs:15-26 | the adjacency is symmetric, holds exactly for distinct cells whose polygons share an edge, has no self-loops and no duplicates |
| CellGraphBuilder.GainedStep | Assets/Scripts/Core/CellGraphBuilder.cs:18-25 | testing pair `(i, j)` appends `j` to `i`'s list and `i` to `j`'s exactly when they are linked, and nothing to any other |
| CellGraphBuilder.RowBoundaries | Assets/Scripts/Core/CellGraphBuilder.cs:15-16 | each row of the outer loop starts where the previous one ended |
| CellGraphBuilder.LinkPair | Assets/Scripts/Core/CellGraphBuilder.cs:23-24 | each of the two models gains the other at the end of its list; states are untouched |
| CellGraphBuilder.LinkStep | Assets/Scripts/Core/CellGraphBuilder.cs:18-25 | one pass of the inner loop advances every model's list by one pair |
| CellGraphBuilder.LinkRow | Assets/Scripts/Core/CellGraphBuilder.cs:16-25 | the inner loop tests `i` against every later cell |
| CellGraphBuilder.Build | Assets/Scripts/Core/CellGraphBuilder.cs:9-27 | every model's list is its old list followed by its links in order of position; states are untouched |
| MapGeneration.BoundsEnclose | Assets/Scripts/Core/MapGenerator.cs:92-107 | the bounds the scan reaches enclose every vertex, and each is a vertex coordinate or still its starting value; no vertices leave the starting values |
| MapGeneration.CalculatePolygonBounds | Assets/Scripts/Core/MapGenerator.cs:92-107 | the scan reaches `Bounds`: every vertex lies within the bounds; each bound is a vertex coordinate or still its starting value; an empty polygon gives `(float.MaxValue, float.MinValue)` |
| MapGeneration.BoundsAttained | Assets/Scripts/Core/MapGenerator.cs:97-104 | for a non-empty polygon of single-precision vertices every bound is attained |
| MapGeneration.AwayFrom | Assets/Scripts/Core/MapGenerator.cs:113-118 | the filter keeps at most as many samples as it is given |
| MapGeneration.AwayFromSelects | Assets/Scripts/Core/MapGenerator.cs:113-118 | the filter keeps, in order, exactly the samples at squared distance at least `1e-6` from the centre |
| MapGeneration.BuildInitialSites | Assets/Scripts/Core/MapGenerator.cs:109-121 | the centre, then the samples that do not coincide with it, in order |
| MapGeneration.NearCountPrefix | Assets/Scripts/Core/MapGenerator.cs:126-130 | the count of sites near the centre looks only at the sites counted |
| MapGeneration.NearCountTopUp | Assets/Scripts/Core/MapGenerator.cs:142-156 | appending sites inside the radius raises the near count by their number |
| MapGeneration.CountCenterNeighbors | Assets/Scripts/Core/MapGenerator.cs:125-130 | counts the sites from index 1 on whose distance to the centre is at most the radius |
| MapGeneration.NearIndices | Assets/Scripts/Core/MapGenerator.cs:160-169 | index 0 first, then one index per site near the centre |
| MapGeneration.NearIndicesOrdered | Assets/Scripts/Core/MapGenerator.cs:160-169 | those indices strictly increase, index the sites, and list exactly the sites within the radius |
| MapGeneration.GetProtectedIndices | Assets/Scripts/Core/MapGenerator.cs:160-169 | the loop computes `NearIndices`: 0 first, then, strictly increasing, exactly the indices `i >= 1` of sites within the radius; their number is one plus the near count |
| MapGeneration.NeighborCandidate | Assets/Scripts/Core/MapGenerator.cs:138-140 | each candidate takes exactly two draws |
| MapGeneration.PolarDistance | Assets/Scripts/Core/MapGenerator.cs:140 | a point placed at distance `r` along an angle lies at squared distance `r^2` |
| MapGeneration.CandidateWithinRadius | Assets/Scripts/Core/MapGenerator.cs:138-140 | with a non-negative radius, every candidate lies within the centre-neighbour radius |
| MapGeneration.FarFromAll | Assets/Scripts/Core/MapGenerator.cs:145-153 | not too close exactly when every site keeps the clearance from the candidate |
| MapGeneration.TopUp | Assets/Scripts/Core/MapGenerator.cs:136-156 | after `n` attempts at most `n` points are appended and existing sites never change; each appended point is inside the boundary and at squared distance at least `0.36 minSiteDistance^2` from every earlier site |
| MapGeneration.TopUpWithin | Assets/Scripts/Core/MapGenerator.cs:138-156 | with unit-circle oracles every appended point lies within the centre-neighbour radius |
| MapGeneration.TopUpNear | Assets/Scripts/Core/MapGenerator.cs:125-156 | so the near count rises by exactly the number of appended points |
| MapGeneration.CenterTopUp | Assets/Scripts/Core/MapGenerator.cs:125-157 | existing sites are kept and the stream is the one given, whether or not a top-up happens |
| MapGeneration.EnsureCenterNeighbors | Assets/Scripts/Core/MapGenerator.cs:123-157 | a no-op when enough sites are near; otherwise the attempt loop computes `TopUp` over `need` attempts, with two draws each, so the properties of `TopUp` hold of the result |
| MapGeneration.ReducedSites | Assets/Scripts/Core/MapGenerator.cs:59-69 | the sites handed to the Voronoi step are `Reduce` of the topped-up sites of `SitePipeline` (bounds, `Grow` from `Seed`, the initial sites, `CenterTopUp`), with `NearIndices` protected; they start with the centre, and the stream is the one left after the top-up |
| MapGeneration.IndexOf | Assets/Scripts/Core/MapGenerator.cs:241 | the first position holding the piece, or `-1` exactly when none does |
| MapGeneration.FindCentralPiece | Assets/Scripts/Core/MapGenerator.cs:211-219 | null exactly when no piece contains the site; otherwise the first piece, in key order, that contains it |
| MapGeneration.StartPiece | Assets/Scripts/Core/MapGenerator.cs:77-79 | the central piece, else the piece of site 0 if there is one, else none |
| MapGeneration.InsetAndPad | Assets/Scripts/Core/MapGenerator.cs:185-188 | shrinking then padding gives `PaddedCount` vertices, and without padding each vertex moves as the inset promises |
| MapGeneration.MapGenerator.constructor | Assets/Scripts/Core/MapGenerator.cs:16-33 | the configured settings and no generated pieces |
| MapGeneration.MapGenerator.ClearGeneratedPieces | Assets/Scripts/Core/MapGenerator.cs:245-268 | the list of generated pieces is emptied |
| MapGeneration.MapGenerator.CreatePiecesFromSites | Assets/Scripts/Core/MapGenerator.cs:171-209 | site `i` gets a fresh piece exactly when its clip is non-empty and has more than two vertices once padded; pieces are keyed by increasing site and appended to the generated pieces; each has `PaddedCount` vertices |
| MapGeneration.MapGenerator.CreateCellConnections | Assets/Scripts/Core/MapGenerator.cs:221-243 | one fresh, locked, distinct cell per generated piece, linked with tolerance `2 gap`; the start cell is the central piece's cell, else the first cell, else null |
| MapGeneration.MapGenerator.GenerateVoronoi | Assets/Scripts/Core/MapGenerator.cs:54-90 | earlier pieces are kept and new ones have at least three vertices; one cell per generated piece, linked as `Build` promises; there is a start cell, one of the cells, exactly when there is a cell |
| MapGeneration.MapGenerator.GenerateMap | Assets/Scripts/Core/MapGenerator.cs:40-52 | the generated pieces are exactly the new ones, one linked cell each, with a start cell exactly when there is a cell |
| GameControllers.CountOpened | Assets/Scripts/Core/GameController.cs:106-111 | the number of opened cells never exceeds the number of cells |
| GameControllers.CountOpenedAll | Assets/Scripts/Core/GameController.cs:106-111 | the count equals the number of cells exactly when every cell is opened |
| GameControllers.CountOpenedSame | Assets/Scripts/Core/GameController.cs:81-104 | the count depends only on which cells are opened |
| GameControllers.CountOpenedOneMore | Assets/Scripts/Core/GameController.cs:71-73 | opening one more cell, with no other change in openness, adds one |
| GameControllers.CountOpenedSingle | Assets/Scripts/Core/GameController.cs:52-56 | a single opened cell counts one |
| GameControllers.CountOpenedPositive | Assets/Scripts/Core/GameController.cs:52-56 | an opened cell is counted |
| GameControllers.CountOpenedBounds | Assets/Scripts/Core/GameController.cs:106-111 | with one opened cell the count lies between 1 and the number of cells, and reaches it exactly when every cell is opened |
| GameControllers.CountOpenedZero | Assets/Scripts/Core/GameController.cs:46-50 | no opened cell counts zero |
| GameControllers.Refreshed | Assets/Scripts/Core/GameController.cs:83-103 | opened cells stay opened and nothing else becomes opened; a cell is available afterwards exactly when it neighbours the current cell and is not opened, or it was available and is not a map cell |
| GameControllers.LockAll | Assets/Scripts/Core/GameController.cs:46-50 | every cell is locked |
| GameControllers.LockAvailable | Assets/Scripts/Core/GameController.cs:83-90 | every available cell is locked again, and every other cell keeps its state |
| GameControllers.MakeAvailable | Assets/Scripts/Core/GameController.cs:95-103 | every neighbour that is not opened becomes available, and opened ones stay opened |
| GameControllers.GameController.constructor | Assets/Scripts/Core/GameController.cs:16-18 | no cells, a count of zero and no current cell |
| GameControllers.GameController.Init | Assets/Scripts/Core/GameController.cs:42-58 | all cells are locked, then the start cell is opened and current with a count of one, and exactly its non-opened neighbours are available; a null start throws after the locking; the game is valid on a closed map of distinct cells |
| GameControllers.GameController.OnGenerateMapClicked | Assets/Scripts/Core/GameController.cs:60-64 | `Init` throws exactly when the new map has no cells; otherwise the game starts valid with one opened cell |
| GameControllers.GameController.UpdateAvailable | Assets/Scripts/Core/GameController.cs:81-104 | every map cell and every neighbour of the current cell ends in its `Refreshed` state; opened cells are untouched |
| GameControllers.GameController.Open | Assets/Scripts/Core/GameController.cs:71-77 | the cell is opened, counted and made current, and the others are refreshed around it |
| GameControllers.GameController.OnCellClicked | Assets/Scripts/Core/GameController.cs:66-79 | nothing changes unless the cell is available; otherwise it is opened, counted and current, and the win is reported exactly when the count reaches the number of cells, that is, when every cell is opened; opened cells stay opened; a valid game stays valid |
| GameControllers.GameController.ValidAfterInit | Assets/Scripts/Core/GameController.cs:52-57 | after `Init` the count of one matches the single opened cell |
| GameControllers.GameController.ValidAfterOpen | Assets/Scripts/Core/GameController.cs:71-77 | after an opening click the count still equals the number of opened cells |
| GameControllers.GameController.CheckWin | Assets/Scripts/Core/GameController.cs:106-111 | the win screen is shown exactly when the count has reached the number of cells, which in a valid game means every cell is opened |
| GameControllers.GameController.WinMeansAllOpened | Assets/Scripts/Core/GameController.cs:106-111 | in a valid game the count lies between 1 and the number of cells, and it reaches that number exactly when every cell is opened |

## Left out

- Unity engine plumbing:
  - `MonoBehaviour` lifecycle, `Awake`, `OnDestroy` and the `GameController.Instance` singleton;
  - event wiring;
  - `Instantiate`, `Destroy` and `DestroyImmediate`;
  - transforms and `SetActive`;
  - `VornoiSurface.Initialize`, `MarkAsStartingCell` and materials and colours;
  - `SyncView`, the player marker and `GameView.ShowWinScreen`.

  These are engine side effects with no checkable logic. The win screen is the result `won` / `shown`.
- The `Mesh` object and the normals of `MeshFromPolygon`: only the vertex positions and the triangle index layout are modelled.
- The Voronoi calculator and clipper are an external library. They are the parameter `clip`, which may return an empty polygon.
- `UnityEngine.Random` and `SeedController`: the seeded generator is the stream value `Rng` passed in. How a seed maps to draws is not modelled.
- Floating point:
  - coordinates are exact reals and single-precision rounding is not modelled;
  - `magnitude <= r` is compared in squares (`WithinRadius`), which agrees for exact arithmetic;
  - the literal constants keep their decimal values.
- `Mathf.Sqrt`, `Mathf.Cos` and `Mathf.Sin` are oracles. `Vector2.normalized` is modelled with its `1e-5` cut-off.
- PolygonUtils.IsPointInPolygon: the `Mathf.Epsilon` added to the denominator is dropped. The crossing test only divides when the two `y` values differ, so the denominator is never zero.
- PolygonUtils.IsPointInPolygon: a null polygon cannot be represented, since a sequence is never null.
- PolygonUtils.ShrinkPolygonTowardsCenter: "never reaches the centre" is stated as the fraction `s <= 0.999` of the way there, not as a distance.
- PoissonSampling.PoissonDiskSamples: only configurations with `minDist > 0` are modelled. With `minDist == 0` the cell size is zero and the grid size divides by zero. With `minDist < 0` the cell size is negative and the grid collapses to one column and one row. Neither case is covered.
- PoissonSampling.PoissonDiskSamples: no global minimum distance is stated, only the local grid check (`Clear`).
- MapGeneration.MapGenerator.CreatePiecesFromSites: the number of draws is not stated.
- MapGeneration.MapGenerator.CreatePiecesFromSites: the vertex positions of a piece are stated only through `InsetAndPad`, and only when no padding happened.
- MapGeneration.MapGenerator.GenerateVoronoi: the number of draws is not stated, and neither are the sites the pieces come from. Those sites are stated by `ReducedSites`; the other properties are those of the steps it calls, each proved on its own.
- MapGeneration.MapGenerator.GenerateMap: the `_startingSurface != null` check and the starting surface's activation are left out.
- MapGeneration.EnsureCenterNeighbors: "every appended point lies within the radius", and so the rise in the near count, is proved only for oracles with `cos^2 + sin^2 = 1`.
- MapGeneration.FindCentralPiece: the enumeration order of the `piecesBySite` dictionary is taken to be insertion order, which is increasing site index since nothing is removed.
- CellGraphBuilder.Build: requires the models to be distinct. Its only caller creates a fresh model per piece, so they are.
- Controllers are represented by their `CellModel`, and `_cells.Find(c => c.Model == neighbor)` only locates a view to refresh.
- A new `CellModel`'s state is the enum's default, taken to be `Locked`.
- GameControllers.GameController.Init: the game invariant is proved only when the start cell is one of the cells, the cells are distinct and every neighbour is a cell. A generated map meets all three.
