# Patch merging and ridge/valley feature graphs, modelled in Dafny

This project models two grid routines of a terrain-synthesis library and
proves what they compute.

**Seam removal and patch placement** (`patchmerge.hpp`).
`poissonSeamRemoval(synthesis, mask, seam_mask)` assembles an overdetermined
sparse system over a height field:

- every masked, defined cell emits one gradient row per axis on which it has
  a masked neighbour;
- every unmasked, defined cell next to the mask emits one Dirichlet row.

Unknowns are numbered lazily by the `getid` indexer (`pointToid` and
`idToPoint`). The system goes to a least-squares solver, and the solution is
written back into the field.

`placePatch(synthesis, patch, mask, pos)` works in four steps:

1. It translates the mask onto the synthesis, clipping it to the synthesis (`synthesis_mask`).
2. It marks the defined, unplaced 4-neighbours of placed cells (`seam_mask`).
3. It pastes the masked patch values.
4. It calls the seam removal.

**Feature graph** (`ppa.hpp`, the `FeatureGraph` constructor). On a
downsampled elevation grid, negated for valleys, the constructor works in six steps:

1. It selects crest candidates, numbered in row-major order.
2. It joins candidates along the four forward directions.
3. It breaks cycles with a spanning-forest step.
4. It erodes leaf edges for `profile_length / 2` rounds.
5. It builds the `nodetoedge` table.
6. From every unvisited leaf, a stack-driven depth-first walk collapses each run of degree-2 nodes into one polyline `FeatureEdge`, with `FeatureNode`s at the ends.

Both routines are modelled imperatively, as in the source. Grids the source
mutates are `array2`s, and lists it grows or maps it fills are `seq`s and
`map`s that methods reassign. The indexer is a class. Each method is proved
against a value-level specification function: `SpecSystem`, `SeamRemoval`,
`Placed`, `SeamOf`, `Pasted`, `PlacePatchResult`, `Candidates`, `NodeIds`,
`TempEdges`, `PruneRounds`, `Incidence`, and the `NodesOK`/`EdgesOK`
description of the traversal result. Lemmas then state the source's promises
about these functions.

Inputs that come from outside become parameters:

- **`solve: System -> seq<Sample>`** is the sparse least-squares solver. It returns one value per column.
- **`forest: seq<Edge> -> seq<Edge>`** is `kruskal::minSpanForest`. It is required to return a duplicate-free sub-list in which no edge's endpoints are connected by the other edges.
- **`smooth: int -> Vec2`** gives the smoothed node positions.
- **`order: map<int, seq<Edge>> -> seq<int>`** is the iteration order of the `nodetoedge` table. It is any list of the table's keys, each once (`Enumerates`), so every traversal property holds whatever order the hash map uses.
- **`thresh`** is the comparison threshold.

Behaviour the proofs bring out:

- **The seam flag never fires in `placePatch`.** `seam_mask` only marks unplaced cells, but `poissonSeamRemoval` reads the seam flag only on masked cells. So `placePatch` gives the same result as with an empty seam mask (`SeamFlagInert`, built on `SeamOnlyOnMask`).
- **A flat field fits a gradient row only at height 0.** The coefficient on the cell itself is `+count` (the code's coefficient, used throughout the model), so a field of constant height `c` satisfies a masked, non-seam cell's gradient row only when `c` is 0 (`FlatFieldGradientRow`). Poisson blending is expected to leave a flat patch on a flat plane of the same height unchanged, since such a field has zero gradient everywhere. With the code's `+count` coefficient that holds only at height 0, and the model follows the code.
- **Starting only from leaves loses nothing.** The traversal starts a tree only at a node with one edge, but in a forest every node of the table is joined to such a node (`LeafConnected`), and no table edge leaves `visited` (`ClosedWalk`). So every node of the table is visited in any iteration order of the hash map (`AllVisited`, `Traverse`), and a node is inserted only while it is still unvisited (`ChainWalk`, `ChainStep`). A root's one edge always leads out of the earlier trees (`LoneRootOpen`), so every feature node ends up listing a feature edge, and a non-empty forest yields at least one feature edge (`SomeFeatureEdge`).
- **Edge creation skips the last row and the last column.** It runs over `[0, rows - 1) x [0, cols - 1)`, so a candidate in the last row or last column is never the first cell of an edge (`EdgeShape`). For example, the edge from a last-column candidate to its `(-1, 1)` neighbour is never created.

## Model

| member | source | states |
|---|---|---|
| Indexer.GridIndexer.constructor | work/src/patchmerge.hpp:38-39 | a fresh indexer: every `pointToid` entry is -1 and `idToPoint` is empty |
| Indexer.GridIndexer.GetId | work/src/patchmerge.hpp:42-50 | a cell seen before gets its stored id and nothing changes; a new cell gets the old `idToPoint.size()`, is appended and recorded; `pointToid[idToPoint[i]] == i` and every entry below `idToPoint.size()` are kept |
| Indexer.GridIndexer.IdsDistinct | work/src/patchmerge.hpp:42-50 | the ids name pairwise distinct cells: `idToPoint` has no duplicates |
| Indexer.Dedup | work/src/patchmerge.hpp:39-50 | the `idToPoint` list of a request sequence holds each requested cell, no other, and none twice; it is no longer than the requests |
| SeamFacts.SystemFits | work/src/patchmerge.hpp:93-153 | `b_list.size() == row`; every triplet's row is below `row` and its column below `idToPoint.size()`, so the triplets fit the `row` by `idToPoint.size()` matrix |
| SeamFacts.GradientRow | work/src/patchmerge.hpp:76-124 | a masked, defined cell emits a row on an axis iff one of `p ± d` is in bounds and masked; coefficient 1 per such neighbour and `count` on `p`; rhs 0 on a seam cell, undefined if a neighbour is, else the neighbour sum minus `count * S[p]` |
| SeamFacts.VisitRows | work/src/patchmerge.hpp:71-141 | an undefined cell emits nothing; an unmasked defined cell emits exactly one row `1 * x(p) = S[p]` iff some in-bounds 4-neighbour is masked, and nothing otherwise |
| SeamFacts.EmptyMaskEmptySystem | work/src/patchmerge.hpp:64-153 | with an all-false mask no rows, triplets or ids are created |
| SeamFacts.EmptyMaskUnchanged | work/src/patchmerge.hpp:74-183 | with an all-false mask the seam removal leaves the field unchanged, whatever the solver returns |
| SeamFacts.WrittenBackExactly | work/src/patchmerge.hpp:180-183 | the write-back sets the cell of id `i` to `x(i)` and leaves every cell without an id unchanged |
| SeamFacts.SeamOnlyOnMask | work/src/patchmerge.hpp:96-121 | two seam masks that agree on the masked cells give the same rows, ids and system |
| SeamFacts.FlatFieldGradientRow | work/src/patchmerge.hpp:93-97 | on a constant field `c` the gradient row of a masked non-seam cell has rhs 0, and the field satisfies it iff `c == 0` |
| SeamUnknowns.UnknownsExactly | work/src/patchmerge.hpp:80-135 | a cell gets an id iff it is defined with a masked 4-neighbour, or masked with a masked, defined 4-neighbour |
| SeamAssembly.EmitTerm | work/src/patchmerge.hpp:81 | one `emplace_back(row, getid(q), v)`: the triplet list and the indexer are those of the cell triplets with one more triplet |
| SeamAssembly.EmitNeighbour | work/src/patchmerge.hpp:79-91 | a masked in-bounds neighbour adds a unit term and its sample to the running sum; any other neighbour changes nothing |
| SeamAssembly.EmitAxis | work/src/patchmerge.hpp:76-124 | the `dx` or `dy` block appends exactly the axis rows of the cell to the triplets, `b_list`, `row` and the indexer |
| SeamAssembly.EmitBoundary | work/src/patchmerge.hpp:128-141 | the neighbour loop of an unmasked cell appends exactly that cell's rows |
| SeamAssembly.EmitCell | work/src/patchmerge.hpp:67-141 | the visit of one cell appends exactly its rows |
| SeamAssembly.EmitStep | work/src/patchmerge.hpp:66-142 | the state after one more cell is that of the row-major prefix one cell longer |
| SeamAssembly.EmitRow | work/src/patchmerge.hpp:65-143 | the state after a grid row is that of the prefix of the next row |
| SeamAssembly.AssemblyMeetsSpec | work/src/patchmerge.hpp:149-153 | the assembled `row`, ids, triplets and `b_list` are the specified system |
| SeamAssembly.Assemble | work/src/patchmerge.hpp:38-153 | the assembly loop builds exactly the specified ids and system, with distinct in-bounds ids |
| SeamAssembly.WriteBack | work/src/patchmerge.hpp:180-183 | the field afterwards is the old field with each id's cell overwritten by its solved value |
| SeamAssembly.PoissonSeamRemoval | work/src/patchmerge.hpp:22-184 | the field afterwards is the seam removal of the old field under the masks and the solver |
| PatchPlacement.CopyMaskRow | work/src/patchmerge.hpp:206-212 | one mask row marks exactly its set cells' in-bounds translates |
| PatchPlacement.CopyMask | work/src/patchmerge.hpp:201-213 | `synthesis_mask` is the clipped translate of the mask |
| PatchPlacement.MarkNeighbours | work/src/patchmerge.hpp:221-227 | the direction loop of a placed cell marks its in-bounds, defined, unplaced neighbours and nothing else |
| PatchPlacement.MarkSeamStep | work/src/patchmerge.hpp:218-227 | one mask cell adds the seam marks of its placed translate |
| PatchPlacement.MarkSeamRow | work/src/patchmerge.hpp:217-228 | one mask row adds the seam marks of its placed translates |
| PatchPlacement.MarkSeam | work/src/patchmerge.hpp:204-230 | `seam_mask` is the set of defined, unplaced cells next to a placed cell |
| PatchPlacement.PasteStep | work/src/patchmerge.hpp:235-237 | one mask cell copies its patch value to its translate if that is in bounds and the mask is set |
| PatchPlacement.PasteRow | work/src/patchmerge.hpp:234-239 | one mask row copies its masked patch values |
| PatchPlacement.Paste | work/src/patchmerge.hpp:233-240 | the synthesis afterwards is the old one with every placed cell holding the patch value under it |
| PatchPlacement.PlacePatch | work/src/patchmerge.hpp:191-246 | the synthesis afterwards is the seam removal of the pasted field under the placed mask and the seam mask derived before the paste |
| PlacementFacts.PlacedExactly | work/src/patchmerge.hpp:205-213 | a synthesis cell is placed iff it is `(j + pos[0], i + pos[1])` for a set mask cell `(i, j)`; out-of-bounds translates are dropped |
| PlacementFacts.SeamExactly | work/src/patchmerge.hpp:216-230 | a cell is on the seam iff it is defined before the paste, not placed, and 4-adjacent to a placed cell; so the seam and the placed mask are disjoint |
| PlacementFacts.PastedExactly | work/src/patchmerge.hpp:233-240 | before the solve, each placed translate of mask cell `(i, j)` holds `patch(i, j)` and every other cell is unchanged |
| PlacementFacts.SeamFlagInert | work/src/patchmerge.hpp:204-243 | `placePatch` gives the same result as with an all-false seam mask |
| PlacementFacts.UnknownsOnlyChange | work/src/patchmerge.hpp:233-243 | a cell without a variable id keeps its pasted value |
| PlacementFacts.FarCellsUnchanged | work/src/patchmerge.hpp:201-243 | a cell neither placed nor next to a placed cell is unchanged by `placePatch` |
| PlacementFacts.MissedPlacementNoChange | work/src/patchmerge.hpp:205-243 | if no set mask cell lands on the synthesis, `placePatch` changes nothing |
| PlacementFacts.OffCanvasNoChange | work/src/patchmerge.hpp:207-209 | a patch placed wholly off the synthesis changes nothing |
| FeatureTypes.FeatureEdge.Other | work/src/ppa.hpp:36 | given either endpoint, the result is the opposite one, and it is always an endpoint |
| FeatureTypes.FeatureEdgeOtherTwice | work/src/ppa.hpp:36 | crossing a feature edge twice from an endpoint returns to it |
| FeatureTypes.Edge.Other | work/src/ppa.hpp:52 | given `id1` the result is `id2`, given `id2` it is `id1`, and it is always an endpoint |
| FeatureTypes.Edge.PointOf | work/src/ppa.hpp:53 | the cell of `id1` is `p1`, the cell of a distinct `id2` is `p2` |
| FeatureTypes.EdgeOtherTwice | work/src/ppa.hpp:52 | crossing a grid edge twice from an endpoint returns to it |
| FeatureTypes.EdgePointOfOther | work/src/ppa.hpp:52-53 | on an edge between distinct nodes, the far endpoint's cell is the one that is not the near endpoint's |
| FeatureSelection.ProfileExactly | work/src/ppa.hpp:117-122 | `profile0`/`profile1` hold iff some step `l` in `1 .. profile_length/2` is in bounds and more than `thresh` below `p` |
| FeatureSelection.CandidateExactly | work/src/ppa.hpp:108-131 | a cell is a candidate iff for some direction of (1,0), (0,1), (1,1), (-1,1) both the forward and the backward walk have such a step |
| FeatureSelection.CandidatesExactly | work/src/ppa.hpp:108-133 | the candidate list holds every candidate exactly once and is strictly increasing in row-major order |
| FeatureSelection.FlatGridNoCandidates | work/src/ppa.hpp:79-121 | on a flat grid with a non-negative threshold there are no candidates |
| FeatureSelection.Probe | work/src/ppa.hpp:120-121 | one probe is "in bounds and more than `thresh` below `p`" |
| FeatureSelection.Profiles | work/src/ppa.hpp:117-122 | the `l` loop computes both profiles of a direction |
| FeatureSelection.SelectCell | work/src/ppa.hpp:111-131 | the direction loop gives `p` the next id iff it is a candidate, leaves it -1 otherwise, and touches no other cell |
| FeatureSelection.SelectStep | work/src/ppa.hpp:109-131 | after one more cell, every visited candidate holds its index in the candidate list so far and every other cell holds -1 |
| FeatureSelection.SelectRow | work/src/ppa.hpp:109-132 | the same after one more grid row |
| FeatureSelection.SelectRows | work/src/ppa.hpp:108-133 | after the whole loop every cell is numbered, and the counter is the number of candidates |
| FeatureSelection.SelectCandidates | work/src/ppa.hpp:83-133 | `nodeids` holds each candidate's row-major index and -1 elsewhere; the counter equals the number of candidates |
| FeatureGraphs.NodeIds | work/src/ppa.hpp:84-133 | a cell has an id `>= 0` iff it is a candidate, and that id is its index in the row-major candidate list |
| FeatureGraphs.SelectedIds | work/src/ppa.hpp:108-133 | the `nodeids` matrix filled by the selection loop is `NodeIds` |
| FeatureGraphs.SelectNodes | work/src/ppa.hpp:83-133 | candidate selection returns a fresh matrix whose contents are `NodeIds` |
| EdgeCreation.EdgeShape | work/src/ppa.hpp:139-156 | every created edge joins a numbered cell `p` in `[0, rows-1) x [0, cols-1)` to its numbered forward neighbour `p + n`, carries both ids and weighs the sum of their elevations |
| EdgeCreation.EdgeCreated | work/src/ppa.hpp:139-156 | conversely, every such pair of numbered cells is joined by a created edge |
| EdgeCreation.EdgesWithinGrid | work/src/ppa.hpp:139-150 | both cells of every created edge lie in the grid |
| EdgeCreation.EdgeTo | work/src/ppa.hpp:146-150 | one neighbour adds the edge `p -> q` iff `q` is in bounds and numbered |
| EdgeCreation.CellEdges | work/src/ppa.hpp:143-154 | a cell without an id adds nothing; otherwise its edges toward the four forward neighbours, in order |
| EdgeCreation.RowEdges | work/src/ppa.hpp:140-155 | one grid row appends its cells' edges in column order |
| EdgeCreation.CreateEdges | work/src/ppa.hpp:138-156 | the creation loop builds exactly `TempEdges` |
| Pruning.PruneExactly | work/src/ppa.hpp:170-180 | a round keeps an edge iff it was listed and both its cells have degree above one in the list the round starts from |
| Pruning.KeepSubsequence | work/src/ppa.hpp:175-179 | the kept edges are a subsequence: strictly increasing positions in the old list |
| Pruning.PruneShrinks | work/src/ppa.hpp:169-181 | a round keeps order, never grows the list, and keeps a duplicate-free list and a forest within the grid as such |
| Pruning.RoundsShrink | work/src/ppa.hpp:169-181 | after any number of rounds every edge was an input edge, the list is no longer, and a forest within the grid stays one |
| Pruning.CountDegrees | work/src/ppa.hpp:170-174 | the `degree` matrix holds, per cell, the number of edge endpoints at it |
| Pruning.PruneRound | work/src/ppa.hpp:170-180 | one round computes `Prune` of the current list |
| Pruning.Reduce | work/src/ppa.hpp:169-181 | the loop performs exactly `profile_length / 2` rounds |
| FeatureGraphs.SurvivingForest | work/src/ppa.hpp:161-181 | the surviving edges form a forest within the grid, no longer than the spanning forest |
| FeatureGraphs.SurvivingEdge | work/src/ppa.hpp:139-181 | every surviving edge joins a candidate off the last row and column to a candidate forward neighbour, with their candidate indices as ids |
| FeatureGraphs.SurvivingEdges | work/src/ppa.hpp:136-181 | edge creation, the spanning forest and the rounds give exactly the surviving edges, a forest |
| NodeEdges.IncidenceIsAround | work/src/ppa.hpp:190-193 | the table has a list for exactly the touched nodes, and it is their incident edges in list order, once per endpoint |
| NodeEdges.IncidenceExactly | work/src/ppa.hpp:190-193 | a node has a list iff some edge touches it, the list holds exactly the edges touching it, and in a forest it repeats none |
| NodeEdges.NodeToEdge | work/src/ppa.hpp:190-196 | the loop builds exactly the `nodetoedge` table (positions are left out) |
| Forest.NoSelfLoop | work/src/ppa.hpp:161 | an edge of a forest has two distinct endpoints |
| Forest.SubForest | work/src/ppa.hpp:169-181 | a duplicate-free list of edges taken from a forest is a forest |
| Forest.NoSecondEntry | work/src/ppa.hpp:240-258 | in a forest, a node entered from the current tree has no second edge back into it, so the walk never meets a visited node by another edge |
| Traversal.Positions | work/src/ppa.hpp:246-264 | one path point per walked node, each its smoothed position |
| Traversal.PolylinePath | work/src/ppa.hpp:246-265 | a feature edge's path has at least two points, starts at `smoothPosition(node_start)`, ends at `node_end`'s position, and every interior point is a walked node of degree 2 |
| Traversal.ChainStep | work/src/ppa.hpp:250-258 | one step along a chain moves to the unvisited neighbour, across one of its two edges, of a degree-2 node; adds exactly that node to `visited` and to the chain, and appends the degree-2 node's smoothed position to the path |
| Traversal.ChainWalk | work/src/ppa.hpp:241-258 | the walk along an edge ends at the first node of degree other than 2; the chain is a duplicate-free walk through degree-2 nodes; each node is inserted once |
| Traversal.RecordEdge | work/src/ppa.hpp:260-268 | the end node is created, the feature edge gets the next id and is listed at both end nodes, and the counter grows by one |
| Traversal.AttachedLink | work/src/ppa.hpp:260-264 | once the new feature edge is listed at the current node and at its end node, every feature node lists a feature edge, provided only a lone root lacked one before |
| Traversal.FollowEdge | work/src/ppa.hpp:241-272 | following an edge to an unvisited node keeps the tree state and the frontier; it adds exactly one feature edge, numbered `counter` and starting at the current node, increments the counter, and pushes that edge's end node onto the stack |
| Traversal.ProcessNode | work/src/ppa.hpp:236-273 | popping a node and following each edge to an unvisited node keeps the tree state; afterwards every far node of the popped node is visited, and only a root alone in its tree may list no feature edge |
| Traversal.Explore | work/src/ppa.hpp:226-274 | the tree of an unvisited leaf is explored: no table edge leaves `visited`, no node is inserted twice, the feature nodes and edges stay as `NodesOK`/`EdgesOK` describe, and every feature node, the root included, lists a feature edge |
| Traversal.LoneRootOpen | work/src/ppa.hpp:226-240 | a root outside the closed set of the earlier trees never closes its tree alone: its edge leads to a node outside both |
| Leaves.PathExit | work/src/ppa.hpp:222-226 | in a forest, an edge at the end of a path other than the path's last edge leads to a node off the path |
| Leaves.LeafConnected | work/src/ppa.hpp:222-226 | every node of the table of a forest is joined by a walk to a node with exactly one edge, so starting only from leaves loses no tree |
| Traversal.ClosedWalk | work/src/ppa.hpp:236-255 | a visited set that no table edge leaves holds the start of every walk whose end it holds |
| Traversal.AllVisited | work/src/ppa.hpp:220-226 | over a forest, a closed visited set holding every degree-1 node holds every node of the table |
| Traversal.Traverse | work/src/ppa.hpp:220-276 | in any iteration order that lists every key: every node of the table is visited; no table edge leaves `visited`; feature nodes are exactly the table nodes of degree other than 2, at their smoothed positions, and each lists a feature edge; feature edges are numbered `0 ..` and listed at both ends. That each node is inserted once and each tree starts at a degree-1 node is stated by `ChainWalk`, `ChainStep` and the precondition of `Explore` |
| FeatureGraphs.NodesIncident | work/src/ppa.hpp:189-261 | a feature node exists only for a node some surviving edge touches |
| FeatureGraphs.EdgeCount | work/src/ppa.hpp:221-265 | feature edges numbered exactly `0 .. count - 1` are `count` in number |
| FeatureGraphs.TraceFeatures | work/src/ppa.hpp:189-276 | the table and the traversal over a forest leave the state `Built` describes: every table node visited, feature nodes exactly the table nodes of degree other than 2, each listing a feature edge, and feature edges the polylines of degree-2 walks |
| FeatureGraphs.SomeFeatureEdge | work/src/ppa.hpp:220-268 | over a non-empty forest the traversal records at least one feature edge |
| FeatureGraphs.FeatureGraph.constructor | work/src/ppa.hpp:60-301 | the surviving edges are those of selection, creation, the spanning forest and `profile_length / 2` rounds; every node they touch is visited, and the nodes and edges are the traversal result `Built` describes |

## Left out

- The Eigen build and solve (`patchmerge.hpp:149-175`) is the parameter `solve`. The model assumes only that it returns one value per column. Convergence, tolerance and single-precision arithmetic are not modelled.
- The `cout` logging is not modelled: it is output only.
- Floating point is modelled as `real`. Single-precision rounding and infinities are not modelled. The height fields of `patchmerge.hpp` carry an explicit `NaN` sample.
- `FeatureSelection` and `FeatureGraphs`: the elevation grid is taken to be NaN-free (`array2<real>`). In the source a NaN cell makes every `e - grid(q) > thresh` comparison false, so it is never a candidate, never counts as a drop next to one, and no edge touches it. That behaviour is not modelled.
- 8-bit masks are modelled as `bool`, because the source reads them as zero or non-zero.
- The type asserts of both functions are carried by the Dafny types. The size asserts become `requires` clauses.
- `PatchPlacement.PlacePatch`: requires that the synthesis and the patch are distinct arrays. Aliased `cv::Mat` headers are not modelled.
- `kruskal::minSpanForest` is the parameter `forest`. It is required to return an acyclic, duplicate-free sub-list (`AcyclicSublist`). That it keeps the connected components of its input is not assumed, its minimum-weight choice is not modelled, and edge weights are computed but not used.
- The `cv::resize` downsampling and `grid_spacing` are not modelled. The constructor takes the downsampled grid, and `grid *= feature_type` is read through `Elev`.
- `minMaxIdx` and the threshold `0.01 * (max - min)` are not modelled: the threshold is a parameter. `FlatGridNoCandidates` therefore needs a non-negative threshold, which that formula always gives.
- Position smoothing (`ppa.hpp:198-215`) and `nodetoposition` are not modelled: it is float weighted averaging, and `smooth` supplies its result.
- All debug drawing and `imwrite` are not modelled: they are image output.
- `terrain.cpp` is not part of this model: it is raster and text I/O.
- The `nodes()`/`edges()` accessors are the public fields `nodes` and `edges` of `FeatureGraphs.FeatureGraph`.
- `Traversal.Traverse`: does not state that the chains of the feature edges together use every surviving edge exactly once, nor the resulting count identity between feature edges, feature nodes and chain interiors. It states that every feature node lists a feature edge, which rules out an edgeless result. Full coverage would need an invariant over the nested loops that ties every table edge between visited nodes to the chain that used it, and that is not part of this model.
- `FeatureGraphs.TraceFeatures`: inherits that gap.
- `FeatureGraphs.FeatureGraph.constructor`: inherits that gap.
- 32-bit overflow of `row`, `nodeidcounter`, `edgeidcounter` and `idToPoint.size()` is not modelled. Integers are unbounded.
