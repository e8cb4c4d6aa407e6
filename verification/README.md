# Marching-squares destructible terrain, modelled in Dafny

This project models the integer core of a Unity destructible-terrain map. The map is a
rectangular grid of boolean nodes (filled or empty). It is split into 8 x 8-node chunks
that overlap by one node along every border. Alterations carve nodes out through a boolean
mask and tell every chunk holding an emptied node. Each chunk keeps a list of edge nodes: empty
nodes next to a filled node of the chunk. From them it walks the boundary of the filled region
to produce collider paths. A renderer turns the grid into triangles with marching squares: each
grid square gets a 4-bit corner configuration, and a 16-case table maps it to triangles over a
half-step vertex lattice.

The project has four modules:

- `NodeGrid` (`node_grid.dfy`) holds the shared vocabulary:
  - positions (Unity's `Vector2Int`);
  - the `bool[,]` grid as `cells[x][y]`;
  - 4-adjacency;
  - `Mathf.Clamp` on integers.
- `Map` (`map.dfy`) models `Map.cs`:
  - the size formula and bounds;
  - the map edge predicate and the clamp of a rounded world position;
  - the chunk partition of a node;
  - node alteration, masked alteration and the chunk range recomputed after it.
  - C#'s truncating `/` is modelled explicitly by `Map.TruncDiv`.
- `MapChunk` (`map_chunk.dfy`) models `MapChunk.cs`:
  - direction indices and rotations;
  - the chunk window and the chunk edge predicate;
  - `UpdateEdges` with its two loops;
  - the wall-following boundary walk of `CalculateEdgePoints`.
  - The walk's boundary points lie half a node apart, so they are kept as doubled integers: the
    point half a step from node `n` in direction `d` is `2n + dir(d)`.
  - The walk also returns, as a ghost result, where each point was placed from. That lets the
    contracts state that every point faces a filled node of the chunk, and that straight runs
    are collapsed.
- `MapRenderer` (`map_renderer.dfy`) models `MapRenderer.cs`. It runs against an abstract grid of
  filled nodes (the map data type it reads is not part of this model) and covers:
  - the configuration of a grid square;
  - the triangle table, as lattice points of the square;
  - `Flatten2DIndex` and the eight index helpers;
  - the lattice sizes;
  - `UpdateGridSquares` and the initial full update.
  - The table is checked against an independent statement of the marching-squares rule: a
    corner is a vertex iff it is filled, and an edge midpoint iff the edge's two ends differ.

The source is followed where its own comments suggest otherwise:

- Map `ShouldBeEdge` does not look at the node itself. A filled node with a filled neighbour
  also satisfies it.
- `Map.ConvertNodePosToChunkPairs` keeps the pairs as written. For a node on a chunk border
  along one axis only, they can name a chunk that does not hold the node (see Findings).
  `Map.EmptyTileAsWritten` sends exactly these notices, and `MapChunk.SpuriousNoticeIsEdge` shows
  a chunk then being told of a node outside it that it will store as an edge node. The rest of
  the model (`Map.EmptyTile`, `Map.AlterCellStep`, `Map.ApplyAlteration`) notifies the corrected
  pairs of `Map.ChunkPairs`.
- Both the walk and the chunk's path loop count exactly as the post-increment and
  post-decrement guards do. The walk's loop condition is evaluated at most 10001 times, so its
  body runs at most 10000 times. The path loop runs at most 3000 + 1 walks.

## Model

| member | source | states |
|---|---|---|
| Map.SideLength | Assets/Scripts/Map.cs:20-31 | the node count along a side is `chunkCount * 7 + 1`, so the last node row and column lie on a chunk border |
| Map.IsNodeInMap | Assets/Scripts/Map.cs:204-207 | a node is in the map iff `0 <= x <= width - 1` and `0 <= y <= height - 1` |
| Map.GetNodeInMapAndFilled | Assets/Scripts/Map.cs:209-221 | false outside the map; inside it, exactly the node's filled state |
| Map.GetNodeFilled | Assets/Scripts/Map.cs:209-214 | the unchecked read may only be used inside the map, and there it agrees with the checked query |
| Map.ShouldBeEdge | Assets/Scripts/Map.cs:223-228 | true iff some 4-neighbour of the node is in the map and filled |
| Map.WorldPosToNodePos | Assets/Scripts/Map.cs:258-267 | the result always lies in the map, is the node itself when it is in the map, and is the nearest in-map coordinate on each axis |
| Map.ChunkWindowsInsideMap | Assets/Scripts/Map.cs:30-31 | every node of every chunk's 8 x 8 window is a node of the map, and the last chunk's window ends on the map's last row or column |
| Map.PairRoundTrip | Assets/Scripts/Map.cs:91-106 | a node's local position in any chunk leads back to the node, and every pair is the pair its own node makes with its chunk |
| Map.NodePosToChunkPosHolds | Assets/Scripts/Map.cs:94-97 | the chunk position `nodePos / 7` has the node in its window and never on its far border, so on a border the result is the chunk that starts there (at the map's far edge, a chunk past the last one) |
| Map.ConvertNodePosToChunkPairs | Assets/Scripts/Map.cs:108-138 | at most 4 pairs; a node on neither chunk border gets exactly the one pair of chunk `nodePos / 7` |
| Map.PairsAroundExact | Assets/Scripts/Map.cs:124-135 | the four guarded additions give, once each, exactly the pairs whose chunk lies in the guarded neighbourhood |
| Map.ConvertNodePosToChunkPairsComplete | Assets/Scripts/Map.cs:91-138 | every pair satisfies `chunkPos * 7 + localPos == nodePos` and names a chunk inside the chunk array; every chunk whose window holds the node is among the pairs |
| Map.SpuriousChunkPair | Assets/Scripts/Map.cs:118-135 | with 2 x 2 chunks, node (10, 7) gets a pair with chunk (0, 1) and local position (10, 0), outside that chunk's window |
| Map.SpuriousPairAt | Assets/Scripts/Map.cs:118-135 | with 2 x 2 chunks, node (8, 7) gets a pair with chunk (0, 1) and local position (8, 0) |
| Map.ChunkPairs | Assets/Scripts/Map.cs:108-138 | the corrected partition: at most 4 pairs, one pair off the borders, and every pair reconstructs the node |
| Map.ChunkPairsExact | Assets/Scripts/Map.cs:108-138 | the corrected pairs are, once each, exactly the chunks whose window holds the node |
| Map.TruncDiv | Assets/Scripts/Map.cs:84-87 | C# integer division: quotient truncated toward zero, so the remainder takes the sign of the dividend |
| Map.RecalculateChunksInAlteration | Assets/Scripts/Map.cs:83-88 | the chunk range starts at 0 or above and ends at `chunkCount - 1` or below on both axes |
| Map.RecalculatedChunks | Assets/Scripts/Map.cs:83-88 | an existing chunk is in the range iff, on each axis, its window ends at or after the lowest altered node and starts at or before one past the highest (truncation toward zero also admits chunk 0 when that is in -6..-1) |
| Map.AxisRange | Assets/Scripts/Map.cs:84-87 | along one axis, a chunk index lies between the clamped truncated quotients iff its window reaches the altered interval grown by one |
| Map.EmptyTile | Assets/Scripts/Map.cs:157-163 | the node becomes empty, every other node is unchanged, and, with the corrected pairs, exactly the chunks whose window holds the node are notified with its local position |
| Map.EmptyTileAsWritten | Assets/Scripts/Map.cs:157-163 | the same grid as EmptyTile; every notice names an existing chunk and leads back to the node, and every chunk whose window holds the node is notified |
| Map.EmptyTileKeepsOthers | Assets/Scripts/Map.cs:157-163 | emptying a node leaves every other node's checked query as it was |
| Map.AlterNode | Assets/Scripts/Map.cs:148-155 | a no-op when the node already has the requested state and for every fill request; otherwise EmptyTile |
| Map.Altered | Assets/Scripts/Map.cs:165-179 | after a subtracting alteration a node is filled iff it was filled and no mask-true cell covers it; other nodes and out-of-map targets change nothing |
| Map.AlterationIdempotent | Assets/Scripts/Map.cs:165-179 | applying the same alteration twice gives the grid it gives once |
| Map.FillingAlterationIsNoOp | Assets/Scripts/Map.cs:148-155 | a filling alteration never changes the grid |
| Map.AlterationsCommute | Assets/Scripts/Map.cs:165-179 | two alterations give the same grid in either order |
| Map.DirtyChunksRecalculated | Assets/Scripts/Map.cs:180-185 | every chunk whose window holds a node of the mask rectangle grown by one lies in the recomputed range |
| Map.AlterCellStep | Assets/Scripts/Map.cs:168-179 | one visit of the mask walk keeps the notices sound and complete |
| Map.ApplyAlteration | Assets/Scripts/Map.cs:165-186 | the grid becomes Altered; every notice names an existing chunk holding an emptied node under the mask; every chunk holding an emptied node is notified; the range is clamped and holds every notified chunk and every chunk near the mask |
| MapChunk.RotateClockwise | Assets/Scripts/MapChunk.cs:195-199 | maps `0..3` into `0..3` as `(d + 1) % 4` |
| MapChunk.RotateCounterclockwise | Assets/Scripts/MapChunk.cs:200-204 | maps `0..3` into `0..3` as `(d + 3) % 4` |
| MapChunk.RotationsInverse | Assets/Scripts/MapChunk.cs:195-204 | the two rotations are mutual inverses on direction indices |
| MapChunk.FourClockwiseTurns | Assets/Scripts/MapChunk.cs:195-199 | four clockwise turns are the identity |
| MapChunk.GetDirFromDirectionIndex | Assets/Scripts/MapChunk.cs:206-211 | every direction index gives a unit vector along one axis |
| MapChunk.DirectionGeometry | Assets/Scripts/MapChunk.cs:195-211 | `d` and `(d + 2) % 4` are opposite; different indices give different vectors; a clockwise turn is a quarter turn of the vector |
| MapChunk.StepIsAdjacent | Assets/Scripts/MapChunk.cs:206-211 | a step in any direction reaches a 4-neighbour |
| MapChunk.NodePosToLocalPos | Assets/Scripts/MapChunk.cs:248-253 | LocalPosToNodePos undoes NodePosToLocalPos |
| MapChunk.GetNodeFilled | Assets/Scripts/MapChunk.cs:223-228 | the chunk's unchecked read of a local node is the map's checked query of the node it stands for |
| MapChunk.IsNodeInChunkWindow | Assets/Scripts/MapChunk.cs:218-221 | a local position is in the chunk iff `0 <= x, y <= 7`, iff it is in the chunk's window of the map partition; such a node lies in the map |
| MapChunk.GetNodeInChunkAndFilled | Assets/Scripts/MapChunk.cs:230-233 | true iff the node is in the chunk window and filled in the map; it never reads outside the map |
| MapChunk.ShouldBeEdgeNeighbour | Assets/Scripts/MapChunk.cs:234-237 | a local node should be an edge iff some 4-neighbour is in the chunk and filled |
| MapChunk.ShouldBeEdgeDirection | Assets/Scripts/MapChunk.cs:234-237 | the same, stated over the four direction indices |
| MapChunk.ChunkEdgeIsMapEdge | Assets/Scripts/MapChunk.cs:234-237 | a chunk edge node is a map edge node, and the two predicates agree away from the chunk border |
| MapChunk.EdgeThroughNeighbour | Assets/Scripts/MapChunk.cs:234-237 | a node whose neighbour in some direction is in the chunk and filled should be an edge, whether or not the node itself is in the chunk |
| MapChunk.SpuriousNoticeIsEdge | Assets/Scripts/MapChunk.cs:234-237 | with 2 x 2 chunks and node (7, 7) filled, local (8, 0) of chunk (0, 1), the as-written notice for node (8, 7), is outside the chunk yet should be an edge of it |
| MapChunk.NodeEmptied | Assets/Scripts/MapChunk.cs:48-51 | the local node is appended to the pending list; nothing else changes |
| MapChunk.KeepEdgesMembers | Assets/Scripts/MapChunk.cs:57-62 | the filter keeps exactly the members that should be edges |
| MapChunk.RemoveFirstKeepsOrder | Assets/Scripts/MapChunk.cs:83-85 | `List.Remove` cuts out exactly the first occurrence and keeps the order of the rest |
| MapChunk.RemoveFirstMultiset | Assets/Scripts/MapChunk.cs:83-85 | `List.Remove` takes exactly one copy of the value out of the list's contents |
| MapChunk.HalfStepShared | Assets/Scripts/MapChunk.cs:161-162 | a boundary point lies half a step from its node, and the node it faces, facing back, places the same point |
| MapChunk.PlacePoint | Assets/Scripts/MapChunk.cs:161-175 | the new point ends the path; it replaces the last point exactly when that point and the one before it were already placed in the same direction (a straight run), and is appended otherwise; alignment records whether the direction repeated |
| MapChunk.PlaceKeepsNoRun | Assets/Scripts/MapChunk.cs:161-175 | after a placement no three consecutive points of the path were placed in the same direction |
| MapChunk.PlacePointKeepsPath | Assets/Scripts/MapChunk.cs:161-175 | a placement keeps every point half a step from its node toward a filled in-chunk neighbour |
| MapChunk.FindStartDir | Assets/Scripts/MapChunk.cs:107-115 | a start direction is found iff the start node should be an edge, and it is the first direction, in the order down, right, up, left, facing a filled node |
| MapChunk.StartNewPath | Assets/Scripts/MapChunk.cs:145-159 | re-entering from the chunk border appends the closed path to the finished ones exactly when it has 2 or more points and drops it otherwise, keeps the earlier finished paths, empties the current path and leaves the walk's position alone |
| MapChunk.StartNewPathKeepsInvariant | Assets/Scripts/MapChunk.cs:145-159 | closing the current path keeps the walk invariant: a path is kept only with at least 2 points, each facing a filled neighbour from a walked node |
| MapChunk.PlacedKeepsInvariant | Assets/Scripts/MapChunk.cs:161-177 | placing a point toward a filled in-chunk node keeps the walk invariant |
| MapChunk.WalkStep | Assets/Scripts/MapChunk.cs:128-186 | one iteration records at most the node it moves onto and sets the break flag iff it is back at the start facing the start direction |
| MapChunk.WalkStepRule | Assets/Scripts/MapChunk.cs:136-185 | the wall-follower's turn rule: at the chunk border it turns clockwise in place; facing a filled node it ends the path with the point half a step toward it and turns clockwise; facing an empty node it moves onto it, turns counter-clockwise and records it |
| MapChunk.WalkStepKeepsInvariant | Assets/Scripts/MapChunk.cs:128-186 | every iteration keeps the walk invariant: visited nodes are in the chunk, empty and 4-connected from the start; points face filled neighbours from walked nodes; no straight run of three |
| MapChunk.FollowWall | Assets/Scripts/MapChunk.cs:116-192 | the loop condition is evaluated at most 10001 times, so the body runs at most 10000 times; every node moved onto is in the chunk, empty and recorded; every returned path has at least 2 points, each half a step from a walked node toward a filled in-chunk neighbour, with runs collapsed |
| MapChunk.CalculateEdgePoints | Assets/Scripts/MapChunk.cs:97-193 | a start node with no filled neighbour in the chunk gives exactly one empty path; otherwise the walk properties of FollowWall, including that every point was placed from a walked node |
| MapChunk.DropNonEdges | Assets/Scripts/MapChunk.cs:57-62 | the reverse removal loop keeps exactly the nodes that should be edges, in order |
| MapChunk.CollectEdgePaths | Assets/Scripts/MapChunk.cs:70-90 | the path loop ends after at most `min(3001, |edgeNodes|)` walks, because each walk removes its start node; every collected path has at least 2 points |
| MapChunk.UpdateEdges | Assets/Scripts/MapChunk.cs:55-93 | afterwards a node is an edge node iff it was kept or newly emptied and it should be an edge; the pending list is empty; paths have at least 2 points; the walk count is bounded |
| MapRenderer.FlattenInjective | Assets/Scripts/MapRenderer.cs:181-183 | `Flatten2DIndex` is injective on points with `0 <= x < width` |
| MapRenderer.FlattenInRange | Assets/Scripts/MapRenderer.cs:181-183 | a point of a `w` x `h` lattice has an index in `[0, w * h)` |
| MapRenderer.FlattenRoundTrip | Assets/Scripts/MapRenderer.cs:181-183 | unflattening inverts `Flatten2DIndex` on a row, and flattening inverts unflattening |
| MapRenderer.HelpersDistinct | Assets/Scripts/MapRenderer.cs:185-208 | the eight index helpers give eight distinct indices for one square |
| MapRenderer.HelperOffsets | Assets/Scripts/MapRenderer.cs:185-208 | the helpers address only columns `2x..2x+2` and rows `2y..2y+2`; corners at even offsets, edge midpoints with exactly one odd offset |
| MapRenderer.LatticeFor | Assets/Scripts/MapRenderer.cs:50-70 | the vertex lattice is `2 * gridSquares + 1` points wide and high, with `gridSquares = mapSize - 1` |
| MapRenderer.HelperIndexInRange | Assets/Scripts/MapRenderer.cs:51-55 | for every grid square, every helper index lies in `[0, vertsX * vertsY)` |
| MapRenderer.Config | Assets/Scripts/MapRenderer.cs:88-98 | the configuration is in `0..15`; bit 8 iff top-left is filled, 4 top-right, 2 bottom-right, 1 bottom-left |
| MapRenderer.TriangleTable | Assets/Scripts/MapRenderer.cs:138-179 | every table entry has a length that is a multiple of 3 |
| MapRenderer.TriangleTableMatchesRule | Assets/Scripts/MapRenderer.cs:138-179 | for every configuration, the points used are exactly the filled corners and the midpoints of edges whose ends differ; the length is 0 indices for no filled corner, 3 for one, 6 for two adjacent, 12 for two opposite, 9 for three and 6 for four |
| MapRenderer.TriangleTableWinding | Assets/Scripts/MapRenderer.cs:138-179 | every triangle of the table is non-degenerate and all of them wind the same way |
| MapRenderer.CalculateTrianglesForConfig | Assets/Scripts/MapRenderer.cs:138-179 | the result has the table's length, a multiple of 3 |
| MapRenderer.TrianglesInRange | Assets/Scripts/MapRenderer.cs:138-208 | for every grid square, every returned index lies in the vertex array |
| MapRenderer.UpdateGridSquares | Assets/Scripts/MapRenderer.cs:80-107 | the range is clamped into the grid of squares; squares outside it are untouched; squares inside hold their current configuration; triangles are rewritten only when the configuration changed; cached triangles that matched their configuration still do |
| MapRenderer.InitializeMarchingSquares | Assets/Scripts/MapRenderer.cs:50-77 | after the initial full update every square holds its configuration and exactly that configuration's triangles |

## Left out

- World coordinates are floating point and are left out: `NodePosToWorldPos`, `LocalPosToWorldPos`, `topLeftPos`, the vertex positions and the `Mathf.RoundToInt` step. `Map.WorldPosToNodePos` takes the already-rounded coordinates.
- Unity plumbing is left out: the MonoBehaviour lifecycle, `Instantiate`/`Resources.Load`, `GetComponent`, particles, gizmos and `Debug.Log*` (logs are no-ops).
- Mesh upload is left out: `UpdateTriangles` (MapRenderer.cs:123-136) only concatenates the cached triangles into the Unity mesh.
- The wiring between files is left out. `RecalculateChunks` calling each chunk's `Recalculate`, and the chunk calling its renderer, are represented only by the chunk range and the notices returned. The renderer file reads a different map type from the one the other two files use.
- `MapChunk.GetNodeIsEdge` is a plain list lookup and has no property beyond `in`.
- Collider pooling (MapCollider.cs), map generation (MapGenerator.cs), profiling, mouse and player input (MapProfiler.cs, MapMouseTester.cs, TestPlayer.cs) and the singleton lookup (Singleton.cs) are outside this model.
- MapChunk.FollowWall: where each point was placed from (a walked node and a direction) is a ghost result. The properties "every point lies half a step from a walked node toward a filled neighbour" and "no three consecutive points in one direction" are stated over it rather than over the returned points alone. Which walked node each point belongs to is not tied to the iteration that placed it.
- Map.EmptyTile: notifies the corrected pairs of `Map.ChunkPairs`, not the as-written pairs that Map.cs:159 sends. The as-written notices are modelled separately by `Map.EmptyTileAsWritten`. `Map.AlterCellStep` and `Map.ApplyAlteration` build on `Map.EmptyTile`, so their "every notice names a chunk holding the node" holds of the corrected notices only.
- MapChunk.CalculateEdgePoints: the start node need not lie in the chunk window, because the as-written pairs can hand a chunk such a node (`MapChunk.SpuriousNoticeIsEdge`). Nothing is proved about which nodes of the room boundary the walk visits beyond being in the chunk, empty and 4-connected.
- MapRenderer.CalculateTrianglesForConfig: a `null` triangle array of a fresh square is modelled as the empty sequence. The first update always replaces it, because the initial configuration 255 differs from every real one.

## Findings

| source | as written | input that shows it | evidently intended | confidence | as-written member | corrected member |
|---|---|---|---|---|---|---|
| Assets/Scripts/Map.cs:118-135 | on a chunk border along one axis only, the lower chunk along the other axis is added whenever that chunk index is above 0 | 2 x 2 chunks, node (10, 7): pairs include chunk (0, 1) with local position (10, 0), outside that chunk's 8 x 8 window | add the lower chunk along an axis only when the node is on that axis' border | not executed | Map.ConvertNodePosToChunkPairs, Map.SpuriousChunkPair, Map.EmptyTileAsWritten, MapChunk.SpuriousNoticeIsEdge | Map.ChunkPairs, Map.ChunkPairsExact |

The corrected `Map.ChunkPairs` is the partition `Map.EmptyTile` and `Map.ApplyAlteration` use. The as-written notices are `Map.EmptyTileAsWritten`; `Map.SpuriousPairAt` and `MapChunk.SpuriousNoticeIsEdge` show that such a notice can make a chunk store a node outside its window as an edge node.
