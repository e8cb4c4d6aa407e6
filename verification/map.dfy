/** The map of Map.cs: the node occupancy grid, its size formula, the bounds and
    edge predicates, masked alterations, and the partition of the nodes into
    overlapping chunks together with the chunk range an alteration recomputes. */
module Map {
  import opened NodeGrid

  /** Nodes per chunk side. */
  const ChunkSize: int := 8
  /** Tiles per chunk side: the stride between neighbouring chunks' first nodes. */
  const ChunkTileSize: int := 7

  /** Nodes along one side of a map of `chunkCount` chunks, as Start computes
      them: the chunk windows of ChunkSize nodes share one node with each
      neighbour, so the last node lies on the far border of the last chunk. */
  function SideLength(chunkCount: nat): (n: nat)
    ensures n == chunkCount * ChunkTileSize + 1
  {
    chunkCount * ChunkSize - (chunkCount - 1)
  }

  /** The map: chunk counts set in the editor, and `Nodes` (true = filled). */
  datatype MapState = MapState(chunkCountX: nat, chunkCountY: nat, nodes: Grid) {
    predicate Valid() {
      nodes.Valid() && nodes.width == SideLength(chunkCountX) && nodes.height == SideLength(chunkCountY)
    }
    function Width(): int { nodes.width }
    function Height(): int { nodes.height }
  }

  /** Two maps with the same chunk counts. */
  predicate SameShape(a: MapState, b: MapState) {
    a.chunkCountX == b.chunkCountX && a.chunkCountY == b.chunkCountY
  }

  // ---------------------------------------------------------------- queries

  function IsNodeInMap(m: MapState, nodePos: Pos): (r: bool)
    ensures r <==> m.nodes.InBounds(nodePos)
  {
    !(nodePos.x < 0 || nodePos.y < 0 || nodePos.x > m.Width() - 1 || nodePos.y > m.Height() - 1)
  }

  function GetNodeInMapAndFilled(m: MapState, nodePos: Pos): (r: bool)
    requires m.Valid()
    ensures r ==> m.nodes.InBounds(nodePos)
    ensures m.nodes.InBounds(nodePos) ==> r == m.nodes.At(nodePos)
  {
    if !IsNodeInMap(m, nodePos) then false else m.nodes.At(nodePos)
  }

  /** GetNodeFilled: indexes `Nodes` without a bounds check, so callers must
      stay in the map; there it is the checked query. */
  function GetNodeFilled(m: MapState, nodePos: Pos): (r: bool)
    requires m.Valid() && IsNodeInMap(m, nodePos)
    ensures r == GetNodeInMapAndFilled(m, nodePos)
  {
    m.nodes.At(nodePos)
  }

  /** ShouldBeEdge: some 4-neighbour of the node is inside the map and filled.
      The node's own state is not consulted. */
  function ShouldBeEdge(m: MapState, nodePos: Pos): (r: bool)
    requires m.Valid()
    ensures r <==> exists q :: Adjacent(nodePos, q) && GetNodeInMapAndFilled(m, q)
  {
    var x := nodePos.x;
    var y := nodePos.y;
    GetNodeInMapAndFilled(m, Pos(x, y - 1)) || GetNodeInMapAndFilled(m, Pos(x + 1, y))
      || GetNodeInMapAndFilled(m, Pos(x, y + 1)) || GetNodeInMapAndFilled(m, Pos(x - 1, y))
  }

  /** The integer half of WorldPosToNodePos. `roundedX` and `roundedY` are the
      Mathf.RoundToInt of the world offset from the map's top-left corner; the
      y axis is flipped and both coordinates are clamped into the map. */
  function WorldPosToNodePos(m: MapState, roundedX: int, roundedY: int): (r: Pos)
    requires m.Valid()
    ensures IsNodeInMap(m, r)
    ensures IsNodeInMap(m, Pos(roundedX, -roundedY)) ==> r == Pos(roundedX, -roundedY)
    ensures forall q :: IsNodeInMap(m, q) ==> Dist(r.x, roundedX) <= Dist(q.x, roundedX)
    ensures forall q :: IsNodeInMap(m, q) ==> Dist(r.y, -roundedY) <= Dist(q.y, -roundedY)
  {
    var x := roundedX;
    var y := -roundedY;
    Pos(Clamp(x, 0, m.Width() - 1), Clamp(y, 0, m.Height() - 1))
  }

  // ---------------------------------------------------------------- chunks

  /** Chunk `c` exists in the map's chunk array. */
  predicate ValidChunk(m: MapState, c: Pos) {
    0 <= c.x < m.chunkCountX && 0 <= c.y < m.chunkCountY
  }

  /** Node `n` lies in the window of chunk `c`: ChunkSize nodes per side starting
      at `c * ChunkTileSize`, so neighbouring windows share their border nodes. */
  predicate InChunkWindow(c: Pos, n: Pos) {
    && c.x * ChunkTileSize <= n.x <= c.x * ChunkTileSize + ChunkTileSize
    && c.y * ChunkTileSize <= n.y <= c.y * ChunkTileSize + ChunkTileSize
  }

  /** Every node of every chunk's window is a node of the map, and the last
      chunk's far border is the map's last column (row). */
  lemma ChunkWindowsInsideMap(m: MapState, c: Pos, n: Pos)
    requires m.Valid() && ValidChunk(m, c) && InChunkWindow(c, n)
    ensures IsNodeInMap(m, n)
    ensures c.x == m.chunkCountX - 1 ==> c.x * ChunkTileSize + ChunkTileSize == m.Width() - 1
    ensures c.y == m.chunkCountY - 1 ==> c.y * ChunkTileSize + ChunkTileSize == m.Height() - 1
  {
  }

  /** A node position and one chunk holding it, with the node's position local to that chunk. */
  datatype PosChunkPair = PosChunkPair(chunkPos: Pos, localPos: Pos)

  /** The node's position relative to the first node of chunk `chunkPos`. */
  function NodePosToChunkLocalPos(nodePos: Pos, chunkPos: Pos): Pos {
    nodePos.Minus(chunkPos.Scale(ChunkTileSize))
  }

  /** The chunk holding a node; ambiguous for nodes on a chunk border, where it
      is the chunk starting on that border. The callers only pass in-map
      nodes, where C#'s truncating `/` is Dafny's `/`. */
  function NodePosToChunkPos(nodePos: Pos): Pos
    requires nodePos.x >= 0 && nodePos.y >= 0
  {
    Pos(nodePos.x / ChunkTileSize, nodePos.y / ChunkTileSize)
  }

  /** The chunk NodePosToChunkPos names holds the node, and the node is not on
      that chunk's far border: on a border it is the chunk starting there. */
  lemma NodePosToChunkPosHolds(nodePos: Pos)
    requires nodePos.x >= 0 && nodePos.y >= 0
    ensures var c := NodePosToChunkPos(nodePos);
            && c.x * ChunkTileSize <= nodePos.x < c.x * ChunkTileSize + ChunkTileSize
            && c.y * ChunkTileSize <= nodePos.y < c.y * ChunkTileSize + ChunkTileSize
            && InChunkWindow(c, nodePos)
  {
  }

  /** The PosChunkPair constructor. */
  function MakePair(chunkPos: Pos, nodePos: Pos): PosChunkPair {
    PosChunkPair(chunkPos, NodePosToChunkLocalPos(nodePos, chunkPos))
  }

  /** The map node a pair refers to. */
  function NodeOf(q: PosChunkPair): Pos {
    q.chunkPos.Scale(ChunkTileSize).Plus(q.localPos)
  }

  /** A pair and the node it refers to determine each other: the local
      position of a node in a chunk leads back to the node, and a pair is the
      pair its own node makes with its chunk. */
  lemma PairRoundTrip(nodePos: Pos, chunkPos: Pos, q: PosChunkPair)
    ensures NodeOf(MakePair(chunkPos, nodePos)) == nodePos
    ensures MakePair(q.chunkPos, NodeOf(q)) == q
  {
  }

  /** Along one axis, `k` indexes a window holding coordinate `v` iff `k` is
      `v / ChunkTileSize`, or `v` is on a border and `k` is the window below. */
  lemma AxisWindowAt(v: int, k: int)
    requires v >= 0
    ensures k * ChunkTileSize <= v <= k * ChunkTileSize + ChunkTileSize
            <==> k == v / ChunkTileSize || (v % ChunkTileSize == 0 && k == v / ChunkTileSize - 1)
  {
  }

  /** ConvertNodePosToChunkPairs AS WRITTEN. In the border branch the lower
      neighbour along an axis is added whenever its index is positive, even
      when the node is not on that axis' border. */
  function ConvertNodePosToChunkPairs(m: MapState, nodePos: Pos): (r: seq<PosChunkPair>)
    requires m.Valid() && IsNodeInMap(m, nodePos)
    ensures |r| <= 4
    ensures nodePos.x % ChunkTileSize != 0 && nodePos.y % ChunkTileSize != 0
            ==> r == [MakePair(NodePosToChunkPos(nodePos), nodePos)]
  {
    var onBoundaryX := nodePos.x % ChunkTileSize == 0;
    var onBoundaryY := nodePos.y % ChunkTileSize == 0;
    if !onBoundaryX && !onBoundaryY then
      [MakePair(NodePosToChunkPos(nodePos), nodePos)]
    else
      var boundaryIndex := NodePosToChunkPos(nodePos);
      var hasLowerChunkX := boundaryIndex.x > 0;
      var hasLowerChunkY := boundaryIndex.y > 0;
      var hasUpperChunkX := boundaryIndex.x < m.chunkCountX;
      var hasUpperChunkY := boundaryIndex.y < m.chunkCountY;
      PairsAround(nodePos, boundaryIndex, hasLowerChunkX, hasLowerChunkY, hasUpperChunkX, hasUpperChunkY)
  }

  /** The four guarded additions of the border branch, in the source's order. */
  function PairsAround(nodePos: Pos, b: Pos, lowerX: bool, lowerY: bool, upperX: bool, upperY: bool)
    : (r: seq<PosChunkPair>)
    ensures |r| <= 4
  {
    (if upperX && upperY then [MakePair(b, nodePos)] else [])
    + (if upperY && lowerX then [MakePair(b.Plus(Pos(-1, 0)), nodePos)] else [])
    + (if upperX && lowerY then [MakePair(b.Plus(Pos(0, -1)), nodePos)] else [])
    + (if lowerX && lowerY then [MakePair(b.Plus(Pos(-1, -1)), nodePos)] else [])
  }

  /** The border branch holds, once each, exactly the pairs of `nodePos` with
      the chunks `b` or `b - 1` along each axis that the flags admit. */
  lemma PairsAroundExact(nodePos: Pos, b: Pos, lowerX: bool, lowerY: bool, upperX: bool, upperY: bool)
    ensures var r := PairsAround(nodePos, b, lowerX, lowerY, upperX, upperY);
            && (forall q :: q in r ==> q == MakePair(q.chunkPos, nodePos))
            && (forall q :: q in r ==> (q.chunkPos.x == b.x && upperX) || (q.chunkPos.x == b.x - 1 && lowerX))
            && (forall q :: q in r ==> (q.chunkPos.y == b.y && upperY) || (q.chunkPos.y == b.y - 1 && lowerY))
            && (forall i, j :: 0 <= i < j < |r| ==> r[i] != r[j])
            && (forall c: Pos :: ((c.x == b.x && upperX) || (c.x == b.x - 1 && lowerX))
                                 && ((c.y == b.y && upperY) || (c.y == b.y - 1 && lowerY))
                                 ==> MakePair(c, nodePos) in r)
  {
  }

  /** With every flag set, the second pair is the chunk below along x. */
  lemma PairsAroundSecond(nodePos: Pos, b: Pos)
    ensures var r := PairsAround(nodePos, b, true, true, true, true);
            |r| == 4 && r[1] == MakePair(b.Plus(Pos(-1, 0)), nodePos)
  {
  }

  /** The as-written pairs still reach every chunk holding the node, each
      naming the node itself; what fails is soundness (SpuriousChunkPair). */
  lemma ConvertNodePosToChunkPairsComplete(m: MapState, nodePos: Pos)
    requires m.Valid() && IsNodeInMap(m, nodePos)
    ensures var r := ConvertNodePosToChunkPairs(m, nodePos);
            && (forall q :: q in r ==> ValidChunk(m, q.chunkPos) && NodeOf(q) == nodePos)
            && (forall c :: ValidChunk(m, c) && InChunkWindow(c, nodePos) ==> MakePair(c, nodePos) in r)
  {
    var r := ConvertNodePosToChunkPairs(m, nodePos);
    var b := NodePosToChunkPos(nodePos);
    if nodePos.x % ChunkTileSize != 0 && nodePos.y % ChunkTileSize != 0 {
      AxisWindowAt(nodePos.x, b.x);
      AxisWindowAt(nodePos.y, b.y);
      forall c | ValidChunk(m, c) && InChunkWindow(c, nodePos)
        ensures MakePair(c, nodePos) in r
      {
        AxisWindowAt(nodePos.x, c.x);
        AxisWindowAt(nodePos.y, c.y);
      }
    } else {
      var upperX, upperY := b.x < m.chunkCountX, b.y < m.chunkCountY;
      assert r == PairsAround(nodePos, b, b.x > 0, b.y > 0, upperX, upperY);
      PairsAroundExact(nodePos, b, b.x > 0, b.y > 0, upperX, upperY);
      forall c | ValidChunk(m, c) && InChunkWindow(c, nodePos)
        ensures MakePair(c, nodePos) in r
      {
        AxisWindowAt(nodePos.x, c.x);
        AxisWindowAt(nodePos.y, c.y);
      }
    }
  }

  /** For chunk counts 2 x 2, node (10, 7) lies only on a horizontal chunk
      border, yet ConvertNodePosToChunkPairs also hands it to chunk (0, 1) as
      local position (10, 0), outside that chunk's window. */
  lemma SpuriousChunkPair(m: MapState)
    requires m.Valid() && m.chunkCountX == 2 && m.chunkCountY == 2
    ensures IsNodeInMap(m, Pos(10, 7))
    ensures MakePair(Pos(0, 1), Pos(10, 7)) in ConvertNodePosToChunkPairs(m, Pos(10, 7))
    ensures MakePair(Pos(0, 1), Pos(10, 7)).localPos == Pos(10, 0)
    ensures !InChunkWindow(Pos(0, 1), Pos(10, 7))
  {
    BorderBranchAt(m);
    PairsAroundSecond(Pos(10, 7), Pos(1, 1));
    OutsideWindow();
  }

  /** For chunk counts 2 x 2, node (8, 7) also goes to chunk (0, 1), as local
      position (8, 0), so EmptyTileAsWritten notifies that chunk of it. */
  lemma SpuriousPairAt(m: MapState)
    requires m.Valid() && m.chunkCountX == 2 && m.chunkCountY == 2
    ensures IsNodeInMap(m, Pos(8, 7))
    ensures MakePair(Pos(0, 1), Pos(8, 7)) in ConvertNodePosToChunkPairs(m, Pos(8, 7))
    ensures MakePair(Pos(0, 1), Pos(8, 7)).localPos == Pos(8, 0)
  {
    assert 8 % 7 == 1 && 7 % 7 == 0 && 8 / 7 == 1 && 7 / 7 == 1;
    assert ConvertNodePosToChunkPairs(m, Pos(8, 7)) == PairsAround(Pos(8, 7), Pos(1, 1), true, true, true, true);
    PairsAroundSecond(Pos(8, 7), Pos(1, 1));
  }

  /** Node (10, 7) is outside the window of chunk (0, 1), which spans columns 0..7. */
  lemma OutsideWindow()
    ensures !InChunkWindow(Pos(0, 1), Pos(10, 7))
  {
  }

  /** Node (10, 7) of a 2 x 2-chunk map takes the border branch with chunk (1, 1) and every flag set. */
  lemma BorderBranchAt(m: MapState)
    requires m.Valid() && m.chunkCountX == 2 && m.chunkCountY == 2
    ensures IsNodeInMap(m, Pos(10, 7))
    ensures ConvertNodePosToChunkPairs(m, Pos(10, 7)) == PairsAround(Pos(10, 7), Pos(1, 1), true, true, true, true)
  {
    assert 10 % 7 == 3 && 7 % 7 == 0 && 10 / 7 == 1 && 7 / 7 == 1;
  }

  /** ConvertNodePosToChunkPairs as intended: the lower neighbour along an axis
      is added only for a node on that axis' chunk border. */
  function ChunkPairs(m: MapState, nodePos: Pos): (r: seq<PosChunkPair>)
    requires m.Valid() && IsNodeInMap(m, nodePos)
    ensures |r| <= 4
    ensures nodePos.x % ChunkTileSize != 0 && nodePos.y % ChunkTileSize != 0
            ==> r == [MakePair(NodePosToChunkPos(nodePos), nodePos)]
    ensures forall q :: q in r ==> q == MakePair(q.chunkPos, nodePos)
  {
    var onBoundaryX := nodePos.x % ChunkTileSize == 0;
    var onBoundaryY := nodePos.y % ChunkTileSize == 0;
    if !onBoundaryX && !onBoundaryY then
      [MakePair(NodePosToChunkPos(nodePos), nodePos)]
    else
      var boundaryIndex := NodePosToChunkPos(nodePos);
      var hasLowerChunkX := onBoundaryX && boundaryIndex.x > 0;
      var hasLowerChunkY := onBoundaryY && boundaryIndex.y > 0;
      var hasUpperChunkX := boundaryIndex.x < m.chunkCountX;
      var hasUpperChunkY := boundaryIndex.y < m.chunkCountY;
      PairsAround(nodePos, boundaryIndex, hasLowerChunkX, hasLowerChunkY, hasUpperChunkX, hasUpperChunkY)
  }

  /** ChunkPairs yields, once each, exactly the existing chunks whose window
      holds the node: one for a node on no chunk border, up to four otherwise,
      and at least one whenever the map has chunks. */
  lemma ChunkPairsExact(m: MapState, nodePos: Pos)
    requires m.Valid() && IsNodeInMap(m, nodePos)
    ensures var r := ChunkPairs(m, nodePos);
            && (forall q :: q in r ==> ValidChunk(m, q.chunkPos) && InChunkWindow(q.chunkPos, nodePos))
            && (forall c :: ValidChunk(m, c) && InChunkWindow(c, nodePos) ==> MakePair(c, nodePos) in r)
            && (forall i, j :: 0 <= i < j < |r| ==> r[i] != r[j])
            && (m.chunkCountX >= 1 && m.chunkCountY >= 1 ==> |r| >= 1)
  {
    var r := ChunkPairs(m, nodePos);
    var b := NodePosToChunkPos(nodePos);
    if nodePos.x % ChunkTileSize != 0 && nodePos.y % ChunkTileSize != 0 {
      assert r == [MakePair(b, nodePos)];
      AxisWindowAt(nodePos.x, b.x);
      AxisWindowAt(nodePos.y, b.y);
      forall c | ValidChunk(m, c) && InChunkWindow(c, nodePos)
        ensures MakePair(c, nodePos) in r
      {
        AxisWindowAt(nodePos.x, c.x);
        AxisWindowAt(nodePos.y, c.y);
      }
    } else {
      var lowerX := nodePos.x % ChunkTileSize == 0 && b.x > 0;
      var lowerY := nodePos.y % ChunkTileSize == 0 && b.y > 0;
      var upperX := b.x < m.chunkCountX;
      var upperY := b.y < m.chunkCountY;
      assert r == PairsAround(nodePos, b, lowerX, lowerY, upperX, upperY);
      PairsAroundExact(nodePos, b, lowerX, lowerY, upperX, upperY);
      AxisWindowAt(nodePos.x, b.x);
      AxisWindowAt(nodePos.y, b.y);
      AxisWindowAt(nodePos.x, b.x - 1);
      AxisWindowAt(nodePos.y, b.y - 1);
      forall c | ValidChunk(m, c) && InChunkWindow(c, nodePos)
        ensures MakePair(c, nodePos) in r
      {
        AxisWindowAt(nodePos.x, c.x);
        AxisWindowAt(nodePos.y, c.y);
        assert (c.x == b.x && upperX) || (c.x == b.x - 1 && lowerX);
        assert (c.y == b.y && upperY) || (c.y == b.y - 1 && lowerY);
      }
      if m.chunkCountX >= 1 && m.chunkCountY >= 1 {
        var cx := if upperX then b.x else b.x - 1;
        var cy := if upperY then b.y else b.y - 1;
        assert MakePair(Pos(cx, cy), nodePos) in r;
      }
    }
  }

  // ---------------------------------------------------------------- chunk range

  /** C#'s `/` on int: the quotient truncated toward zero, so the remainder
      takes the sign of the dividend (unlike Dafny's Euclidean `/`). */
  function TruncDiv(a: int, b: int): (q: int)
    requires b > 0
    ensures a >= 0 ==> 0 <= a - q * b < b
    ensures a < 0 ==> -b < a - q * b <= 0
  {
    if a >= 0 then a / b else -((-a) / b)
  }

  function Max(a: int, b: int): int { if a >= b then a else b }
  function Min(a: int, b: int): int { if a <= b then a else b }

  /** An inclusive rectangle of chunk indices, possibly empty. */
  datatype ChunkRange = ChunkRange(startX: int, endX: int, startY: int, endY: int) {
    predicate Contains(c: Pos) {
      startX <= c.x <= endX && startY <= c.y <= endY
    }
  }

  /** The chunk indices RecalculateChunksInAlteration recomputes for the node
      rectangle `[lowestX, highestX] x [lowestY, highestY]`. */
  function RecalculateChunksInAlteration(m: MapState, lowestX: int, highestX: int, lowestY: int, highestY: int)
    : (r: ChunkRange)
    ensures r.startX >= 0 && r.startY >= 0
    ensures r.endX <= m.chunkCountX - 1 && r.endY <= m.chunkCountY - 1
  {
    ChunkRange(
      Max(0, TruncDiv(lowestX - 1, ChunkTileSize)), Min(m.chunkCountX - 1, TruncDiv(highestX + 1, ChunkTileSize)),
      Max(0, TruncDiv(lowestY - 1, ChunkTileSize)), Min(m.chunkCountY - 1, TruncDiv(highestY + 1, ChunkTileSize)))
  }

  /** Along one axis, chunk `k` is recomputed for the node interval `[low, high]`
      iff its window reaches `low` from above and starts at or before `high + 1`;
      truncating division also admits chunk 0 when `high + 1` is in `-6..-1`. */
  predicate AxisRecalculated(k: int, low: int, high: int) {
    k * ChunkTileSize + ChunkTileSize >= low
    && (k * ChunkTileSize <= high + 1 || (k == 0 && high + 1 > -ChunkTileSize))
  }

  lemma AxisRange(k: int, count: int, low: int, high: int)
    requires 0 <= k < count
    ensures Max(0, TruncDiv(low - 1, ChunkTileSize)) <= k <= Min(count - 1, TruncDiv(high + 1, ChunkTileSize))
            <==> AxisRecalculated(k, low, high)
  {
  }

  /** The exact set of existing chunks RecalculateChunksInAlteration selects. */
  lemma RecalculatedChunks(m: MapState, lowestX: int, highestX: int, lowestY: int, highestY: int, c: Pos)
    requires ValidChunk(m, c)
    ensures RecalculateChunksInAlteration(m, lowestX, highestX, lowestY, highestY).Contains(c)
            <==> AxisRecalculated(c.x, lowestX, highestX) && AxisRecalculated(c.y, lowestY, highestY)
  {
    AxisRange(c.x, m.chunkCountX, lowestX, highestX);
    AxisRange(c.y, m.chunkCountY, lowestY, highestY);
  }

  // ---------------------------------------------------------------- alterations

  /** NodeAlteration: a mask placed with its (0, 0) cell on `topLeftNodePos`. */
  datatype NodeAlteration = NodeAlteration(topLeftNodePos: Pos, alterations: Grid, subtract: bool)

  /** The mask of `alt` holds true over node `p`. */
  predicate MaskCovers(alt: NodeAlteration, p: Pos)
    requires alt.alterations.Valid()
  {
    var o := p.Minus(alt.topLeftNodePos);
    alt.alterations.InBounds(o) && alt.alterations.At(o)
  }

  /** Node `n` lies in the mask rectangle grown by one node on every side: the
      nodes whose boundary points an alteration can move. */
  predicate InDirtyRect(alt: NodeAlteration, n: Pos) {
    var t := alt.topLeftNodePos;
    && t.x - 1 <= n.x <= t.x + alt.alterations.width
    && t.y - 1 <= n.y <= t.y + alt.alterations.height
  }

  /** EmptyTile: empties the node and notifies every chunk whose window holds it. */
  function EmptyTile(m: MapState, nodePos: Pos): (r: (MapState, seq<PosChunkPair>))
    requires m.Valid() && IsNodeInMap(m, nodePos)
    ensures r.0.Valid() && SameShape(r.0, m)
    ensures !r.0.nodes.At(nodePos)
    ensures forall q :: m.nodes.InBounds(q) && q != nodePos ==> r.0.nodes.At(q) == m.nodes.At(q)
    ensures forall q :: q in r.1 ==>
              ValidChunk(m, q.chunkPos) && InChunkWindow(q.chunkPos, nodePos) && q == MakePair(q.chunkPos, nodePos)
    ensures forall c :: ValidChunk(m, c) && InChunkWindow(c, nodePos) ==> MakePair(c, nodePos) in r.1
  {
    ChunkPairsExact(m, nodePos);
    (MapState(m.chunkCountX, m.chunkCountY, m.nodes.Set(nodePos, false)), ChunkPairs(m, nodePos))
  }

  /** EmptyTile AS WRITTEN: the notices are ConvertNodePosToChunkPairs, which
      reach every chunk holding the node, each with the node's own local
      position, but can also name a chunk whose window does not hold it
      (SpuriousChunkPair). */
  function EmptyTileAsWritten(m: MapState, nodePos: Pos): (r: (MapState, seq<PosChunkPair>))
    requires m.Valid() && IsNodeInMap(m, nodePos)
    ensures r.0 == EmptyTile(m, nodePos).0
    ensures forall q :: q in r.1 ==> ValidChunk(m, q.chunkPos) && NodeOf(q) == nodePos
    ensures forall c :: ValidChunk(m, c) && InChunkWindow(c, nodePos) ==> MakePair(c, nodePos) in r.1
  {
    ConvertNodePosToChunkPairsComplete(m, nodePos);
    (MapState(m.chunkCountX, m.chunkCountY, m.nodes.Set(nodePos, false)), ConvertNodePosToChunkPairs(m, nodePos))
  }

  /** Emptying one node leaves every other node's checked query as it was. */
  lemma EmptyTileKeepsOthers(m: MapState, nodePos: Pos, q: Pos)
    requires m.Valid() && IsNodeInMap(m, nodePos) && q != nodePos
    ensures GetNodeInMapAndFilled(EmptyTileAsWritten(m, nodePos).0, q) == GetNodeInMapAndFilled(m, q)
  {
  }

  /** AlterNode: asks for `newState` at an in-map node. Only emptying a filled
      node has an effect; a fill request logs a warning and changes nothing. */
  function AlterNode(m: MapState, nodePos: Pos, newState: bool): (r: (MapState, seq<PosChunkPair>))
    requires m.Valid() && IsNodeInMap(m, nodePos)
    ensures r.0.Valid() && SameShape(r.0, m)
    ensures r.0.nodes.At(nodePos) == (m.nodes.At(nodePos) && newState)
    ensures forall q :: m.nodes.InBounds(q) && q != nodePos ==> r.0.nodes.At(q) == m.nodes.At(q)
    ensures newState || !m.nodes.At(nodePos) ==> r == (m, [])
    ensures m.nodes.At(nodePos) && !newState ==> r == EmptyTile(m, nodePos)
  {
    if GetNodeFilled(m, nodePos) == newState then (m, [])
    else if newState then (m, [])
    else EmptyTile(m, nodePos)
  }

  /** The grid an alteration leaves: a node ends filled iff it was filled and
      is not under a true mask cell of a subtracting alteration. */
  function Altered(m: MapState, alt: NodeAlteration): (r: MapState)
    requires m.Valid() && alt.alterations.Valid()
    ensures r.Valid() && SameShape(r, m)
    ensures forall p :: m.nodes.InBounds(p) ==>
              r.nodes.At(p) == (m.nodes.At(p) && !(alt.subtract && MaskCovers(alt, p)))
  {
    var w := m.nodes.width;
    var h := m.nodes.height;
    MapState(m.chunkCountX, m.chunkCountY,
      Grid(w, h, seq(w, x requires 0 <= x < w =>
                   seq(h, y requires 0 <= y < h =>
                     m.nodes.cells[x][y] && !(alt.subtract && MaskCovers(alt, Pos(x, y)))))))
  }

  /** Applying the same alteration twice leaves the grid it leaves once. */
  lemma AlterationIdempotent(m: MapState, alt: NodeAlteration)
    requires m.Valid() && alt.alterations.Valid()
    ensures Altered(Altered(m, alt), alt) == Altered(m, alt)
  {
    GridExtensionality(Altered(Altered(m, alt), alt).nodes, Altered(m, alt).nodes);
  }

  /** A filling alteration never changes the grid (filling is unsupported). */
  lemma FillingAlterationIsNoOp(m: MapState, alt: NodeAlteration)
    requires m.Valid() && alt.alterations.Valid() && !alt.subtract
    ensures Altered(m, alt) == m
  {
    GridExtensionality(Altered(m, alt).nodes, m.nodes);
  }

  /** Two alterations give the same grid in either order. */
  lemma AlterationsCommute(m: MapState, a: NodeAlteration, b: NodeAlteration)
    requires m.Valid() && a.alterations.Valid() && b.alterations.Valid()
    ensures Altered(Altered(m, a), b) == Altered(Altered(m, b), a)
  {
    GridExtensionality(Altered(Altered(m, a), b).nodes, Altered(Altered(m, b), a).nodes);
  }

  /** Every notice names an existing chunk whose window holds a node under the
      mask that the alteration emptied. */
  ghost predicate NoticesSound(m: MapState, r: MapState, alt: NodeAlteration, notices: seq<PosChunkPair>)
    requires m.Valid() && r.Valid() && SameShape(m, r) && alt.alterations.Valid()
  {
    forall q :: q in notices ==>
      && ValidChunk(m, q.chunkPos) && InChunkWindow(q.chunkPos, NodeOf(q))
      && q == MakePair(q.chunkPos, NodeOf(q))
      && m.nodes.InBounds(NodeOf(q)) && MaskCovers(alt, NodeOf(q))
      && m.nodes.At(NodeOf(q)) && !r.nodes.At(NodeOf(q))
  }

  /** Every chunk whose window holds an emptied node was notified of it. */
  ghost predicate NoticesComplete(m: MapState, r: MapState, notices: seq<PosChunkPair>)
    requires m.Valid() && r.Valid() && SameShape(m, r)
  {
    forall p, c ::
      (m.nodes.InBounds(p) && m.nodes.At(p) && !r.nodes.At(p) && ValidChunk(m, c) && InChunkWindow(c, p))
      ==> MakePair(c, p) in notices
  }

  /** Every chunk holding a node of the grown mask rectangle lies in the range
      ApplyAlteration recomputes. */
  lemma DirtyChunksRecalculated(m: MapState, alt: NodeAlteration, c: Pos, n: Pos)
    requires ValidChunk(m, c) && InChunkWindow(c, n) && InDirtyRect(alt, n)
    ensures var t := alt.topLeftNodePos;
            var startX := t.x - 1;
            var startY := t.y - 1;
            RecalculateChunksInAlteration(m, startX, startX + alt.alterations.width + 2,
                                          startY, startY + alt.alterations.height + 2).Contains(c)
  {
    var t := alt.topLeftNodePos;
    var startX := t.x - 1;
    var startY := t.y - 1;
    RecalculatedChunks(m, startX, startX + alt.alterations.width + 2,
                       startY, startY + alt.alterations.height + 2, c);
  }

  /** Mask cell `(x, y)` has been visited once the walk, row by row, has
      reached cell `(x, y)` of row `y`: `p` is under an earlier cell. */
  predicate Visited(alt: NodeAlteration, p: Pos, x: int, y: int) {
    var o := p.Minus(alt.topLeftNodePos);
    o.y < y || (o.y == y && o.x < x)
  }

  /** The grid after the walk has visited the mask cells before `(x, y)`. */
  ghost predicate AlteredBefore(m: MapState, r: MapState, alt: NodeAlteration, x: int, y: int)
    requires m.Valid() && alt.alterations.Valid()
  {
    && r.Valid() && SameShape(r, m)
    && forall p :: m.nodes.InBounds(p) ==>
         r.nodes.At(p) == (m.nodes.At(p) && !(alt.subtract && MaskCovers(alt, p) && Visited(alt, p, x, y)))
  }

  /** One visit of the mask walk: AlterNode at the node under mask cell
      `(x, y)` when the cell is true and the node is in the map. */
  function AlterCell(r: MapState, alt: NodeAlteration, x: int, y: int): (s: (MapState, seq<PosChunkPair>))
    requires r.Valid() && alt.alterations.Valid() && alt.alterations.InBounds(Pos(x, y))
    ensures s.0.Valid() && SameShape(s.0, r)
  {
    var alterAtPos := alt.alterations.At(Pos(x, y));
    var pos := alt.topLeftNodePos.Plus(Pos(x, y));
    if alterAtPos && IsNodeInMap(r, pos) then
      AlterNode(r, pos, if alt.subtract then !alterAtPos else alterAtPos)
    else
      (r, [])
  }

  /** A visit moves the walk one cell on and keeps the notices sound and complete. */
  lemma AlterCellStep(m: MapState, r: MapState, alt: NodeAlteration, notices: seq<PosChunkPair>, x: int, y: int)
    requires m.Valid() && alt.alterations.Valid() && alt.alterations.InBounds(Pos(x, y))
    requires AlteredBefore(m, r, alt, x, y)
    requires NoticesSound(m, r, alt, notices) && NoticesComplete(m, r, notices)
    ensures var s := AlterCell(r, alt, x, y);
            && AlteredBefore(m, s.0, alt, x + 1, y)
            && NoticesSound(m, s.0, alt, notices + s.1)
            && NoticesComplete(m, s.0, notices + s.1)
  {
    var pos := alt.topLeftNodePos.Plus(Pos(x, y));
    if alt.alterations.At(Pos(x, y)) && IsNodeInMap(r, pos) && alt.subtract && r.nodes.At(pos) {
      EmptyingVisitGrid(m, r, alt, x, y);
      EmptyingVisitNotices(m, r, alt, notices, x, y);
    } else {
      QuietVisit(m, r, alt, notices, x, y);
    }
  }

  /** The only node a visit of mask cell `(x, y)` newly counts as visited is the node under it. */
  lemma VisitedNext(alt: NodeAlteration, p: Pos, x: int, y: int)
    ensures Visited(alt, p, x + 1, y) <==> Visited(alt, p, x, y) || p == alt.topLeftNodePos.Plus(Pos(x, y))
  {
  }

  /** A visit that empties nothing changes nothing and sends nothing. */
  lemma QuietVisit(m: MapState, r: MapState, alt: NodeAlteration, notices: seq<PosChunkPair>, x: int, y: int)
    requires m.Valid() && alt.alterations.Valid() && alt.alterations.InBounds(Pos(x, y))
    requires AlteredBefore(m, r, alt, x, y)
    requires NoticesSound(m, r, alt, notices) && NoticesComplete(m, r, notices)
    requires var pos := alt.topLeftNodePos.Plus(Pos(x, y));
             !(alt.alterations.At(Pos(x, y)) && IsNodeInMap(r, pos) && alt.subtract && r.nodes.At(pos))
    ensures var s := AlterCell(r, alt, x, y);
            && AlteredBefore(m, s.0, alt, x + 1, y)
            && NoticesSound(m, s.0, alt, notices + s.1)
            && NoticesComplete(m, s.0, notices + s.1)
  {
    var s := AlterCell(r, alt, x, y);
    assert s == (r, []);
    assert notices + s.1 == notices;
    var pos := alt.topLeftNodePos.Plus(Pos(x, y));
    forall p | m.nodes.InBounds(p)
      ensures r.nodes.At(p) == (m.nodes.At(p) && !(alt.subtract && MaskCovers(alt, p) && Visited(alt, p, x + 1, y)))
    {
      VisitedNext(alt, p, x, y);
      if p == pos {
        assert p.Minus(alt.topLeftNodePos) == Pos(x, y);
      }
    }
  }

  /** A visit that empties the node under mask cell `(x, y)` moves the walk one cell on. */
  lemma EmptyingVisitGrid(m: MapState, r: MapState, alt: NodeAlteration, x: int, y: int)
    requires m.Valid() && alt.alterations.Valid() && alt.alterations.InBounds(Pos(x, y))
    requires AlteredBefore(m, r, alt, x, y)
    requires var pos := alt.topLeftNodePos.Plus(Pos(x, y));
             alt.alterations.At(Pos(x, y)) && IsNodeInMap(r, pos) && alt.subtract && r.nodes.At(pos)
    ensures AlteredBefore(m, AlterCell(r, alt, x, y).0, alt, x + 1, y)
  {
    var pos := alt.topLeftNodePos.Plus(Pos(x, y));
    var s := AlterCell(r, alt, x, y);
    assert s == EmptyTile(r, pos);
    assert pos.Minus(alt.topLeftNodePos) == Pos(x, y);
    forall p | m.nodes.InBounds(p)
      ensures s.0.nodes.At(p) == (m.nodes.At(p) && !(alt.subtract && MaskCovers(alt, p) && Visited(alt, p, x + 1, y)))
    {
      VisitedNext(alt, p, x, y);
    }
  }

  /** The notices of a visit that empties the node under mask cell `(x, y)`
      are sound and complete for the node it empties. */
  lemma EmptyingVisitNotices(m: MapState, r: MapState, alt: NodeAlteration, notices: seq<PosChunkPair>, x: int, y: int)
    requires m.Valid() && alt.alterations.Valid() && alt.alterations.InBounds(Pos(x, y))
    requires AlteredBefore(m, r, alt, x, y)
    requires NoticesSound(m, r, alt, notices) && NoticesComplete(m, r, notices)
    requires var pos := alt.topLeftNodePos.Plus(Pos(x, y));
             alt.alterations.At(Pos(x, y)) && IsNodeInMap(r, pos) && alt.subtract && r.nodes.At(pos)
    ensures var s := AlterCell(r, alt, x, y);
            && NoticesSound(m, s.0, alt, notices + s.1)
            && NoticesComplete(m, s.0, notices + s.1)
  {
    var pos := alt.topLeftNodePos.Plus(Pos(x, y));
    var s := AlterCell(r, alt, x, y);
    assert s == EmptyTile(r, pos);
    assert pos.Minus(alt.topLeftNodePos) == Pos(x, y);
    forall q | q in notices + s.1
      ensures && ValidChunk(m, q.chunkPos) && InChunkWindow(q.chunkPos, NodeOf(q))
              && q == MakePair(q.chunkPos, NodeOf(q))
              && m.nodes.InBounds(NodeOf(q)) && MaskCovers(alt, NodeOf(q))
              && m.nodes.At(NodeOf(q)) && !s.0.nodes.At(NodeOf(q))
    {
      if q !in notices {
        assert q in s.1;
        assert NodeOf(q) == pos;
      }
    }
  }

  /** Finishing row `y` is starting row `y + 1`: no mask cell lies right of the mask. */
  lemma RowDone(m: MapState, r: MapState, alt: NodeAlteration, y: int)
    requires m.Valid() && alt.alterations.Valid()
    requires AlteredBefore(m, r, alt, alt.alterations.width, y)
    ensures AlteredBefore(m, r, alt, 0, y + 1)
  {
  }

  /** After the last row every mask cell has been visited: the grid is Altered. */
  lemma WalkDone(m: MapState, r: MapState, alt: NodeAlteration)
    requires m.Valid() && alt.alterations.Valid()
    requires AlteredBefore(m, r, alt, 0, alt.alterations.height)
    ensures r == Altered(m, alt)
  {
    GridExtensionality(r.nodes, Altered(m, alt).nodes);
  }

  /** ApplyAlteration: walks the mask row by row, asks AlterNode for
      `subtract ? !mask : mask` at each in-map node under a true mask cell, and
      then picks the chunk range to recompute. `notices` are the chunk
      notifications EmptyTile sends, in order. */
  method ApplyAlteration(m: MapState, alteration: NodeAlteration)
    returns (r: MapState, notices: seq<PosChunkPair>, recalculated: ChunkRange)
    requires m.Valid() && alteration.alterations.Valid()
    ensures r == Altered(m, alteration)
    ensures NoticesSound(m, r, alteration, notices)
    ensures NoticesComplete(m, r, notices)
    ensures recalculated.startX >= 0 && recalculated.startY >= 0
    ensures recalculated.endX <= m.chunkCountX - 1 && recalculated.endY <= m.chunkCountY - 1
    ensures forall c, n :: ValidChunk(m, c) && InChunkWindow(c, n) && InDirtyRect(alteration, n)
                           ==> recalculated.Contains(c)
    ensures forall q :: q in notices ==> recalculated.Contains(q.chunkPos)
  {
    var t := alteration.topLeftNodePos;
    var xLen := alteration.alterations.width;
    var yLen := alteration.alterations.height;
    r := m;
    notices := [];
    var y := 0;
    while y < yLen
      invariant 0 <= y <= yLen
      invariant AlteredBefore(m, r, alteration, 0, y)
      invariant NoticesSound(m, r, alteration, notices) && NoticesComplete(m, r, notices)
    {
      var x := 0;
      while x < xLen
        invariant 0 <= x <= xLen
        invariant AlteredBefore(m, r, alteration, x, y)
        invariant NoticesSound(m, r, alteration, notices) && NoticesComplete(m, r, notices)
      {
        AlterCellStep(m, r, alteration, notices, x, y);
        var (r', emitted) := AlterCell(r, alteration, x, y);
        r := r';
        notices := notices + emitted;
        x := x + 1;
      }
      RowDone(m, r, alteration, y);
      y := y + 1;
    }
    WalkDone(m, r, alteration);

    var startX := t.x - 1;
    var startY := t.y - 1;
    var endX := startX + xLen + 2;
    var endY := startY + yLen + 2;
    recalculated := RecalculateChunksInAlteration(m, startX, endX, startY, endY);

    forall c, n | ValidChunk(m, c) && InChunkWindow(c, n) && InDirtyRect(alteration, n)
      ensures recalculated.Contains(c)
    {
      DirtyChunksRecalculated(m, alteration, c, n);
    }
    forall q | q in notices
      ensures recalculated.Contains(q.chunkPos)
    {
      assert InDirtyRect(alteration, NodeOf(q));
      DirtyChunksRecalculated(m, alteration, q.chunkPos, NodeOf(q));
    }
  }
}
