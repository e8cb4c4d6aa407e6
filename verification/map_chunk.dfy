/** One chunk of MapChunk.cs: its window of nodes, its edge-node list, and the
    wall-following walk that turns the edge nodes into boundary paths.
    Positions inside a chunk are local to its top-left node. Boundary points are
    doubled integer coordinates, so the point half a step from node `n` in
    direction `d` is `2 n + d`. */
module MapChunk {
  import opened NodeGrid
  import Map

  // ---------------------------------------------------------------- directions

  /** The direction index after a quarter turn clockwise (0 down, 1 right, 2 up, 3 left). */
  function RotateClockwise(index: int): (r: int)
    ensures 0 <= index <= 3 ==> 0 <= r <= 3 && r == (index + 1) % 4
  {
    var i := index + 1;
    if i > 3 then 0 else i
  }

  /** The direction index after a quarter turn counter-clockwise. */
  function RotateCounterclockwise(index: int): (r: int)
    ensures 0 <= index <= 3 ==> 0 <= r <= 3 && r == (index + 3) % 4
  {
    var i := index - 1;
    if i < 0 then 3 else i
  }

  /** The two rotations undo each other on direction indices. */
  lemma RotationsInverse(d: int)
    requires 0 <= d <= 3
    ensures RotateCounterclockwise(RotateClockwise(d)) == d
    ensures RotateClockwise(RotateCounterclockwise(d)) == d
  {
  }

  /** Four clockwise quarter turns bring a direction back to itself. */
  lemma FourClockwiseTurns(d: int)
    requires 0 <= d <= 3
    ensures RotateClockwise(RotateClockwise(RotateClockwise(RotateClockwise(d)))) == d
  {
  }

  /** The unit step of a direction index: 0 is Unity's down (y - 1), 1 right,
      2 up (y + 1); every other index is left. */
  function GetDirFromDirectionIndex(index: int): (v: Pos)
    ensures Abs(v.x) + Abs(v.y) == 1
  {
    if index == 0 then Pos(0, -1)
    else if index == 1 then Pos(1, 0)
    else if index == 2 then Pos(0, 1)
    else Pos(-1, 0)
  }

  /** Directions `d` and `d + 2` point opposite ways, the four directions are
      distinct, and a clockwise turn rotates the step vector a quarter turn. */
  lemma DirectionGeometry(d: int, e: int)
    requires 0 <= d <= 3 && 0 <= e <= 3
    ensures GetDirFromDirectionIndex((d + 2) % 4) == Pos(-GetDirFromDirectionIndex(d).x, -GetDirFromDirectionIndex(d).y)
    ensures GetDirFromDirectionIndex(d) == GetDirFromDirectionIndex(e) <==> d == e
    ensures GetDirFromDirectionIndex(RotateClockwise(d))
            == Pos(-GetDirFromDirectionIndex(d).y, GetDirFromDirectionIndex(d).x)
  {
    assert (d + 2) % 4 == if d < 2 then d + 2 else d - 2;
  }

  /** Stepping from `p` in any direction reaches a 4-neighbour of `p`. */
  lemma StepIsAdjacent(p: Pos, d: int)
    ensures Adjacent(p, p.Plus(GetDirFromDirectionIndex(d)))
  {
  }

  // ---------------------------------------------------------------- chunk window

  /** The map node at local position (0, 0) of chunk `c`. */
  function TopLeftNodePos(c: Pos): Pos {
    c.Scale(Map.ChunkTileSize)
  }

  /** The map node at local position `l` of chunk `c`. */
  function LocalPosToNodePos(c: Pos, l: Pos): Pos {
    TopLeftNodePos(c).Plus(l)
  }

  /** The local position of map node `n` in chunk `c`. */
  function NodePosToLocalPos(c: Pos, n: Pos): (l: Pos)
    ensures LocalPosToNodePos(c, l) == n
  {
    n.Minus(TopLeftNodePos(c))
  }

  /** The chunk's window: ChunkSize nodes per side, borders included. */
  predicate IsNodeInChunk(l: Pos) {
    !(l.x < 0 || l.y < 0 || l.x > Map.ChunkTileSize || l.y > Map.ChunkTileSize)
  }

  /** A chunk's local window is its window in the map partition, and lies in the map. */
  lemma IsNodeInChunkWindow(m: Map.MapState, c: Pos, l: Pos)
    requires m.Valid() && Map.ValidChunk(m, c)
    ensures IsNodeInChunk(l) <==> Map.InChunkWindow(c, LocalPosToNodePos(c, l))
    ensures IsNodeInChunk(l) ==> Map.IsNodeInMap(m, LocalPosToNodePos(c, l))
  {
    if IsNodeInChunk(l) {
      Map.ChunkWindowsInsideMap(m, c, LocalPosToNodePos(c, l));
    }
  }

  /** GetNodeFilled: reads the map without a bounds check, so callers must
      stay in the map; there it is the map's checked query of the node. */
  function GetNodeFilled(m: Map.MapState, c: Pos, l: Pos): (r: bool)
    requires m.Valid() && Map.IsNodeInMap(m, LocalPosToNodePos(c, l))
    ensures r == Map.GetNodeInMapAndFilled(m, LocalPosToNodePos(c, l))
  {
    Map.GetNodeFilled(m, LocalPosToNodePos(c, l))
  }

  function GetNodeInChunkAndFilled(m: Map.MapState, c: Pos, l: Pos): (r: bool)
    requires m.Valid() && Map.ValidChunk(m, c)
    ensures r <==> IsNodeInChunk(l) && Map.GetNodeInMapAndFilled(m, LocalPosToNodePos(c, l))
  {
    IsNodeInChunkWindow(m, c, l);
    if !IsNodeInChunk(l) then false else GetNodeFilled(m, c, l)
  }

  /** ShouldBeEdge: some 4-neighbour inside the chunk is filled (checked
      down, right, up, left). */
  predicate ShouldBeEdge(m: Map.MapState, c: Pos, l: Pos)
    requires m.Valid() && Map.ValidChunk(m, c)
  {
    GetNodeInChunkAndFilled(m, c, l.Plus(Pos(0, -1))) || GetNodeInChunkAndFilled(m, c, l.Plus(Pos(1, 0)))
      || GetNodeInChunkAndFilled(m, c, l.Plus(Pos(0, 1))) || GetNodeInChunkAndFilled(m, c, l.Plus(Pos(-1, 0)))
  }

  /** ShouldBeEdge holds iff some 4-neighbour is inside the chunk and filled. */
  lemma ShouldBeEdgeNeighbour(m: Map.MapState, c: Pos, l: Pos)
    requires m.Valid() && Map.ValidChunk(m, c)
    ensures ShouldBeEdge(m, c, l) <==> exists q :: Adjacent(l, q) && GetNodeInChunkAndFilled(m, c, q)
  {
    if ShouldBeEdge(m, c, l) {
      var q := if GetNodeInChunkAndFilled(m, c, l.Plus(Pos(0, -1))) then l.Plus(Pos(0, -1))
               else if GetNodeInChunkAndFilled(m, c, l.Plus(Pos(1, 0))) then l.Plus(Pos(1, 0))
               else if GetNodeInChunkAndFilled(m, c, l.Plus(Pos(0, 1))) then l.Plus(Pos(0, 1))
               else l.Plus(Pos(-1, 0));
      assert Adjacent(l, q) && GetNodeInChunkAndFilled(m, c, q);
    }
  }

  /** ShouldBeEdge holds iff the neighbour in some direction index is inside
      the chunk and filled: exactly when the walk finds a start direction. */
  lemma ShouldBeEdgeDirection(m: Map.MapState, c: Pos, l: Pos)
    requires m.Valid() && Map.ValidChunk(m, c)
    ensures ShouldBeEdge(m, c, l) <==>
              exists d :: 0 <= d <= 3 && GetNodeInChunkAndFilled(m, c, l.Plus(GetDirFromDirectionIndex(d)))
  {
    if ShouldBeEdge(m, c, l) {
      var d := if GetNodeInChunkAndFilled(m, c, l.Plus(Pos(0, -1))) then 0
               else if GetNodeInChunkAndFilled(m, c, l.Plus(Pos(1, 0))) then 1
               else if GetNodeInChunkAndFilled(m, c, l.Plus(Pos(0, 1))) then 2
               else 3;
      assert GetNodeInChunkAndFilled(m, c, l.Plus(GetDirFromDirectionIndex(d)));
    }
    forall d | 0 <= d <= 3 && GetNodeInChunkAndFilled(m, c, l.Plus(GetDirFromDirectionIndex(d)))
      ensures ShouldBeEdge(m, c, l)
    {
      assert d == 0 || d == 1 || d == 2 || d == 3;
    }
  }

  /** A chunk edge node is an edge node of the map; away from the chunk's
      border the two notions agree, while on the border the chunk ignores
      filled neighbours that belong to the next chunk. */
  lemma ChunkEdgeIsMapEdge(m: Map.MapState, c: Pos, l: Pos)
    requires m.Valid() && Map.ValidChunk(m, c)
    ensures ShouldBeEdge(m, c, l) ==> Map.ShouldBeEdge(m, LocalPosToNodePos(c, l))
    ensures 1 <= l.x < Map.ChunkTileSize && 1 <= l.y < Map.ChunkTileSize
            ==> (ShouldBeEdge(m, c, l) <==> Map.ShouldBeEdge(m, LocalPosToNodePos(c, l)))
  {
    ChunkEdgeToMapEdge(m, c, l);
    if 1 <= l.x < Map.ChunkTileSize && 1 <= l.y < Map.ChunkTileSize {
      InteriorMapEdgeToChunkEdge(m, c, l);
    }
  }

  lemma ChunkEdgeToMapEdge(m: Map.MapState, c: Pos, l: Pos)
    requires m.Valid() && Map.ValidChunk(m, c)
    ensures ShouldBeEdge(m, c, l) ==> Map.ShouldBeEdge(m, LocalPosToNodePos(c, l))
  {
    ShouldBeEdgeNeighbour(m, c, l);
    if ShouldBeEdge(m, c, l) {
      var q :| Adjacent(l, q) && GetNodeInChunkAndFilled(m, c, q);
      assert Adjacent(LocalPosToNodePos(c, l), LocalPosToNodePos(c, q));
    }
  }

  lemma InteriorMapEdgeToChunkEdge(m: Map.MapState, c: Pos, l: Pos)
    requires m.Valid() && Map.ValidChunk(m, c)
    requires 1 <= l.x < Map.ChunkTileSize && 1 <= l.y < Map.ChunkTileSize
    ensures Map.ShouldBeEdge(m, LocalPosToNodePos(c, l)) ==> ShouldBeEdge(m, c, l)
  {
    var n := LocalPosToNodePos(c, l);
    if Map.ShouldBeEdge(m, n) {
      var q :| Adjacent(n, q) && Map.GetNodeInMapAndFilled(m, q);
      var lq := NodePosToLocalPos(c, q);
      assert Adjacent(l, lq) && IsNodeInChunk(lq);
      assert GetNodeInChunkAndFilled(m, c, lq);
      ShouldBeEdgeNeighbour(m, c, l);
    }
  }

  /** What the as-written notices do to a chunk. In a 2 x 2-chunk map,
      emptying node (8, 7) notifies chunk `c` = (0, 1) of local position (8, 0)
      (Map.SpuriousPairAt), and leaves node (7, 7) as it was
      (Map.EmptyTileKeepsOthers). Whenever (7, 7) is filled, (8, 0) should be
      an edge of chunk (0, 1) through its in-chunk neighbour (7, 0), though it
      lies outside the chunk, so UpdateEdges stores it. */
  lemma SpuriousNoticeIsEdge(m: Map.MapState, c: Pos)
    requires m.Valid() && m.chunkCountX == 2 && m.chunkCountY == 2 && c == Pos(0, 1)
    requires Map.GetNodeInMapAndFilled(m, Pos(7, 7))
    ensures !IsNodeInChunk(Pos(8, 0))
    ensures ShouldBeEdge(m, c, Pos(8, 0))
  {
    NeighbourOfSpuriousNode();
    OutsideNodeIsEdge(m, c);
  }

  /** Local (8, 0), one step past a chunk's right border, should be an edge of
      the chunk whenever the chunk's local (7, 0) is filled. */
  lemma OutsideNodeIsEdge(m: Map.MapState, c: Pos)
    requires m.Valid() && Map.ValidChunk(m, c)
    requires Map.GetNodeInMapAndFilled(m, LocalPosToNodePos(c, Pos(7, 0)))
    ensures !IsNodeInChunk(Pos(8, 0))
    ensures ShouldBeEdge(m, c, Pos(8, 0))
  {
    assert Pos(8, 0).Plus(GetDirFromDirectionIndex(3)) == Pos(7, 0);
    EdgeThroughNeighbour(m, c, Pos(8, 0), 3);
  }

  /** A node whose neighbour in some direction is in the chunk and filled in
      the map should be an edge, wherever the node itself lies. */
  lemma EdgeThroughNeighbour(m: Map.MapState, c: Pos, l: Pos, d: int)
    requires m.Valid() && Map.ValidChunk(m, c)
    requires IsNodeInChunk(l.Plus(GetDirFromDirectionIndex(d)))
    requires Map.GetNodeInMapAndFilled(m, LocalPosToNodePos(c, l.Plus(GetDirFromDirectionIndex(d))))
    ensures ShouldBeEdge(m, c, l)
  {
    var q := l.Plus(GetDirFromDirectionIndex(d));
    assert GetNodeInChunkAndFilled(m, c, q);
    StepIsAdjacent(l, d);
    ShouldBeEdgeNeighbour(m, c, l);
  }

  /** Local (8, 0) of chunk (0, 1) is outside the chunk and map node (7, 7) is its local (7, 0). */
  lemma NeighbourOfSpuriousNode()
    ensures LocalPosToNodePos(Pos(0, 1), Pos(7, 0)) == Pos(7, 7)
  {
  }

  // ---------------------------------------------------------------- chunk state

  /** The state a chunk keeps between recalculations. */
  datatype ChunkState = ChunkState(
    chunkPos: Pos,
    edgeNodes: seq<Pos>,
    newlyEmptiedLocalNodes: seq<Pos>,
    allEdgePaths: seq<seq<Pos>>)

  /** NodeEmptied: queues a local node for the next UpdateEdges. */
  function NodeEmptied(s: ChunkState, localPos: Pos): (r: ChunkState)
    ensures r.chunkPos == s.chunkPos && r.edgeNodes == s.edgeNodes && r.allEdgePaths == s.allEdgePaths
    ensures multiset(r.newlyEmptiedLocalNodes) == multiset(s.newlyEmptiedLocalNodes) + multiset{localPos}
    ensures |r.newlyEmptiedLocalNodes| == |s.newlyEmptiedLocalNodes| + 1
    ensures r.newlyEmptiedLocalNodes[..|s.newlyEmptiedLocalNodes|] == s.newlyEmptiedLocalNodes
  {
    s.(newlyEmptiedLocalNodes := s.newlyEmptiedLocalNodes + [localPos])
  }

  /** The nodes of `s` that should be edges, in their order. */
  function KeepEdges(m: Map.MapState, c: Pos, s: seq<Pos>): (r: seq<Pos>)
    requires m.Valid() && Map.ValidChunk(m, c)
    ensures |r| <= |s|
  {
    if s == [] then []
    else
      assert s == [s[0]] + s[1..];
      (if ShouldBeEdge(m, c, s[0]) then [s[0]] else []) + KeepEdges(m, c, s[1..])
  }

  /** KeepEdges keeps exactly the members that should be edges. */
  lemma {:induction false} KeepEdgesMembers(m: Map.MapState, c: Pos, s: seq<Pos>)
    requires m.Valid() && Map.ValidChunk(m, c)
    ensures forall x :: x in KeepEdges(m, c, s) <==> x in s && ShouldBeEdge(m, c, x)
  {
    if s != [] {
      KeepEdgesMembers(m, c, s[1..]);
      assert s == [s[0]] + s[1..];
    }
  }

  /** KeepEdges on a suffix starting at `i` decides `s[i]` and goes on with the rest. */
  lemma KeepEdgesStep(m: Map.MapState, c: Pos, s: seq<Pos>, i: int)
    requires m.Valid() && Map.ValidChunk(m, c) && 0 <= i < |s|
    ensures KeepEdges(m, c, s[i..]) == (if ShouldBeEdge(m, c, s[i]) then [s[i]] else []) + KeepEdges(m, c, s[i + 1..])
  {
    assert s[i..][1..] == s[i + 1..];
  }

  /** List.Remove: the sequence without the first occurrence of `v`, if any. */
  function RemoveFirst(s: seq<Pos>, v: Pos): (r: seq<Pos>)
    ensures v in s ==> |r| == |s| - 1
    ensures v !in s ==> r == s
  {
    if s == [] then []
    else
      assert s == [s[0]] + s[1..];
      if s[0] == v then s[1..]
      else [s[0]] + RemoveFirst(s[1..], v)
  }

  /** The index of the first occurrence of `v` in `s`. */
  function FirstIndex(s: seq<Pos>, v: Pos): (i: nat)
    requires v in s
    ensures i < |s| && s[i] == v && v !in s[..i]
  {
    if s[0] == v then 0
    else
      var j := FirstIndex(s[1..], v);
      assert s[..j + 1] == [s[0]] + s[1..][..j];
      j + 1
  }

  /** The first-occurrence removal cuts out exactly the first `v` and keeps
      every other element in its order. */
  lemma {:induction false} RemoveFirstKeepsOrder(s: seq<Pos>, v: Pos)
    requires v in s
    ensures RemoveFirst(s, v) == s[..FirstIndex(s, v)] + s[FirstIndex(s, v) + 1..]
  {
    if s[0] == v {
      assert FirstIndex(s, v) == 0;
      assert s[..0] + s[1..] == s[1..];
    } else {
      var j := FirstIndex(s[1..], v);
      assert FirstIndex(s, v) == j + 1;
      assert RemoveFirst(s, v) == [s[0]] + RemoveFirst(s[1..], v);
      RemoveFirstKeepsOrder(s[1..], v);
      assert s[..j + 1] == [s[0]] + s[1..][..j];
      assert s[j + 2..] == s[1..][j + 1..];
    }
  }

  /** List.Remove takes exactly one copy of `v` out of the list's contents. */
  lemma RemoveFirstMultiset(s: seq<Pos>, v: Pos)
    requires v in s
    ensures multiset(RemoveFirst(s, v)) == multiset(s) - multiset{v}
  {
    RemoveFirstKeepsOrder(s, v);
    var i := FirstIndex(s, v);
    var before, after := s[..i], s[i + 1..];
    assert s == before + [v] + after;
    assert multiset(s) == multiset(before) + multiset{v} + multiset(after);
    assert multiset(RemoveFirst(s, v)) == multiset(before) + multiset(after);
  }

  // ---------------------------------------------------------------- boundary walk

  /** The boundary point half a step from node `n` in direction `d`, doubled. */
  function HalfStep(n: Pos, d: int): Pos {
    n.Scale(2).Plus(GetDirFromDirectionIndex(d))
  }

  /** A boundary point lies half a step from its node, strictly between two
      lattice nodes, and is the same point seen from the neighbour across it
      facing back: the two nodes of a step share it. */
  lemma HalfStepShared(n: Pos, d: int)
    requires 0 <= d <= 3
    ensures var p := HalfStep(n, d);
            Dist(p.x, 2 * n.x) + Dist(p.y, 2 * n.y) == 1
    ensures HalfStep(n, d) == HalfStep(n.Plus(GetDirFromDirectionIndex(d)), (d + 2) % 4)
  {
    DirectionGeometry(d, d);
  }

  /** Where a boundary point was placed from: the walk's node and the direction it faced. */
  datatype Placement = Placement(node: Pos, dir: int)

  /** Point `p` was placed from `pl.node`, half a step toward a filled node
      inside the chunk. */
  predicate FacesFilled(m: Map.MapState, c: Pos, p: Pos, pl: Placement)
    requires m.Valid() && Map.ValidChunk(m, c)
  {
    && 0 <= pl.dir <= 3
    && p == HalfStep(pl.node, pl.dir)
    && GetNodeInChunkAndFilled(m, c, pl.node.Plus(GetDirFromDirectionIndex(pl.dir)))
  }

  /** No three consecutive points of a path were placed in the same direction:
      a straight run keeps only its first and last points. */
  predicate NoRunOfThree(pls: seq<Placement>) {
    forall i :: 0 <= i < |pls| - 2 ==> !(pls[i].dir == pls[i + 1].dir && pls[i + 1].dir == pls[i + 2].dir)
  }

  /** A path together with the placement of each of its points. */
  predicate WellFormedPath(m: Map.MapState, c: Pos, path: seq<Pos>, pls: seq<Placement>)
    requires m.Valid() && Map.ValidChunk(m, c)
  {
    && |pls| == |path|
    && (forall i :: 0 <= i < |path| ==> FacesFilled(m, c, path[i], pls[i]))
    && NoRunOfThree(pls)
  }

  /** The walk's moves: it starts at `start` and each later node is a
      4-neighbour of the one before, inside the chunk and not filled. */
  predicate ValidWalk(m: Map.MapState, c: Pos, start: Pos, nodes: seq<Pos>)
    requires m.Valid() && Map.ValidChunk(m, c)
  {
    && |nodes| >= 1 && nodes[0] == start
    && (forall i :: 1 <= i < |nodes| ==> IsNodeInChunk(nodes[i]) && !GetNodeInChunkAndFilled(m, c, nodes[i]))
    && (forall i :: 1 <= i < |nodes| ==> Adjacent(nodes[i - 1], nodes[i]))
  }

  /** The bookkeeping of the current path: `lastDir` is -1 exactly on an
      empty path and otherwise the last point's direction; `aligned` says the
      last two points share it, in which case the point before them does not. */
  predicate PathBookkeeping(pls: seq<Placement>, lastDir: int, aligned: bool) {
    var n := |pls|;
    && -1 <= lastDir <= 3
    && (lastDir == -1 <==> n == 0)
    && (lastDir != -1 ==> pls[n - 1].dir == lastDir)
    && (aligned ==> n >= 2 && pls[n - 2].dir == lastDir && (n >= 3 ==> pls[n - 3].dir != lastDir))
    && (!aligned ==> n < 2 || pls[n - 2].dir != pls[n - 1].dir)
  }

  /** The placement step of the walk: the new point is appended, after
      dropping the previous point when it and the one before it were already
      placed in direction `d` (the middle of a straight run). Returns the path
      and the new `aligned` flag. */
  function PlacePoint(path: seq<Pos>, lastDir: int, aligned: bool, point: Pos, d: int): (r: (seq<Pos>, bool))
    requires d == lastDir && aligned ==> |path| >= 1
    ensures |r.0| >= 1 && r.0[|r.0| - 1] == point
    ensures r.0 == path + [point] || (|path| >= 1 && r.0 == path[..|path| - 1] + [point])
    ensures (|path| >= 1 && r.0 == path[..|path| - 1] + [point]) <==> d == lastDir && aligned
    ensures r.1 <==> d == lastDir
  {
    if d == lastDir then
      if aligned then (path[..|path| - 1] + [point], true)
      else (path + [point], true)
    else
      (path + [point], false)
  }

  /** The placements PlacePoint leaves, point for point. */
  ghost function PlacePlacements(pls: seq<Placement>, lastDir: int, aligned: bool, pl: Placement): seq<Placement>
    requires pl.dir == lastDir && aligned ==> |pls| >= 1
  {
    if pl.dir == lastDir && aligned then pls[..|pls| - 1] + [pl] else pls + [pl]
  }

  /** Placing a point never leaves three consecutive placements in one
      direction, and the bookkeeping stays right. */
  lemma PlaceKeepsNoRun(pls: seq<Placement>, lastDir: int, aligned: bool, pl: Placement)
    requires NoRunOfThree(pls) && PathBookkeeping(pls, lastDir, aligned) && 0 <= pl.dir <= 3
    ensures pl.dir == lastDir && aligned ==> |pls| >= 1
    ensures var ps := PlacePlacements(pls, lastDir, aligned, pl);
            NoRunOfThree(ps) && PathBookkeeping(ps, pl.dir, pl.dir == lastDir)
  {
    var ps := PlacePlacements(pls, lastDir, aligned, pl);
    var n := |pls|;
    if pl.dir == lastDir && aligned {
      forall i | 0 <= i < |ps| - 2
        ensures !(ps[i].dir == ps[i + 1].dir && ps[i + 1].dir == ps[i + 2].dir)
      {
        assert ps[i].dir == pls[i].dir && ps[i + 1].dir == pls[i + 1].dir && ps[i + 2].dir == pls[i + 2].dir;
      }
    } else {
      assert |ps| == n + 1 && ps[n] == pl;
      forall i | 0 <= i < |ps| - 2
        ensures !(ps[i].dir == ps[i + 1].dir && ps[i + 1].dir == ps[i + 2].dir)
      {
        if i + 2 < n {
          assert ps[i] == pls[i] && ps[i + 1] == pls[i + 1] && ps[i + 2] == pls[i + 2];
        } else {
          assert i == n - 2;
          assert ps[i + 1] == pls[n - 1];
        }
      }
    }
  }

  /** Placing a point facing a filled node keeps every point of the path
      facing a filled node. */
  lemma PlaceKeepsFacing(m: Map.MapState, c: Pos, path: seq<Pos>, pls: seq<Placement>, lastDir: int,
                         aligned: bool, point: Pos, pl: Placement)
    requires m.Valid() && Map.ValidChunk(m, c)
    requires |pls| == |path| && forall i :: 0 <= i < |path| ==> FacesFilled(m, c, path[i], pls[i])
    requires pl.dir == lastDir && aligned ==> |path| >= 1
    requires FacesFilled(m, c, point, pl)
    ensures var r := PlacePoint(path, lastDir, aligned, point, pl.dir);
            var ps := PlacePlacements(pls, lastDir, aligned, pl);
            |ps| == |r.0| && forall i :: 0 <= i < |r.0| ==> FacesFilled(m, c, r.0[i], ps[i])
  {
    var r := PlacePoint(path, lastDir, aligned, point, pl.dir);
    var ps := PlacePlacements(pls, lastDir, aligned, pl);
    var n := |pls|;
    if pl.dir == lastDir && aligned {
      forall i | 0 <= i < |r.0|
        ensures FacesFilled(m, c, r.0[i], ps[i])
      {
        if i < n - 1 {
          assert r.0[i] == path[i] && ps[i] == pls[i];
        }
      }
    } else {
      forall i | 0 <= i < |r.0|
        ensures FacesFilled(m, c, r.0[i], ps[i])
      {
        if i < n {
          assert r.0[i] == path[i] && ps[i] == pls[i];
        }
      }
    }
  }

  /** Placing a point facing a filled node keeps the path well formed. */
  lemma PlacePointKeepsPath(m: Map.MapState, c: Pos, path: seq<Pos>, pls: seq<Placement>, lastDir: int,
                            aligned: bool, point: Pos, pl: Placement)
    requires m.Valid() && Map.ValidChunk(m, c)
    requires WellFormedPath(m, c, path, pls) && PathBookkeeping(pls, lastDir, aligned)
    requires FacesFilled(m, c, point, pl)
    ensures pl.dir == lastDir && aligned ==> |path| >= 1 && |pls| >= 1
    ensures var r := PlacePoint(path, lastDir, aligned, point, pl.dir);
            var ps := PlacePlacements(pls, lastDir, aligned, pl);
            WellFormedPath(m, c, r.0, ps) && PathBookkeeping(ps, pl.dir, r.1)
  {
    PlaceKeepsNoRun(pls, lastDir, aligned, pl);
    PlaceKeepsFacing(m, c, path, pls, lastDir, aligned, point, pl);
  }

  /** The first direction index, in the order down, right, up, left, whose
      neighbour of `start` is inside the chunk and filled; none exists exactly
      when `start` should not be an edge. */
  method FindStartDir(m: Map.MapState, c: Pos, start: Pos) returns (found: bool, startDir: int)
    requires m.Valid() && Map.ValidChunk(m, c)
    ensures found <==> ShouldBeEdge(m, c, start)
    ensures found ==> 0 <= startDir <= 3 && GetNodeInChunkAndFilled(m, c, start.Plus(GetDirFromDirectionIndex(startDir)))
    ensures found ==> forall d :: 0 <= d < startDir ==>
              !GetNodeInChunkAndFilled(m, c, start.Plus(GetDirFromDirectionIndex(d)))
  {
    ShouldBeEdgeDirection(m, c, start);
    startDir := 0;
    while !GetNodeInChunkAndFilled(m, c, start.Plus(GetDirFromDirectionIndex(startDir)))
      invariant 0 <= startDir <= 3
      invariant forall d :: 0 <= d < startDir ==>
                  !GetNodeInChunkAndFilled(m, c, start.Plus(GetDirFromDirectionIndex(d)))
      decreases 3 - startDir
    {
      startDir := startDir + 1;
      if startDir > 3 {
        return false, startDir;
      }
    }
    found := true;
  }

  /** The walk's state between two iterations of its loop; `done` holds the
      finished paths and `path` the one being built (`paths[pathIndex]`). */
  datatype Walker = Walker(
    cur: Pos, curDir: int, initial: bool, previousWasOutsideChunk: bool, shouldBreak: bool,
    lastPlacementDir: int, lastPlacementDirAligned: bool,
    done: seq<seq<Pos>>, path: seq<Pos>, included: seq<Pos>)

  /** The placements of the finished paths and of the current path. */
  datatype WalkerPlacements = WalkerPlacements(done: seq<seq<Placement>>, path: seq<Placement>)

  /** What holds of the walk after every iteration. */
  ghost predicate WalkerInvariant(m: Map.MapState, c: Pos, start: Pos, w: Walker, g: WalkerPlacements)
    requires m.Valid() && Map.ValidChunk(m, c)
  {
    && 0 <= w.curDir <= 3
    && ValidWalk(m, c, start, w.included)
    && w.cur == w.included[|w.included| - 1]
    && |g.done| == |w.done|
    && (forall k :: 0 <= k < |w.done| ==> |w.done[k]| >= 2 && WellFormedPath(m, c, w.done[k], g.done[k]))
    && WellFormedPath(m, c, w.path, g.path)
    && PathBookkeeping(g.path, w.lastPlacementDir, w.lastPlacementDirAligned)
    && (forall k, i :: 0 <= k < |g.done| && 0 <= i < |g.done[k]| ==> g.done[k][i].node in w.included)
    && (forall i :: 0 <= i < |g.path| ==> g.path[i].node in w.included)
  }

  /** The state after the current path is closed on re-finding the wall
      from outside the chunk: it is kept only with at least two points. */
  function StartNewPath(w: Walker): (r: Walker)
    ensures w.done <= r.done && |r.done| <= |w.done| + 1
    ensures |r.done| == |w.done| + 1 <==> |w.path| >= 2
    ensures |w.path| >= 2 ==> r.done[|w.done|] == w.path
    ensures (forall k :: 0 <= k < |w.done| ==> |w.done[k]| >= 2) ==> forall k :: 0 <= k < |r.done| ==> |r.done[k]| >= 2
    ensures r.path == [] && r.cur == w.cur && r.curDir == w.curDir && r.included == w.included
  {
    w.(done := if |w.path| < 2 then w.done else w.done + [w.path], path := [],
       previousWasOutsideChunk := false, lastPlacementDirAligned := false, lastPlacementDir := -1)
  }

  /** One iteration of the walk's loop, facing `w.curDir` from `w.cur`. The
      break flag is set from the state the iteration starts in, before the
      border turn, the placement or the move. */
  function WalkStep(m: Map.MapState, c: Pos, start: Pos, startDir: int, w: Walker): (r: Walker)
    requires m.Valid() && Map.ValidChunk(m, c) && 0 <= w.curDir <= 3
    requires w.lastPlacementDirAligned ==> |w.path| >= 1
    ensures 0 <= r.curDir <= 3 && !r.initial
    ensures r.included == w.included || r.included == w.included + [r.cur]
    ensures r.shouldBreak <==> if w.initial then w.shouldBreak else w.curDir == startDir && w.cur == start
  {
    var shouldBreak := if w.initial then w.shouldBreak else w.curDir == startDir && w.cur == start;
    var curDirVector := GetDirFromDirectionIndex(w.curDir);
    var next := w.cur.Plus(curDirVector);
    var stepped :=
      if !IsNodeInChunk(next) then
        w.(previousWasOutsideChunk := true, curDir := RotateClockwise(w.curDir))
      else if GetNodeInChunkAndFilled(m, c, next) then
        Placed(if w.previousWasOutsideChunk then StartNewPath(w) else w)
      else
        w.(cur := next, curDir := RotateCounterclockwise(w.curDir), included := w.included + [next]);
    stepped.(initial := false, shouldBreak := shouldBreak)
  }

  /** The wall-follower's turn rule, one case per branch of an iteration: at
      the chunk border it turns clockwise in place; facing a filled node it
      places the point half a step toward it and turns clockwise; facing an
      empty node it moves onto it, turns counter-clockwise and records it. */
  lemma WalkStepRule(m: Map.MapState, c: Pos, start: Pos, startDir: int, w: Walker)
    requires m.Valid() && Map.ValidChunk(m, c) && 0 <= w.curDir <= 3
    requires w.lastPlacementDirAligned ==> |w.path| >= 1
    ensures var next := w.cur.Plus(GetDirFromDirectionIndex(w.curDir));
            var r := WalkStep(m, c, start, startDir, w);
            && (!IsNodeInChunk(next) ==>
                  r.cur == w.cur && r.curDir == RotateClockwise(w.curDir) && r.previousWasOutsideChunk
                  && r.path == w.path && r.done == w.done && r.included == w.included)
            && (GetNodeInChunkAndFilled(m, c, next) ==>
                  r.cur == w.cur && r.curDir == RotateClockwise(w.curDir) && r.included == w.included
                  && |r.path| >= 1 && r.path[|r.path| - 1] == HalfStep(w.cur, w.curDir))
            && (IsNodeInChunk(next) && !GetNodeInChunkAndFilled(m, c, next) ==>
                  r.cur == next && r.curDir == RotateCounterclockwise(w.curDir)
                  && r.path == w.path && r.done == w.done && r.included == w.included + [next])
  { }

  /** The placements after one iteration, point for point with WalkStep's paths. */
  ghost function WalkStepPlacements(m: Map.MapState, c: Pos, w: Walker, g: WalkerPlacements): WalkerPlacements
    requires m.Valid() && Map.ValidChunk(m, c) && 0 <= w.curDir <= 3
    requires w.lastPlacementDirAligned ==> |g.path| >= 1
  {
    var next := w.cur.Plus(GetDirFromDirectionIndex(w.curDir));
    if !IsNodeInChunk(next) || !GetNodeInChunkAndFilled(m, c, next) then g
    else if w.previousWasOutsideChunk then PlacedPlacements(StartNewPath(w), ClosePlacements(w, g))
    else PlacedPlacements(w, g)
  }

  /** The placing half of an iteration, after any path split: the point half a
      step toward the filled node is placed and the walk turns clockwise. */
  function Placed(w: Walker): Walker
    requires w.lastPlacementDirAligned ==> |w.path| >= 1
  {
    var placed := PlacePoint(w.path, w.lastPlacementDir, w.lastPlacementDirAligned,
                             HalfStep(w.cur, w.curDir), w.curDir);
    w.(path := placed.0, lastPlacementDirAligned := placed.1, lastPlacementDir := w.curDir,
       curDir := RotateClockwise(w.curDir))
  }

  /** The placements after Placed, point for point. */
  ghost function PlacedPlacements(w: Walker, g: WalkerPlacements): WalkerPlacements
    requires w.lastPlacementDirAligned ==> |g.path| >= 1
  {
    g.(path := PlacePlacements(g.path, w.lastPlacementDir, w.lastPlacementDirAligned, Placement(w.cur, w.curDir)))
  }

  /** Placing keeps the walk invariant when the node faced is filled and in the chunk. */
  lemma PlacedKeepsInvariant(m: Map.MapState, c: Pos, start: Pos, w: Walker, g: WalkerPlacements)
    requires m.Valid() && Map.ValidChunk(m, c)
    requires WalkerInvariant(m, c, start, w, g)
    requires GetNodeInChunkAndFilled(m, c, w.cur.Plus(GetDirFromDirectionIndex(w.curDir)))
    ensures w.lastPlacementDirAligned ==> |w.path| >= 1 && |g.path| >= 1
    ensures WalkerInvariant(m, c, start, Placed(w), PlacedPlacements(w, g))
  {
    PlacePointKeepsPath(m, c, w.path, g.path, w.lastPlacementDir, w.lastPlacementDirAligned,
                        HalfStep(w.cur, w.curDir), Placement(w.cur, w.curDir));
    PlaceKeepsNodes(g.path, w.lastPlacementDir, w.lastPlacementDirAligned, Placement(w.cur, w.curDir), w.included);
  }

  /** A placing iteration keeps the walk invariant: the point faces a filled
      in-chunk node and the finished paths all have at least two points. */
  lemma PlaceStepKeepsInvariant(m: Map.MapState, c: Pos, start: Pos, startDir: int, w: Walker, g: WalkerPlacements)
    requires m.Valid() && Map.ValidChunk(m, c)
    requires WalkerInvariant(m, c, start, w, g)
    requires GetNodeInChunkAndFilled(m, c, w.cur.Plus(GetDirFromDirectionIndex(w.curDir)))
    ensures w.lastPlacementDirAligned ==> |w.path| >= 1 && |g.path| >= 1
    ensures WalkerInvariant(m, c, start, WalkStep(m, c, start, startDir, w), WalkStepPlacements(m, c, w, g))
  {
    var w1 := if w.previousWasOutsideChunk then StartNewPath(w) else w;
    var g1 := if w.previousWasOutsideChunk then ClosePlacements(w, g) else g;
    if w.previousWasOutsideChunk {
      StartNewPathKeepsInvariant(m, c, start, w, g);
    }
    PlacedKeepsInvariant(m, c, start, w1, g1);
    var shouldBreak := if w.initial then w.shouldBreak else w.curDir == startDir && w.cur == start;
    var r := Placed(w1).(initial := false, shouldBreak := shouldBreak);
    FlagsKeepInvariant(m, c, start, Placed(w1), PlacedPlacements(w1, g1), shouldBreak);
    assert WalkStep(m, c, start, startDir, w) == r;
    assert WalkStepPlacements(m, c, w, g) == PlacedPlacements(w1, g1);
    InvariantOfEqual(m, c, start, r, WalkStep(m, c, start, startDir, w),
                     PlacedPlacements(w1, g1), WalkStepPlacements(m, c, w, g));
  }

  /** The loop-head flags play no part in the walk invariant. */
  lemma FlagsKeepInvariant(m: Map.MapState, c: Pos, start: Pos, w: Walker, g: WalkerPlacements, shouldBreak: bool)
    requires m.Valid() && Map.ValidChunk(m, c)
    requires WalkerInvariant(m, c, start, w, g)
    ensures WalkerInvariant(m, c, start, w.(initial := false, shouldBreak := shouldBreak), g)
  {
  }

  /** The walk invariant carries over to an equal state. */
  lemma InvariantOfEqual(m: Map.MapState, c: Pos, start: Pos, a: Walker, b: Walker, ga: WalkerPlacements, gb: WalkerPlacements)
    requires m.Valid() && Map.ValidChunk(m, c)
    requires WalkerInvariant(m, c, start, a, ga) && a == b && ga == gb
    ensures WalkerInvariant(m, c, start, b, gb)
  {
  }

  /** Placing from a walked node keeps every placement's node among the walked nodes. */
  lemma PlaceKeepsNodes(pls: seq<Placement>, lastDir: int, aligned: bool, pl: Placement, included: seq<Pos>)
    requires pl.dir == lastDir && aligned ==> |pls| >= 1
    requires forall i :: 0 <= i < |pls| ==> pls[i].node in included
    requires pl.node in included
    ensures var ps := PlacePlacements(pls, lastDir, aligned, pl);
            forall i :: 0 <= i < |ps| ==> ps[i].node in included
  {
  }

  /** The placements after StartNewPath: the current path's placements are
      kept with the finished ones exactly when the path is. */
  function ClosePlacements(w: Walker, g: WalkerPlacements): WalkerPlacements {
    WalkerPlacements(if |w.path| < 2 then g.done else g.done + [g.path], [])
  }

  /** Closing the current path keeps the walk invariant. */
  lemma StartNewPathKeepsInvariant(m: Map.MapState, c: Pos, start: Pos, w: Walker, g: WalkerPlacements)
    requires m.Valid() && Map.ValidChunk(m, c)
    requires WalkerInvariant(m, c, start, w, g)
    ensures WalkerInvariant(m, c, start, StartNewPath(w), ClosePlacements(w, g))
  {
    var w1, g1 := StartNewPath(w), ClosePlacements(w, g);
    forall k | 0 <= k < |w1.done|
      ensures |w1.done[k]| >= 2 && WellFormedPath(m, c, w1.done[k], g1.done[k])
    {
      if k == |w.done| {
        assert w1.done[k] == w.path && g1.done[k] == g.path;
      } else {
        assert w1.done[k] == w.done[k] && g1.done[k] == g.done[k];
      }
    }
  }

  /** A moving iteration keeps the walk invariant: the walk steps to an
      adjacent in-chunk node that is empty. */
  lemma MoveStepKeepsInvariant(m: Map.MapState, c: Pos, start: Pos, startDir: int, w: Walker, g: WalkerPlacements)
    requires m.Valid() && Map.ValidChunk(m, c)
    requires WalkerInvariant(m, c, start, w, g)
    requires IsNodeInChunk(w.cur.Plus(GetDirFromDirectionIndex(w.curDir)))
    requires !GetNodeInChunkAndFilled(m, c, w.cur.Plus(GetDirFromDirectionIndex(w.curDir)))
    ensures WalkerInvariant(m, c, start, WalkStep(m, c, start, startDir, w), WalkStepPlacements(m, c, w, g))
  {
    StepIsAdjacent(w.cur, w.curDir);
  }

  /** Every iteration keeps the walk invariant. */
  lemma WalkStepKeepsInvariant(m: Map.MapState, c: Pos, start: Pos, startDir: int, w: Walker, g: WalkerPlacements)
    requires m.Valid() && Map.ValidChunk(m, c)
    requires WalkerInvariant(m, c, start, w, g)
    ensures w.lastPlacementDirAligned ==> |w.path| >= 1 && |g.path| >= 1
    ensures WalkerInvariant(m, c, start, WalkStep(m, c, start, startDir, w), WalkStepPlacements(m, c, w, g))
  {
    var next := w.cur.Plus(GetDirFromDirectionIndex(w.curDir));
    if GetNodeInChunkAndFilled(m, c, next) {
      PlaceStepKeepsInvariant(m, c, start, startDir, w, g);
    } else if IsNodeInChunk(next) {
      MoveStepKeepsInvariant(m, c, start, startDir, w, g);
    }
  }

  /** The wall-following loop of CalculateEdgePoints from `start` facing
      `startDir`. It turns clockwise at the chunk border or at a filled
      neighbour (placing a boundary point before it), and moves and turns
      counter-clockwise into an empty neighbour. Re-finding the wall after the
      chunk border starts a new path, collinear points are merged, and paths
      of fewer than two points are dropped. The loop stops on facing
      `startDir` at `start` again, or once `runIterations++ < 10000` fails. */
  method FollowWall(m: Map.MapState, c: Pos, start: Pos, startDir: int)
    returns (paths: seq<seq<Pos>>, includedEdgeNodes: seq<Pos>, runIterations: int,
             ghost placements: seq<seq<Placement>>)
    requires m.Valid() && Map.ValidChunk(m, c) && 0 <= startDir <= 3
    ensures ValidWalk(m, c, start, includedEdgeNodes)
    ensures 1 <= runIterations <= 10001 && |includedEdgeNodes| <= runIterations
    ensures forall p :: p in paths ==> |p| >= 2
    ensures |placements| == |paths|
    ensures forall k :: 0 <= k < |paths| ==> WellFormedPath(m, c, paths[k], placements[k])
    ensures forall k, i :: 0 <= k < |placements| && 0 <= i < |placements[k]| ==> placements[k][i].node in includedEdgeNodes
  {
    var w := Walker(start, startDir, true, false, false, -1, false, [], [], [start]);
    ghost var g := WalkerPlacements([], []);
    runIterations := 0;

    var running := runIterations < 10000 && !w.shouldBreak;
    runIterations := runIterations + 1;
    while running
      invariant 1 <= runIterations <= 10001
      invariant running ==> runIterations <= 10000
      invariant WalkerInvariant(m, c, start, w, g)
      invariant |w.included| <= runIterations
      decreases 10001 - runIterations
    {
      WalkStepKeepsInvariant(m, c, start, startDir, w, g);
      g := WalkStepPlacements(m, c, w, g);
      w := WalkStep(m, c, start, startDir, w);
      running := runIterations < 10000 && !w.shouldBreak;
      runIterations := runIterations + 1;
    }

    includedEdgeNodes := w.included;
    if |w.path| < 2 {
      paths := w.done;
      placements := g.done;
    } else {
      paths := w.done + [w.path];
      placements := g.done + [g.path];
    }
  }

  /** CalculateEdgePoints: the circular walk of the room boundary from
      `localStartPos`. A start with no filled in-chunk neighbour gives the one
      empty path it was created with; otherwise the walk starts facing the
      first filled neighbour. `runIterations` is the count of loop-condition
      evaluations, and `placements` tells where each point of each path was
      placed from. */
  method CalculateEdgePoints(m: Map.MapState, c: Pos, localStartPos: Pos)
    returns (paths: seq<seq<Pos>>, includedEdgeNodes: seq<Pos>, runIterations: int,
             ghost placements: seq<seq<Placement>>)
    requires m.Valid() && Map.ValidChunk(m, c)
    ensures ValidWalk(m, c, localStartPos, includedEdgeNodes)
    ensures 0 <= runIterations <= 10001
    ensures !ShouldBeEdge(m, c, localStartPos) <==> paths == [[]]
    ensures !ShouldBeEdge(m, c, localStartPos) ==> includedEdgeNodes == [localStartPos] && runIterations == 0
    ensures ShouldBeEdge(m, c, localStartPos) ==> |includedEdgeNodes| <= runIterations
    ensures ShouldBeEdge(m, c, localStartPos) ==> forall p :: p in paths ==> |p| >= 2
    ensures ShouldBeEdge(m, c, localStartPos) ==>
              |placements| == |paths|
              && forall k :: 0 <= k < |paths| ==> WellFormedPath(m, c, paths[k], placements[k])
    ensures ShouldBeEdge(m, c, localStartPos) ==>
              forall k, i :: 0 <= k < |placements| && 0 <= i < |placements[k]| ==> placements[k][i].node in includedEdgeNodes
  {
    var found, startDir := FindStartDir(m, c, localStartPos);
    if !found {
      return [[]], [localStartPos], 0, [[]];
    }
    paths, includedEdgeNodes, runIterations, placements := FollowWall(m, c, localStartPos, startDir);
    assert |paths| == 0 || |paths[0]| >= 2;
  }

  /** The reverse loop of UpdateEdges: removing, from the back, every node
      that is no longer an edge leaves the forward filter KeepEdges. */
  method DropNonEdges(m: Map.MapState, c: Pos, edgeNodes: seq<Pos>) returns (kept: seq<Pos>)
    requires m.Valid() && Map.ValidChunk(m, c)
    ensures kept == KeepEdges(m, c, edgeNodes)
  {
    kept := edgeNodes;
    var i := |kept|;
    while i > 0
      invariant 0 <= i <= |edgeNodes|
      invariant kept == edgeNodes[..i] + KeepEdges(m, c, edgeNodes[i..])
    {
      i := i - 1;
      KeepEdgesStep(m, c, edgeNodes, i);
      ghost var tail := KeepEdges(m, c, edgeNodes[i + 1..]);
      assert kept == edgeNodes[..i] + [edgeNodes[i]] + tail by {
        assert edgeNodes[..i + 1] == edgeNodes[..i] + [edgeNodes[i]];
      }
      if !ShouldBeEdge(m, c, kept[i]) {
        assert kept[..i] == edgeNodes[..i] && kept[i + 1..] == tail;
        kept := kept[..i] + kept[i + 1..];
      }
    }
    assert edgeNodes[0..] == edgeNodes;
  }

  /** The path loop of UpdateEdges: walk from the first remaining edge node,
      strike every node the walk passed over, and repeat until none remain or
      the escape counter runs out after 3001 walks. Every node is an edge, so
      every collected path has at least two points; each walk strikes at least
      its start, so there are no more walks than edge nodes. */
  method CollectEdgePaths(m: Map.MapState, c: Pos, edgeNodes: seq<Pos>) returns (allEdgePaths: seq<seq<Pos>>, walks: nat)
    requires m.Valid() && Map.ValidChunk(m, c)
    requires forall x :: x in edgeNodes ==> ShouldBeEdge(m, c, x)
    ensures forall p :: p in allEdgePaths ==> |p| >= 2
    ensures walks <= 3001 && walks <= |edgeNodes|
  {
    var remaining := edgeNodes;
    allEdgePaths := [];
    var escape := 3000;
    walks := 0;
    while |remaining| > 0
      invariant walks + escape == 3000 && walks <= 3001
      invariant walks + |remaining| <= |edgeNodes|
      invariant multiset(remaining) <= multiset(edgeNodes)
      invariant forall p :: p in allEdgePaths ==> |p| >= 2
      decreases |remaining|
    {
      if escape < 0 {
        escape := escape - 1;
        break;
      }
      escape := escape - 1;

      var start := remaining[0];
      assert start in multiset(edgeNodes);
      var newEdgePaths, nodesInNewEdgePath, _, _ := CalculateEdgePoints(m, c, start);
      var before := remaining;
      var j := 0;
      while j < |nodesInNewEdgePath|
        invariant 0 <= j <= |nodesInNewEdgePath|
        invariant multiset(remaining) <= multiset(before)
        invariant j == 0 ==> remaining == before
        invariant j >= 1 ==> |remaining| < |before|
      {
        if nodesInNewEdgePath[j] in remaining {
          RemoveFirstMultiset(remaining, nodesInNewEdgePath[j]);
        }
        remaining := RemoveFirst(remaining, nodesInNewEdgePath[j]);
        j := j + 1;
      }
      allEdgePaths := allEdgePaths + newEdgePaths;
      walks := walks + 1;
    }
  }

  /** UpdateEdges: keep the edge nodes that are still edges, add the newly
      emptied nodes that are edges, rebuild every path from them, and clear
      the pending list. `walks` counts the walks made. */
  method UpdateEdges(m: Map.MapState, s: ChunkState) returns (r: ChunkState, walks: nat)
    requires m.Valid() && Map.ValidChunk(m, s.chunkPos)
    ensures r.chunkPos == s.chunkPos && r.newlyEmptiedLocalNodes == []
    ensures forall x :: x in r.edgeNodes <==>
              (x in s.edgeNodes || x in s.newlyEmptiedLocalNodes) && ShouldBeEdge(m, s.chunkPos, x)
    ensures forall p :: p in r.allEdgePaths ==> |p| >= 2
    ensures walks <= 3001 && walks <= |r.edgeNodes|
  {
    var c := s.chunkPos;
    var edgeNodes := DropNonEdges(m, c, s.edgeNodes);
    edgeNodes := edgeNodes + KeepEdges(m, c, s.newlyEmptiedLocalNodes);
    KeepEdgesMembers(m, c, s.edgeNodes);
    KeepEdgesMembers(m, c, s.newlyEmptiedLocalNodes);
    var allEdgePaths;
    allEdgePaths, walks := CollectEdgePaths(m, c, edgeNodes);
    r := ChunkState(c, edgeNodes, [], allEdgePaths);
  }
}
