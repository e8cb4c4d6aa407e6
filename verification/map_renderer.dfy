/** The marching-squares mesher of MapRenderer.cs over an abstract node grid
    (`filled` = the grid cell is true). A map of `w` x `h` nodes has
    `(w - 1) x (h - 1)` grid squares, and a half-step vertex lattice of
    `(2w - 1) x (2h - 1)` points addressed by row-major flat indices. Each
    square's 4-bit corner configuration selects triangles over the eight
    lattice points of the square: its corners and its edge midpoints. */
module MapRenderer {
  import opened NodeGrid

  // ---------------------------------------------------------------- lattice

  /** Flatten2DIndex: row-major index of `(x, y)` in rows of `width`. */
  function Flatten2DIndex(x: int, y: int, width: int): int {
    y * width + x
  }

  /** The lattice point of a flat index, for a positive row width. */
  function Unflatten(i: int, width: int): Pos
    requires width > 0
  {
    Pos(i % width, i / width)
  }

  lemma MulLeq(a: int, b: int, w: int)
    requires a <= b && w >= 0
    ensures a * w <= b * w
  {
    assert b * w - a * w == (b - a) * w;
  }

  /** Within a row of `width` points, different points get different indices. */
  lemma FlattenInjective(x1: int, y1: int, x2: int, y2: int, width: int)
    requires 0 <= x1 < width && 0 <= x2 < width
    ensures Flatten2DIndex(x1, y1, width) == Flatten2DIndex(x2, y2, width) <==> x1 == x2 && y1 == y2
  {
    if y1 < y2 {
      MulLeq(y1 + 1, y2, width);
    } else if y2 < y1 {
      MulLeq(y2 + 1, y1, width);
    }
  }

  /** A point of a `width` x `height` lattice has an index in `[0, width * height)`. */
  lemma FlattenInRange(x: int, y: int, width: int, height: int)
    requires 0 <= x < width && 0 <= y < height
    ensures 0 <= Flatten2DIndex(x, y, width) < width * height
  {
    MulLeq(0, y, width);
    MulLeq(y, height - 1, width);
  }

  /** Unflatten undoes Flatten2DIndex on a row, and Flatten2DIndex undoes
      Unflatten on every non-negative index. */
  lemma {:induction false} FlattenRoundTrip(x: int, y: int, i: int, width: int)
    requires width > 0
    ensures 0 <= x < width ==> Unflatten(Flatten2DIndex(x, y, width), width) == Pos(x, y)
    ensures Flatten2DIndex(Unflatten(i, width).x, Unflatten(i, width).y, width) == i
  {
    var j := Flatten2DIndex(x, y, width);
    if 0 <= x < width {
      var u := Unflatten(j, width);
      assert j == (j / width) * width + j % width;
      FlattenInjective(u.x, u.y, x, y, width);
    }
    assert i == (i / width) * width + i % width;
  }

  /** The eight lattice points of a grid square. */
  datatype LatticePoint = TopLeft | Top | TopRight | Right | BottomRight | Bottom | BottomLeft | Left {
    /** The point's lattice offset from the square's top-left lattice point. */
    function Offset(): Pos {
      match this
      case TopLeft => Pos(0, 0)
      case Top => Pos(1, 0)
      case TopRight => Pos(2, 0)
      case Right => Pos(2, 1)
      case BottomRight => Pos(2, 2)
      case Bottom => Pos(1, 2)
      case BottomLeft => Pos(0, 2)
      case Left => Pos(0, 1)
    }

    predicate IsCorner() {
      TopLeft? || TopRight? || BottomRight? || BottomLeft?
    }
  }

  function GetTopLeftIndex(x: int, y: int, allVertsWidth: int): int {
    Flatten2DIndex(x * 2, y * 2, allVertsWidth)
  }
  function GetTopIndex(x: int, y: int, allVertsWidth: int): int {
    Flatten2DIndex(x * 2 + 1, y * 2, allVertsWidth)
  }
  function GetTopRightIndex(x: int, y: int, allVertsWidth: int): int {
    Flatten2DIndex(x * 2 + 2, y * 2, allVertsWidth)
  }
  function GetRightIndex(x: int, y: int, allVertsWidth: int): int {
    Flatten2DIndex(x * 2 + 2, y * 2 + 1, allVertsWidth)
  }
  function GetBottomRightIndex(x: int, y: int, allVertsWidth: int): int {
    Flatten2DIndex(x * 2 + 2, y * 2 + 2, allVertsWidth)
  }
  function GetBottomIndex(x: int, y: int, allVertsWidth: int): int {
    Flatten2DIndex(x * 2 + 1, y * 2 + 2, allVertsWidth)
  }
  function GetBottomLeftIndex(x: int, y: int, allVertsWidth: int): int {
    Flatten2DIndex(x * 2, y * 2 + 2, allVertsWidth)
  }
  function GetLeftIndex(x: int, y: int, allVertsWidth: int): int {
    Flatten2DIndex(x * 2, y * 2 + 1, allVertsWidth)
  }

  /** The Get*Index helper for lattice point `p` of square `(x, y)`. */
  function GetIndex(x: int, y: int, p: LatticePoint, allVertsWidth: int): int {
    match p
    case TopLeft => GetTopLeftIndex(x, y, allVertsWidth)
    case Top => GetTopIndex(x, y, allVertsWidth)
    case TopRight => GetTopRightIndex(x, y, allVertsWidth)
    case Right => GetRightIndex(x, y, allVertsWidth)
    case BottomRight => GetBottomRightIndex(x, y, allVertsWidth)
    case Bottom => GetBottomIndex(x, y, allVertsWidth)
    case BottomLeft => GetBottomLeftIndex(x, y, allVertsWidth)
    case Left => GetLeftIndex(x, y, allVertsWidth)
  }

  /** Every helper addresses lattice column `2x + dx` and row `2y + dy` with
      `dx, dy` in 0..2: corners at even offsets, edge midpoints with exactly
      one odd offset. */
  lemma HelperOffsets(x: int, y: int, p: LatticePoint, allVertsWidth: int)
    ensures 0 <= p.Offset().x <= 2 && 0 <= p.Offset().y <= 2
    ensures GetIndex(x, y, p, allVertsWidth)
            == Flatten2DIndex(2 * x + p.Offset().x, 2 * y + p.Offset().y, allVertsWidth)
    ensures p.IsCorner() <==> p.Offset().x % 2 == 0 && p.Offset().y % 2 == 0
    ensures !p.IsCorner() <==> (p.Offset().x % 2 == 1) != (p.Offset().y % 2 == 1)
  {
  }

  /** Inside a lattice at least three points wide, the eight helpers give
      eight distinct indices for one square. */
  lemma HelpersDistinct(x: int, y: int, p: LatticePoint, q: LatticePoint, allVertsWidth: int)
    requires 0 <= x && 2 * x + 2 < allVertsWidth
    ensures GetIndex(x, y, p, allVertsWidth) == GetIndex(x, y, q, allVertsWidth) <==> p == q
  {
    HelperOffsets(x, y, p, allVertsWidth);
    HelperOffsets(x, y, q, allVertsWidth);
    FlattenInjective(2 * x + p.Offset().x, 2 * y + p.Offset().y, 2 * x + q.Offset().x, 2 * y + q.Offset().y,
                     allVertsWidth);
  }

  /** The sizes InitializeMarchingSquares derives from a `mapWidth` x `mapHeight` map. */
  datatype Lattice = Lattice(allVertsWidth: int, allVertsHeight: int, gridSquaresWidth: int, gridSquaresHeight: int)

  function LatticeFor(mapWidth: int, mapHeight: int): (l: Lattice)
    ensures l.allVertsWidth == 2 * l.gridSquaresWidth + 1 && l.allVertsHeight == 2 * l.gridSquaresHeight + 1
    ensures l.gridSquaresWidth == mapWidth - 1 && l.gridSquaresHeight == mapHeight - 1
  {
    Lattice(2 * mapWidth - 1, 2 * mapHeight - 1, mapWidth - 1, mapHeight - 1)
  }

  /** Every helper index of every grid square lies in the vertex array. */
  lemma HelperIndexInRange(l: Lattice, x: int, y: int, p: LatticePoint)
    requires l.allVertsWidth == 2 * l.gridSquaresWidth + 1 && l.allVertsHeight == 2 * l.gridSquaresHeight + 1
    requires 0 <= x < l.gridSquaresWidth && 0 <= y < l.gridSquaresHeight
    ensures 0 <= GetIndex(x, y, p, l.allVertsWidth) < l.allVertsWidth * l.allVertsHeight
  {
    HelperOffsets(x, y, p, l.allVertsWidth);
    FlattenInRange(2 * x + p.Offset().x, 2 * y + p.Offset().y, l.allVertsWidth, l.allVertsHeight);
  }

  // ---------------------------------------------------------------- configuration

  /** Bit `bit` (a power of two) of `config` is set. */
  predicate HasBit(config: int, bit: int)
    requires bit > 0
  {
    (config / bit) % 2 == 1
  }

  /** A square's configuration: bit 8 top-left `(x, y)`, 4 top-right
      `(x + 1, y)`, 2 bottom-right `(x + 1, y + 1)`, 1 bottom-left `(x, y + 1)`. */
  function Config(g: Grid, x: int, y: int): (config: int)
    requires g.Valid() && 0 <= x && x + 1 < g.width && 0 <= y && y + 1 < g.height
    ensures 0 <= config <= 15
    ensures HasBit(config, 8) <==> g.At(Pos(x, y))
    ensures HasBit(config, 4) <==> g.At(Pos(x + 1, y))
    ensures HasBit(config, 2) <==> g.At(Pos(x + 1, y + 1))
    ensures HasBit(config, 1) <==> g.At(Pos(x, y + 1))
  {
    (if g.At(Pos(x, y)) then 8 else 0)
    + (if g.At(Pos(x + 1, y)) then 4 else 0)
    + (if g.At(Pos(x + 1, y + 1)) then 2 else 0)
    + (if g.At(Pos(x, y + 1)) then 1 else 0)
  }

  /** The configuration bit of a corner. */
  function CornerBit(p: LatticePoint): int
    requires p.IsCorner()
  {
    match p
    case TopLeft => 8
    case TopRight => 4
    case BottomRight => 2
    case BottomLeft => 1
  }

  /** The two corners at the ends of the edge whose midpoint is `p`. */
  function EdgeEnds(p: LatticePoint): (ends: (LatticePoint, LatticePoint))
    requires !p.IsCorner()
    ensures ends.0.IsCorner() && ends.1.IsCorner()
  {
    match p
    case Top => (TopLeft, TopRight)
    case Right => (TopRight, BottomRight)
    case Bottom => (BottomRight, BottomLeft)
    case Left => (BottomLeft, TopLeft)
  }

  /** The marching-squares rule: a corner is a vertex of the filled region
      iff it is filled, and an edge midpoint iff the edge's ends differ. */
  predicate OnFilledRegion(config: int, p: LatticePoint) {
    if p.IsCorner() then HasBit(config, CornerBit(p))
    else HasBit(config, CornerBit(EdgeEnds(p).0)) != HasBit(config, CornerBit(EdgeEnds(p).1))
  }

  /** The number of filled corners of a configuration. */
  function FilledCorners(config: int): int {
    (if HasBit(config, 8) then 1 else 0) + (if HasBit(config, 4) then 1 else 0)
    + (if HasBit(config, 2) then 1 else 0) + (if HasBit(config, 1) then 1 else 0)
  }

  /** Triangles per configuration: one per lone corner, two for a filled side
      or a full square, three for three corners, four for a saddle (two
      opposite corners, drawn as one connected band). */
  function TriangleCount(config: int): int {
    var n := FilledCorners(config);
    if n == 0 then 0
    else if n == 1 then 1
    else if n == 2 then (if HasBit(config, 8) == HasBit(config, 2) then 4 else 2)
    else if n == 3 then 3
    else 2
  }

  // ---------------------------------------------------------------- triangles

  /** The lattice points of CalculateTrianglesForConfig's triangles, three per
      triangle, case by case as the switch lists them; any other value
      falls through to no triangles. */
  function TriangleTable(config: int): (t: seq<LatticePoint>)
    ensures |t| % 3 == 0
  {
    match config
    case 0 => []
    case 1 => [BottomLeft, Left, Bottom]
    case 2 => [BottomRight, Bottom, Right]
    case 4 => [TopRight, Right, Top]
    case 8 => [TopLeft, Top, Left]
    case 3 => [BottomLeft, Left, Right, BottomRight, BottomLeft, Right]
    case 6 => [BottomRight, Bottom, Top, TopRight, BottomRight, Top]
    case 9 => [BottomLeft, TopLeft, Bottom, TopLeft, Top, Bottom]
    case 12 => [TopLeft, Right, Left, TopRight, Right, TopLeft]
    case 5 => [Top, TopRight, Right, Top, Right, Bottom, Top, Bottom, BottomLeft, Top, BottomLeft, Left]
    case 10 => [TopLeft, Top, Right, TopLeft, Right, BottomRight, TopLeft, BottomRight, Bottom, TopLeft, Bottom, Left]
    case 7 => [Top, TopRight, BottomRight, Top, BottomRight, BottomLeft, Top, BottomLeft, Left]
    case 11 => [TopLeft, Top, Right, TopLeft, Right, BottomRight, TopLeft, BottomRight, BottomLeft]
    case 13 => [TopLeft, TopRight, Right, TopLeft, Right, Bottom, TopLeft, Bottom, BottomLeft]
    case 14 => [TopLeft, TopRight, BottomRight, TopLeft, BottomRight, Bottom, TopLeft, Bottom, Left]
    case 15 => [TopLeft, TopRight, BottomRight, TopLeft, BottomRight, BottomLeft]
    case _ => []
  }

  /** CalculateTrianglesForConfig: the table's lattice points as vertex indices of square `(x, y)`. */
  function CalculateTrianglesForConfig(x: int, y: int, config: int, allVertsWidth: int): (tris: seq<int>)
    ensures |tris| == |TriangleTable(config)| && |tris| % 3 == 0
    ensures forall i :: 0 <= i < |tris| ==> tris[i] == GetIndex(x, y, TriangleTable(config)[i], allVertsWidth)
  {
    var t := TriangleTable(config);
    seq(|t|, i requires 0 <= i < |t| => GetIndex(x, y, t[i], allVertsWidth))
  }

  /** The table against the marching-squares rule, two configurations at a
      time. TableRule0To1 through TableRule14To15 are one proof cut into eight
      pieces only to keep each piece small for the verifier; TableRuleAt puts
      them back together and is the statement to read. Each piece names the
      four corner bits of its configurations so that OnFilledRegion unfolds to
      literals. */
  lemma TableRule0To1(config: int, p: LatticePoint)
    requires 0 <= config <= 1
    ensures p in TriangleTable(config) <==> OnFilledRegion(config, p)
    ensures |TriangleTable(config)| == 3 * TriangleCount(config)
  {
    if config == 0 {
      assert !HasBit(0, 8) && !HasBit(0, 4) && !HasBit(0, 2) && !HasBit(0, 1);
    } else {
      assert !HasBit(1, 8) && !HasBit(1, 4) && !HasBit(1, 2) && HasBit(1, 1);
    }
  }

  lemma TableRule2To3(config: int, p: LatticePoint)
    requires 2 <= config <= 3
    ensures p in TriangleTable(config) <==> OnFilledRegion(config, p)
    ensures |TriangleTable(config)| == 3 * TriangleCount(config)
  {
    if config == 2 {
      assert !HasBit(2, 8) && !HasBit(2, 4) && HasBit(2, 2) && !HasBit(2, 1);
    } else {
      assert !HasBit(3, 8) && !HasBit(3, 4) && HasBit(3, 2) && HasBit(3, 1);
    }
  }

  lemma TableRule4To5(config: int, p: LatticePoint)
    requires 4 <= config <= 5
    ensures p in TriangleTable(config) <==> OnFilledRegion(config, p)
    ensures |TriangleTable(config)| == 3 * TriangleCount(config)
  {
    if config == 4 {
      assert !HasBit(4, 8) && HasBit(4, 4) && !HasBit(4, 2) && !HasBit(4, 1);
    } else {
      assert !HasBit(5, 8) && HasBit(5, 4) && !HasBit(5, 2) && HasBit(5, 1);
    }
  }

  lemma TableRule6To7(config: int, p: LatticePoint)
    requires 6 <= config <= 7
    ensures p in TriangleTable(config) <==> OnFilledRegion(config, p)
    ensures |TriangleTable(config)| == 3 * TriangleCount(config)
  {
    if config == 6 {
      assert !HasBit(6, 8) && HasBit(6, 4) && HasBit(6, 2) && !HasBit(6, 1);
    } else {
      assert !HasBit(7, 8) && HasBit(7, 4) && HasBit(7, 2) && HasBit(7, 1);
    }
  }

  lemma TableRule8To9(config: int, p: LatticePoint)
    requires 8 <= config <= 9
    ensures p in TriangleTable(config) <==> OnFilledRegion(config, p)
    ensures |TriangleTable(config)| == 3 * TriangleCount(config)
  {
    if config == 8 {
      assert HasBit(8, 8) && !HasBit(8, 4) && !HasBit(8, 2) && !HasBit(8, 1);
    } else {
      assert HasBit(9, 8) && !HasBit(9, 4) && !HasBit(9, 2) && HasBit(9, 1);
    }
  }

  lemma TableRule10To11(config: int, p: LatticePoint)
    requires 10 <= config <= 11
    ensures p in TriangleTable(config) <==> OnFilledRegion(config, p)
    ensures |TriangleTable(config)| == 3 * TriangleCount(config)
  {
    if config == 10 {
      assert HasBit(10, 8) && !HasBit(10, 4) && HasBit(10, 2) && !HasBit(10, 1);
    } else {
      assert HasBit(11, 8) && !HasBit(11, 4) && HasBit(11, 2) && HasBit(11, 1);
    }
  }

  lemma TableRule12To13(config: int, p: LatticePoint)
    requires 12 <= config <= 13
    ensures p in TriangleTable(config) <==> OnFilledRegion(config, p)
    ensures |TriangleTable(config)| == 3 * TriangleCount(config)
  {
    if config == 12 {
      assert HasBit(12, 8) && HasBit(12, 4) && !HasBit(12, 2) && !HasBit(12, 1);
    } else {
      assert HasBit(13, 8) && HasBit(13, 4) && !HasBit(13, 2) && HasBit(13, 1);
    }
  }

  lemma TableRule14To15(config: int, p: LatticePoint)
    requires 14 <= config <= 15
    ensures p in TriangleTable(config) <==> OnFilledRegion(config, p)
    ensures |TriangleTable(config)| == 3 * TriangleCount(config)
  {
    if config == 14 {
      assert HasBit(14, 8) && HasBit(14, 4) && HasBit(14, 2) && !HasBit(14, 1);
    } else {
      assert HasBit(15, 8) && HasBit(15, 4) && HasBit(15, 2) && HasBit(15, 1);
    }
  }

  /** One point of one configuration against the marching-squares rule. */
  lemma TableRuleAt(config: int, p: LatticePoint)
    requires 0 <= config <= 15
    ensures p in TriangleTable(config) <==> OnFilledRegion(config, p)
    ensures |TriangleTable(config)| == 3 * TriangleCount(config)
  {
    if config < 2 {
      TableRule0To1(config, p);
    } else if config < 4 {
      TableRule2To3(config, p);
    } else if config < 6 {
      TableRule4To5(config, p);
    } else if config < 8 {
      TableRule6To7(config, p);
    } else if config < 10 {
      TableRule8To9(config, p);
    } else if config < 12 {
      TableRule10To11(config, p);
    } else if config < 14 {
      TableRule12To13(config, p);
    } else {
      TableRule14To15(config, p);
    }
  }

  /** The table lists exactly the points of the filled region, and for every
      configuration the index count is three per triangle of TriangleCount. */
  lemma TriangleTableMatchesRule(config: int)
    requires 0 <= config <= 15
    ensures forall p :: p in TriangleTable(config) <==> OnFilledRegion(config, p)
    ensures |TriangleTable(config)| == 3 * TriangleCount(config)
  {
    forall p
      ensures p in TriangleTable(config) <==> OnFilledRegion(config, p)
    {
      TableRuleAt(config, p);
    }
    TableRuleAt(config, TopLeft);
  }

  /** Twice the signed area of the triangle `a b c` (y grows downwards). */
  function Cross(a: Pos, b: Pos, c: Pos): int {
    (b.x - a.x) * (c.y - a.y) - (b.y - a.y) * (c.x - a.x)
  }

  /** Every triangle of the table is non-degenerate and all wind the same way. */
  lemma TriangleTableWinding(config: int, k: int)
    requires 0 <= k && 3 * k + 2 < |TriangleTable(config)|
    ensures var t := TriangleTable(config);
            Cross(t[3 * k].Offset(), t[3 * k + 1].Offset(), t[3 * k + 2].Offset()) > 0
  {
    assert 0 <= config <= 15;
    assert k == 0 || k == 1 || k == 2 || k == 3;
    if config == 0 {} else if config == 1 {} else if config == 2 {} else if config == 3 {} else if config == 4 {} else if config == 5 {} else if config == 6 {} else if config == 7 {} else if config == 8 {} else if config == 9 {} else if config == 10 {} else if config == 11 {} else if config == 12 {} else if config == 13 {} else if config == 14 {} else { assert config == 15; }
  }

  /** Every index CalculateTrianglesForConfig returns for a grid square lies
      in the vertex array. */
  lemma TrianglesInRange(l: Lattice, x: int, y: int, config: int)
    requires l.allVertsWidth == 2 * l.gridSquaresWidth + 1 && l.allVertsHeight == 2 * l.gridSquaresHeight + 1
    requires 0 <= x < l.gridSquaresWidth && 0 <= y < l.gridSquaresHeight
    ensures forall i :: 0 <= i < |CalculateTrianglesForConfig(x, y, config, l.allVertsWidth)| ==>
              0 <= CalculateTrianglesForConfig(x, y, config, l.allVertsWidth)[i] < l.allVertsWidth * l.allVertsHeight
  {
    var t := TriangleTable(config);
    forall i | 0 <= i < |t|
      ensures 0 <= GetIndex(x, y, t[i], l.allVertsWidth) < l.allVertsWidth * l.allVertsHeight
    {
      HelperIndexInRange(l, x, y, t[i]);
    }
  }

  // ---------------------------------------------------------------- grid squares

  /** A grid square's cached configuration and triangle indices. */
  datatype GridSquare = GridSquare(config: int, tris: seq<int>)

  /** `squares[x][y]` for a `width` x `height` array of grid squares. */
  predicate SquaresShape(squares: seq<seq<GridSquare>>, width: int, height: int) {
    |squares| == width && forall x :: 0 <= x < |squares| ==> |squares[x]| == height
  }

  /** The cached triangles of square `(x, y)` are those of its cached configuration. */
  predicate SquareCurrent(s: GridSquare, x: int, y: int, allVertsWidth: int) {
    s.tris == CalculateTrianglesForConfig(x, y, s.config, allVertsWidth)
  }

  /** Square `(a, b)` has been visited by the row-major sweep of columns
      `[sx, ex)` from row `sy` that is at column `x` of row `y`. */
  predicate Done(a: int, b: int, sx: int, ex: int, sy: int, y: int, x: int) {
    sx <= a < ex && (sy <= b < y || (b == y && a < x))
  }

  /** Square `(a, b)` of `r` is the square recomputed from the grid once the
      sweep has visited it, and the original one before. */
  ghost predicate Updated(g: Grid, l: Lattice, squares: seq<seq<GridSquare>>, r: seq<seq<GridSquare>>,
                          a: int, b: int, sx: int, ex: int, sy: int, y: int, x: int)
    requires g.Valid() && l == LatticeFor(g.width, g.height)
    requires SquaresShape(squares, l.gridSquaresWidth, l.gridSquaresHeight)
    requires SquaresShape(r, l.gridSquaresWidth, l.gridSquaresHeight)
    requires 0 <= a < l.gridSquaresWidth && 0 <= b < l.gridSquaresHeight
  {
    if !Done(a, b, sx, ex, sy, y, x) then r[a][b] == squares[a][b]
    else if squares[a][b].config == Config(g, a, b) then r[a][b] == squares[a][b]
    else r[a][b] == GridSquare(Config(g, a, b), CalculateTrianglesForConfig(a, b, Config(g, a, b), l.allVertsWidth))
  }

  /** UpdateGridSquares: clamps the range into the grid of squares, then for
      every square in `[startX, endX) x [startY, endY)` recomputes the
      configuration and, only when it changed, the triangles. */
  method UpdateGridSquares(g: Grid, l: Lattice, squares: seq<seq<GridSquare>>,
                           startX: int, endX: int, startY: int, endY: int)
    returns (r: seq<seq<GridSquare>>)
    requires g.Valid() && l == LatticeFor(g.width, g.height) && g.width >= 1 && g.height >= 1
    requires SquaresShape(squares, l.gridSquaresWidth, l.gridSquaresHeight)
    ensures SquaresShape(r, l.gridSquaresWidth, l.gridSquaresHeight)
    ensures forall x, y :: 0 <= x < l.gridSquaresWidth && 0 <= y < l.gridSquaresHeight ==>
              var inRange := Clamp(startX, 0, l.gridSquaresWidth) <= x < Clamp(endX, 0, l.gridSquaresWidth)
                             && Clamp(startY, 0, l.gridSquaresHeight) <= y < Clamp(endY, 0, l.gridSquaresHeight);
              && (!inRange ==> r[x][y] == squares[x][y])
              && (inRange ==> r[x][y].config == Config(g, x, y))
              && (inRange && squares[x][y].config == Config(g, x, y) ==> r[x][y] == squares[x][y])
              && (inRange && squares[x][y].config != Config(g, x, y) ==>
                    SquareCurrent(r[x][y], x, y, l.allVertsWidth))
    ensures forall x, y :: 0 <= x < l.gridSquaresWidth && 0 <= y < l.gridSquaresHeight ==>
              SquareCurrent(squares[x][y], x, y, l.allVertsWidth) ==> SquareCurrent(r[x][y], x, y, l.allVertsWidth)
  {
    var sx := Clamp(startX, 0, l.gridSquaresWidth);
    var ex := Clamp(endX, 0, l.gridSquaresWidth);
    var sy := Clamp(startY, 0, l.gridSquaresHeight);
    var ey := Clamp(endY, 0, l.gridSquaresHeight);
    r := squares;
    var y := sy;
    while y < ey
      invariant y == sy || sy <= y <= ey
      invariant SquaresShape(r, l.gridSquaresWidth, l.gridSquaresHeight)
      invariant forall a, b :: 0 <= a < l.gridSquaresWidth && 0 <= b < l.gridSquaresHeight ==>
                  Updated(g, l, squares, r, a, b, sx, ex, sy, y, sx)
    {
      r := UpdateRow(g, l, squares, r, sx, ex, sy, y);
      var next := y + 1;
      forall a, b | 0 <= a < l.gridSquaresWidth && 0 <= b < l.gridSquaresHeight
        ensures Updated(g, l, squares, r, a, b, sx, ex, sy, next, sx)
      {
        assert Updated(g, l, squares, r, a, b, sx, ex, sy, y, ex);
      }
      y := next;
    }
    forall a, b | 0 <= a < l.gridSquaresWidth && 0 <= b < l.gridSquaresHeight
      ensures var inRange := sx <= a < ex && sy <= b < ey;
              && (!inRange ==> r[a][b] == squares[a][b])
              && (inRange ==> r[a][b].config == Config(g, a, b))
              && (inRange && squares[a][b].config == Config(g, a, b) ==> r[a][b] == squares[a][b])
              && (inRange && squares[a][b].config != Config(g, a, b) ==> SquareCurrent(r[a][b], a, b, l.allVertsWidth))
              && (SquareCurrent(squares[a][b], a, b, l.allVertsWidth) ==> SquareCurrent(r[a][b], a, b, l.allVertsWidth))
    {
      assert Updated(g, l, squares, r, a, b, sx, ex, sy, y, sx);
      assert Done(a, b, sx, ex, sy, y, sx) <==> sx <= a < ex && sy <= b < ey;
    }
  }

  /** The inner loop of UpdateGridSquares: row `y`, columns `[sx, ex)`. */
  method UpdateRow(g: Grid, l: Lattice, squares: seq<seq<GridSquare>>, r0: seq<seq<GridSquare>>,
                   sx: int, ex: int, sy: int, y: int)
    returns (r: seq<seq<GridSquare>>)
    requires g.Valid() && l == LatticeFor(g.width, g.height) && g.width >= 1 && g.height >= 1
    requires SquaresShape(squares, l.gridSquaresWidth, l.gridSquaresHeight)
    requires SquaresShape(r0, l.gridSquaresWidth, l.gridSquaresHeight)
    requires 0 <= sx && ex <= l.gridSquaresWidth && 0 <= sy <= y < l.gridSquaresHeight
    requires forall a, b :: 0 <= a < l.gridSquaresWidth && 0 <= b < l.gridSquaresHeight ==>
               Updated(g, l, squares, r0, a, b, sx, ex, sy, y, sx)
    ensures SquaresShape(r, l.gridSquaresWidth, l.gridSquaresHeight)
    ensures forall a, b :: 0 <= a < l.gridSquaresWidth && 0 <= b < l.gridSquaresHeight ==>
              Updated(g, l, squares, r, a, b, sx, ex, sy, y, ex)
  {
    r := r0;
    var x := sx;
    while x < ex
      invariant x == sx || sx <= x <= ex
      invariant SquaresShape(r, l.gridSquaresWidth, l.gridSquaresHeight)
      invariant forall a, b :: 0 <= a < l.gridSquaresWidth && 0 <= b < l.gridSquaresHeight ==>
                  Updated(g, l, squares, r, a, b, sx, ex, sy, y, x)
    {
      var config := Config(g, x, y);
      assert Updated(g, l, squares, r, x, y, sx, ex, sy, y, x);
      var r1 := r;
      var next := x + 1;
      if r[x][y].config != config {
        r1 := r[x := r[x][y := GridSquare(config, CalculateTrianglesForConfig(x, y, config, l.allVertsWidth))]];
      }
      forall a, b | 0 <= a < l.gridSquaresWidth && 0 <= b < l.gridSquaresHeight
        ensures Updated(g, l, squares, r1, a, b, sx, ex, sy, y, next)
      {
        assert Updated(g, l, squares, r, a, b, sx, ex, sy, y, x);
      }
      r := r1;
      x := next;
    }
    forall a, b | 0 <= a < l.gridSquaresWidth && 0 <= b < l.gridSquaresHeight
      ensures Updated(g, l, squares, r, a, b, sx, ex, sy, y, ex)
    {
      assert Updated(g, l, squares, r, a, b, sx, ex, sy, y, x);
    }
  }

  /** InitializeMarchingSquares: every square starts with the impossible
      configuration 0b11111111 and no triangles, so the full update that
      follows computes every square: afterwards each square holds its
      configuration and that configuration's triangles. */
  method InitializeMarchingSquares(g: Grid) returns (l: Lattice, squares: seq<seq<GridSquare>>)
    requires g.Valid() && g.width >= 1 && g.height >= 1
    ensures l == LatticeFor(g.width, g.height)
    ensures SquaresShape(squares, l.gridSquaresWidth, l.gridSquaresHeight)
    ensures forall x, y :: 0 <= x < l.gridSquaresWidth && 0 <= y < l.gridSquaresHeight ==>
              squares[x][y].config == Config(g, x, y) && SquareCurrent(squares[x][y], x, y, l.allVertsWidth)
  {
    l := LatticeFor(g.width, g.height);
    var initial := seq(l.gridSquaresWidth, _ => seq(l.gridSquaresHeight, _ => GridSquare(0xFF, [])));
    squares := UpdateGridSquares(g, l, initial, 0, l.gridSquaresWidth, 0, l.gridSquaresHeight);
  }
}
