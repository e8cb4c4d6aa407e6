/** Integer node positions and the rectangular boolean grid that holds the map's
    nodes (true = filled, false = empty) and the masks of alterations. */
module NodeGrid {

  /** A node position, or an offset between node positions (Unity's Vector2Int). */
  datatype Pos = Pos(x: int, y: int) {
    function Plus(o: Pos): Pos { Pos(x + o.x, y + o.y) }
    function Minus(o: Pos): Pos { Pos(x - o.x, y - o.y) }
    function Scale(k: int): Pos { Pos(k * x, k * y) }
  }

  function Abs(a: int): nat { if a < 0 then -a else a }

  /** Distance between two integers on a line. */
  function Dist(a: int, b: int): nat { Abs(a - b) }

  /** `p` and `q` are 4-neighbours: one unit step apart along one axis. */
  predicate Adjacent(p: Pos, q: Pos)
    ensures Adjacent(p, q) <==>
      q == Pos(p.x, p.y - 1) || q == Pos(p.x + 1, p.y) || q == Pos(p.x, p.y + 1) || q == Pos(p.x - 1, p.y)
  {
    Abs(p.x - q.x) + Abs(p.y - q.y) == 1
  }

  /** A C# `bool[,]`: `cells[x][y]`, with `width` = GetLength(0) and `height` = GetLength(1). */
  datatype Grid = Grid(width: nat, height: nat, cells: seq<seq<bool>>) {

    predicate Valid() {
      |cells| == width && forall i :: 0 <= i < width ==> |cells[i]| == height
    }

    predicate InBounds(p: Pos) {
      0 <= p.x < width && 0 <= p.y < height
    }

    function At(p: Pos): bool
      requires Valid() && InBounds(p)
    {
      cells[p.x][p.y]
    }

    /** The grid with the single cell `p` overwritten. */
    function Set(p: Pos, b: bool): (g: Grid)
      requires Valid() && InBounds(p)
      ensures g.Valid() && g.width == width && g.height == height
      ensures g.At(p) == b
      ensures forall q :: g.InBounds(q) && q != p ==> g.At(q) == At(q)
    {
      Grid(width, height, cells[p.x := cells[p.x][p.y := b]])
    }
  }

  /** Two well-formed grids of the same size that agree on every cell are equal. */
  lemma GridExtensionality(a: Grid, b: Grid)
    requires a.Valid() && b.Valid() && a.width == b.width && a.height == b.height
    requires forall p :: a.InBounds(p) ==> a.At(p) == b.At(p)
    ensures a == b
  {
    forall i | 0 <= i < a.width
      ensures a.cells[i] == b.cells[i]
    {
      forall j | 0 <= j < a.height
        ensures a.cells[i][j] == b.cells[i][j]
      {
        assert a.At(Pos(i, j)) == b.At(Pos(i, j));
      }
    }
  }

  /** Unity's Mathf.Clamp on integers: `value` pushed into `[min, max]`. */
  function Clamp(value: int, min: int, max: int): (r: int)
    requires min <= max
    ensures min <= r <= max
    ensures forall t :: min <= t <= max ==> Dist(r, value) <= Dist(t, value)
    ensures min <= value <= max ==> r == value
  {
    if value < min then min else if value > max then max else value
  }
}
