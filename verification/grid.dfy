/**
 * The grid buffer: width * height tiles, cell (x, y) stored at index
 * x + y * width, each tile WALL_TILE or PATH_TILE.
 */
module Grid {
  import opened Geometry

  type byte = b: int | 0 <= b < 256

  /** WALL_TILE, the character '1'. */
  const WALL: byte := 49
  /** PATH_TILE, the character '0'. */
  const PATH: byte := 48

  /** `g` is a buffer of size.x * size.y tiles. */
  predicate Shaped(g: seq<byte>, size: Vec2) {
    size.x >= 0 && size.y >= 0 && |g| == size.x * size.y
  }

  /** The rectangle covering the whole grid (grid_rect in the source). */
  function GridRect(size: Vec2): Rect {
    Rect(0, 0, size.x, size.y)
  }

  predicate InGrid(size: Vec2, x: int, y: int) {
    Contains(GridRect(size), Vec2(x, y))
  }

  /** A rectangle of at least one cell that lies inside the grid. */
  predicate Fits(r: Rect, size: Vec2) {
    r.w >= 1 && r.h >= 1 && 0 <= r.x && r.x + r.w <= size.x && 0 <= r.y && r.y + r.h <= size.y
  }

  lemma MulMonotone(a: int, b: int, c: int)
    requires a <= b && c >= 0
    ensures a * c <= b * c
  {
    assert b * c - a * c == (b - a) * c;
  }

  /** The index of an in-grid cell lies inside the buffer. */
  lemma IndexInBuffer(size: Vec2, x: int, y: int)
    requires size.x >= 0 && size.y >= 0 && InGrid(size, x, y)
    ensures 0 <= x + y * size.x < size.x * size.y
  {
    MulMonotone(0, y, size.x);
    MulMonotone(y, size.y - 1, size.x);
    assert (size.y - 1) * size.x == size.x * size.y - size.x;
  }

  /** Distinct in-grid cells have distinct indices. */
  lemma IndexInjective(size: Vec2, x1: int, y1: int, x2: int, y2: int)
    requires size.x >= 0 && size.y >= 0 && InGrid(size, x1, y1) && InGrid(size, x2, y2)
    ensures x1 + y1 * size.x == x2 + y2 * size.x ==> x1 == x2 && y1 == y2
  {
    if y1 < y2 {
      MulMonotone(y1 + 1, y2, size.x);
      assert (y1 + 1) * size.x == y1 * size.x + size.x;
    } else if y2 < y1 {
      MulMonotone(y2 + 1, y1, size.x);
      assert (y2 + 1) * size.x == y2 * size.x + size.x;
    }
  }

  /** Every buffer index is the index of exactly the cell (i % width, i / width). */
  lemma CellOfIndex(size: Vec2, i: int)
    requires size.x > 0 && size.y >= 0 && 0 <= i < size.x * size.y
    ensures InGrid(size, i % size.x, i / size.x) && i % size.x + (i / size.x) * size.x == i
  {
    if i / size.x >= size.y {
      MulMonotone(size.y, i / size.x, size.x);
    }
  }

  /** The tile of cell (x, y): grid[x + y * width]. */
  function At(g: seq<byte>, size: Vec2, x: int, y: int): byte
    requires Shaped(g, size) && InGrid(size, x, y)
  {
    IndexInBuffer(size, x, y);
    g[x + y * size.x]
  }

  /** An in-grid cell that is not a wall (the negation of the source's cond1/cond2). */
  predicate Open(g: seq<byte>, size: Vec2, x: int, y: int)
    requires Shaped(g, size)
  {
    InGrid(size, x, y) && At(g, size, x, y) != WALL
  }

  /** Cells outside `r` are the same in `g0` and `g1`. */
  ghost predicate SameOutside(g0: seq<byte>, g1: seq<byte>, size: Vec2, r: Rect) {
    Shaped(g0, size) && Shaped(g1, size) &&
    forall a, b | InGrid(size, a, b) && !Contains(r, Vec2(a, b)) :: At(g1, size, a, b) == At(g0, size, a, b)
  }

  /** Every cell of `g1` is as in `g0`, or a WALL or PATH tile. */
  ghost predicate OnlyTiles(g0: seq<byte>, g1: seq<byte>, size: Vec2) {
    Shaped(g0, size) && Shaped(g1, size) &&
    forall a, b | InGrid(size, a, b) ::
      At(g1, size, a, b) == At(g0, size, a, b) || At(g1, size, a, b) == WALL || At(g1, size, a, b) == PATH
  }

  /** Writes tile `v` at cell (x, y), that is grid[x + y * width] = v; no other cell changes. */
  method SetCell(grid: array<byte>, size: Vec2, x: int, y: int, v: byte)
    requires Shaped(grid[..], size) && InGrid(size, x, y)
    modifies grid
    ensures Shaped(grid[..], size)
    ensures forall a, b | InGrid(size, a, b) ::
      At(grid[..], size, a, b) == if a == x && b == y then v else At(old(grid[..]), size, a, b)
  {
    IndexInBuffer(size, x, y);
    grid[x + y * size.x] := v;
    forall a, b | InGrid(size, a, b)
      ensures At(grid[..], size, a, b) == if a == x && b == y then v else At(old(grid[..]), size, a, b)
    {
      IndexInjective(size, a, b, x, y);
      IndexInBuffer(size, a, b);
    }
  }
}
