/**
 * Wall placement (generate_walls): at most one vertical and one horizontal
 * wall strictly inside a region, never in line with an opening in the cells
 * bordering the region, drawn onto the grid.
 */
module Walls {
  import opened Geometry
  import opened Grid
  import opened Random

  /** The sentinel of an absent wall coordinate. */
  const NONE: int := -1

  /** Regions in which generate_walls returns at once: 2 x 2, or one column or row wide. */
  predicate Degenerate(r: Rect) {
    (r.w == 2 && r.h == 2) || r.w == 1 || r.h == 1
  }

  /** At most one open cell on row y between columns x0 (inclusive) and x1 (exclusive). */
  ghost predicate OneOpenInRow(g: seq<byte>, size: Vec2, y: int, x0: int, x1: int)
    requires Shaped(g, size)
  {
    forall a, b | x0 <= a < x1 && x0 <= b < x1 && Open(g, size, a, y) && Open(g, size, b, y) :: a == b
  }

  /** At most one open cell on column x between rows y0 (inclusive) and y1 (exclusive). */
  ghost predicate OneOpenInColumn(g: seq<byte>, size: Vec2, x: int, y0: int, y1: int)
    requires Shaped(g, size)
  {
    forall a, b | y0 <= a < y1 && y0 <= b < y1 && Open(g, size, x, a) && Open(g, size, x, b) :: a == b
  }

  /**
   * Each of the four lines of cells just outside region r (above, below, left,
   * right) holds at most one opening.  This is what keeps the source's two-slot
   * arrays of forbidden wall positions from overflowing.
   */
  ghost predicate Bordered(g: seq<byte>, size: Vec2, r: Rect)
    requires Shaped(g, size)
  {
    OneOpenInRow(g, size, r.y - 1, r.x, r.x + r.w) &&
    OneOpenInRow(g, size, r.y + r.h, r.x, r.x + r.w) &&
    OneOpenInColumn(g, size, r.x - 1, r.y, r.y + r.h) &&
    OneOpenInColumn(g, size, r.x + r.w, r.y, r.y + r.h)
  }

  /** A vertical wall at column c would seal an opening just above or just below the region. */
  predicate ColumnBlocked(g: seq<byte>, size: Vec2, r: Rect, c: int)
    requires Shaped(g, size)
  {
    Open(g, size, c, r.y - 1) || Open(g, size, c, r.y + r.h)
  }

  /** A horizontal wall at row c would seal an opening just left or just right of the region. */
  predicate RowBlocked(g: seq<byte>, size: Vec2, r: Rect, c: int)
    requires Shaped(g, size)
  {
    Open(g, size, r.x - 1, c) || Open(g, size, r.x + r.w, c)
  }

  /** Wall coordinates are absent or strictly inside the region. */
  predicate WallPlacement(r: Rect, wall: Vec2) {
    (wall.x == NONE || r.x + 1 <= wall.x <= r.x + r.w - 2) &&
    (wall.y == NONE || r.y + 1 <= wall.y <= r.y + r.h - 2)
  }

  /** Cell (a, b) is on the horizontal wall drawn across r. */
  predicate OnRow(r: Rect, wall: Vec2, a: int, b: int) {
    wall.y != NONE && b == wall.y && r.x <= a < r.x + r.w
  }

  /** Cell (a, b) is on the vertical wall drawn across r. */
  predicate OnColumn(r: Rect, wall: Vec2, a: int, b: int) {
    wall.x != NONE && a == wall.x && r.y <= b < r.y + r.h
  }

  predicate OnWalls(r: Rect, wall: Vec2, a: int, b: int) {
    OnRow(r, wall, a, b) || OnColumn(r, wall, a, b)
  }

  /** Walls placed by the rules stay inside their region. */
  lemma WallsInside(r: Rect, wall: Vec2, a: int, b: int)
    requires WallPlacement(r, wall)
    ensures OnWalls(r, wall, a, b) ==> Contains(r, Vec2(a, b))
  {
  }

  /** The number of interior columns in [r.x + 1, hi) where a vertical wall may stand. */
  ghost function AvailableColumns(g: seq<byte>, size: Vec2, r: Rect, hi: int): nat
    requires Shaped(g, size)
    decreases hi - r.x
  {
    if hi <= r.x + 1 then 0
    else AvailableColumns(g, size, r, hi - 1) + (if ColumnBlocked(g, size, r, hi - 1) then 0 else 1)
  }

  /** The number of interior rows in [r.y + 1, hi) where a horizontal wall may stand. */
  ghost function AvailableRows(g: seq<byte>, size: Vec2, r: Rect, hi: int): nat
    requires Shaped(g, size)
    decreases hi - r.y
  {
    if hi <= r.y + 1 then 0
    else AvailableRows(g, size, r, hi - 1) + (if RowBlocked(g, size, r, hi - 1) then 0 else 1)
  }

  /** A positive column count means some column is free, and conversely. */
  lemma {:induction false} AvailableColumnsPositive(g: seq<byte>, size: Vec2, r: Rect, hi: int)
    requires Shaped(g, size)
    ensures AvailableColumns(g, size, r, hi) > 0 <==>
            exists c :: r.x + 1 <= c < hi && !ColumnBlocked(g, size, r, c)
    decreases hi - r.x
  {
    if hi > r.x + 1 {
      AvailableColumnsPositive(g, size, r, hi - 1);
    }
  }

  /** A positive row count means some row is free, and conversely. */
  lemma {:induction false} AvailableRowsPositive(g: seq<byte>, size: Vec2, r: Rect, hi: int)
    requires Shaped(g, size)
    ensures AvailableRows(g, size, r, hi) > 0 <==>
            exists c :: r.y + 1 <= c < hi && !RowBlocked(g, size, r, c)
    decreases hi - r.y
  {
    if hi > r.y + 1 {
      AvailableRowsPositive(g, size, r, hi - 1);
    }
  }

  /** Names the first two elements of a sequence, for the solver. */
  lemma LeadingPair(f: seq<int>)
    ensures |f| >= 2 ==> f[0] in f && f[1] in f
  {
  }

  /**
   * Under Bordered, the blocked columns seen so far (increasing, all before c)
   * number at most one when another blocked column c turns up: one of the three
   * would have to share the single opening above or below with another.
   */
  lemma BlockedColumnsFew(g: seq<byte>, size: Vec2, r: Rect, f: seq<int>, c: int)
    requires Shaped(g, size) && Bordered(g, size, r)
    requires forall k :: 0 <= k < |f| ==> r.x + 1 <= f[k] < c && ColumnBlocked(g, size, r, f[k])
    requires forall k, l :: 0 <= k < l < |f| ==> f[k] < f[l]
    requires c < r.x + r.w - 1 && ColumnBlocked(g, size, r, c)
    ensures |f| <= 1
  {
    LeadingPair(f);
  }

  /** The symmetric bound for blocked rows. */
  lemma BlockedRowsFew(g: seq<byte>, size: Vec2, r: Rect, f: seq<int>, c: int)
    requires Shaped(g, size) && Bordered(g, size, r)
    requires forall k :: 0 <= k < |f| ==> r.y + 1 <= f[k] < c && RowBlocked(g, size, r, f[k])
    requires forall k, l :: 0 <= k < l < |f| ==> f[k] < f[l]
    requires c < r.y + r.h - 1 && RowBlocked(g, size, r, c)
    ensures |f| <= 1
  {
    LeadingPair(f);
  }

  /** The test of lines 101-109 at column c is the negation of ColumnBlocked. */
  lemma ColumnTest(g: seq<byte>, size: Vec2, r: Rect, c: int)
    requires Shaped(g, size)
    ensures !ColumnBlocked(g, size, r, c) <==>
      (!Contains(GridRect(size), Vec2(c, r.y - 1)) || At(g, size, c, r.y - 1) == WALL) &&
      (!Contains(GridRect(size), Vec2(c, r.y + r.h)) || At(g, size, c, r.y + r.h) == WALL)
  {
  }

  /** The test of lines 141-150 at row c is the negation of RowBlocked. */
  lemma RowTest(g: seq<byte>, size: Vec2, r: Rect, c: int)
    requires Shaped(g, size)
    ensures !RowBlocked(g, size, r, c) <==>
      (!Contains(GridRect(size), Vec2(r.x - 1, c)) || At(g, size, r.x - 1, c) == WALL) &&
      (!Contains(GridRect(size), Vec2(r.x + r.w, c)) || At(g, size, r.x + r.w, c) == WALL)
  {
  }

  /**
   * The first loop of generate_walls: counts the interior columns where a
   * vertical wall may stand and lists the blocked ones (vert_x, two slots).
   */
  method ScanColumns(grid: array<byte>, size: Vec2, rect: Rect) returns (spots: nat, blocked: seq<int>)
    requires Shaped(grid[..], size) && Fits(rect, size) && rect.w >= 2 && Bordered(grid[..], size, rect)
    ensures spots == AvailableColumns(grid[..], size, rect, rect.x + rect.w - 1)
    ensures |blocked| <= 2
    ensures forall k :: 0 <= k < |blocked| ==> ColumnBlocked(grid[..], size, rect, blocked[k])
    ensures forall c | rect.x < c < rect.x + rect.w - 1 && ColumnBlocked(grid[..], size, rect, c) :: c in blocked
  {
    var gridRect := GridRect(size);
    ghost var g := grid[..];
    spots, blocked := 0, [];
    var i := rect.x + 1;
    while i < rect.x + rect.w - 1
      invariant rect.x + 1 <= i <= rect.x + rect.w - 1
      invariant |blocked| <= 2
      invariant forall k :: 0 <= k < |blocked| ==> rect.x + 1 <= blocked[k] < i && ColumnBlocked(g, size, rect, blocked[k])
      invariant forall k, l :: 0 <= k < l < |blocked| ==> blocked[k] < blocked[l]
      invariant forall c | rect.x + 1 <= c < i && ColumnBlocked(g, size, rect, c) :: c in blocked
      invariant spots == AvailableColumns(g, size, rect, i)
    {
      var above := Vec2(i, rect.y - 1);
      var below := Vec2(i, rect.y + rect.h);
      var contA := Contains(gridRect, above);
      var contB := Contains(gridRect, below);
      var cond1 := !contA || At(grid[..], size, above.x, above.y) == WALL;
      var cond2 := !contB || At(grid[..], size, below.x, below.y) == WALL;
      ColumnTest(g, size, rect, i);
      if cond1 && cond2 {
        spots := spots + 1;
      } else {
        BlockedColumnsFew(g, size, rect, blocked, i);
        blocked := blocked + [i];
      }
      i := i + 1;
    }
  }

  /**
   * The second loop of generate_walls: counts the interior rows where a
   * horizontal wall may stand and lists the blocked ones (horz_y, two slots).
   */
  method ScanRows(grid: array<byte>, size: Vec2, rect: Rect) returns (spots: nat, blocked: seq<int>)
    requires Shaped(grid[..], size) && Fits(rect, size) && rect.h >= 2 && Bordered(grid[..], size, rect)
    ensures spots == AvailableRows(grid[..], size, rect, rect.y + rect.h - 1)
    ensures |blocked| <= 2
    ensures forall k :: 0 <= k < |blocked| ==> RowBlocked(grid[..], size, rect, blocked[k])
    ensures forall c | rect.y < c < rect.y + rect.h - 1 && RowBlocked(grid[..], size, rect, c) :: c in blocked
  {
    var gridRect := GridRect(size);
    ghost var g := grid[..];
    spots, blocked := 0, [];
    var i := rect.y + 1;
    while i < rect.y + rect.h - 1
      invariant rect.y + 1 <= i <= rect.y + rect.h - 1
      invariant |blocked| <= 2
      invariant forall k :: 0 <= k < |blocked| ==> rect.y + 1 <= blocked[k] < i && RowBlocked(g, size, rect, blocked[k])
      invariant forall k, l :: 0 <= k < l < |blocked| ==> blocked[k] < blocked[l]
      invariant forall c | rect.y + 1 <= c < i && RowBlocked(g, size, rect, c) :: c in blocked
      invariant spots == AvailableRows(g, size, rect, i)
    {
      var left := Vec2(rect.x - 1, i);
      var right := Vec2(rect.x + rect.w, i);
      var contL := Contains(gridRect, left);
      var contR := Contains(gridRect, right);
      var cond1 := !contL || At(grid[..], size, left.x, left.y) == WALL;
      var cond2 := !contR || At(grid[..], size, right.x, right.y) == WALL;
      RowTest(g, size, rect, i);
      if cond1 && cond2 {
        spots := spots + 1;
      } else {
        BlockedRowsFew(g, size, rect, blocked, i);
        blocked := blocked + [i];
      }
      i := i + 1;
    }
  }

  /** Fills row y of the region with WALL tiles. */
  method DrawRow(grid: array<byte>, size: Vec2, rect: Rect, y: int)
    requires Shaped(grid[..], size) && Fits(rect, size) && rect.y <= y < rect.y + rect.h
    modifies grid
    ensures Shaped(grid[..], size)
    ensures forall a, b | InGrid(size, a, b) ::
      At(grid[..], size, a, b) == if b == y && rect.x <= a < rect.x + rect.w then WALL else At(old(grid[..]), size, a, b)
  {
    var i := rect.x;
    while i < rect.x + rect.w
      invariant rect.x <= i <= rect.x + rect.w
      invariant Shaped(grid[..], size)
      invariant forall a, b | InGrid(size, a, b) ::
        At(grid[..], size, a, b) == if b == y && rect.x <= a < i then WALL else At(old(grid[..]), size, a, b)
    {
      SetCell(grid, size, i, y, WALL);
      i := i + 1;
    }
  }

  /** Fills column x of the region with WALL tiles. */
  method DrawColumn(grid: array<byte>, size: Vec2, rect: Rect, x: int)
    requires Shaped(grid[..], size) && Fits(rect, size) && rect.x <= x < rect.x + rect.w
    modifies grid
    ensures Shaped(grid[..], size)
    ensures forall a, b | InGrid(size, a, b) ::
      At(grid[..], size, a, b) == if a == x && rect.y <= b < rect.y + rect.h then WALL else At(old(grid[..]), size, a, b)
  {
    var i := rect.y;
    while i < rect.y + rect.h
      invariant rect.y <= i <= rect.y + rect.h
      invariant Shaped(grid[..], size)
      invariant forall a, b | InGrid(size, a, b) ::
        At(grid[..], size, a, b) == if a == x && rect.y <= b < i then WALL else At(old(grid[..]), size, a, b)
    {
      SetCell(grid, size, x, i, WALL);
      i := i + 1;
    }
  }

  /**
   * The vertical half of generate_walls' choice: a random unblocked interior
   * column, or NONE when every interior column is blocked.
   */
  method ChooseColumn(grid: array<byte>, size: Vec2, rect: Rect, rng: Rng) returns (x: int)
    requires Shaped(grid[..], size) && Fits(rect, size) && Bordered(grid[..], size, rect) && rect.w >= 2
    modifies rng
    ensures x == NONE || rect.x + 1 <= x <= rect.x + rect.w - 2
    ensures x == NONE <==> forall c | rect.x < c < rect.x + rect.w - 1 :: ColumnBlocked(grid[..], size, rect, c)
    ensures x != NONE ==> !ColumnBlocked(grid[..], size, rect, x)
  {
    x := NONE;
    var spots, blocked := ScanColumns(grid, size, rect);
    ghost var g := grid[..];
    AvailableColumnsPositive(g, size, rect, rect.x + rect.w - 1);
    if spots > 0 {
      ghost var c :| rect.x + 1 <= c < rect.x + rect.w - 1 && !ColumnBlocked(g, size, rect, c);
      assert c !in blocked;
      var raw := rng.Next();
      x := ChooseAvoiding(rect.x + 1, rect.x + rect.w - 2, blocked, raw);
      assert x != NONE;
      assert grid[..] == g;
    } else {
      assert forall c | rect.x + 1 <= c < rect.x + rect.w - 1 :: ColumnBlocked(g, size, rect, c);
    }
  }

  /**
   * The horizontal half of generate_walls' choice: a random unblocked interior
   * row, or NONE when every interior row is blocked.
   */
  method ChooseRow(grid: array<byte>, size: Vec2, rect: Rect, rng: Rng) returns (y: int)
    requires Shaped(grid[..], size) && Fits(rect, size) && Bordered(grid[..], size, rect) && rect.h >= 2
    modifies rng
    ensures y == NONE || rect.y + 1 <= y <= rect.y + rect.h - 2
    ensures y == NONE <==> forall c | rect.y < c < rect.y + rect.h - 1 :: RowBlocked(grid[..], size, rect, c)
    ensures y != NONE ==> !RowBlocked(grid[..], size, rect, y)
  {
    y := NONE;
    var spots, blocked := ScanRows(grid, size, rect);
    ghost var g := grid[..];
    AvailableRowsPositive(g, size, rect, rect.y + rect.h - 1);
    if spots > 0 {
      ghost var c :| rect.y + 1 <= c < rect.y + rect.h - 1 && !RowBlocked(g, size, rect, c);
      assert c !in blocked;
      var raw := rng.Next();
      y := ChooseAvoiding(rect.y + 1, rect.y + rect.h - 2, blocked, raw);
      assert y != NONE;
      assert grid[..] == g;
    } else {
      assert forall c | rect.y + 1 <= c < rect.y + rect.h - 1 :: RowBlocked(g, size, rect, c);
    }
  }

  /**
   * generate_walls.  Returns the wall coordinates (NONE where no wall was drawn)
   * and draws the walls across the whole region.
   */
  method GenerateWalls(grid: array<byte>, size: Vec2, rect: Rect, rng: Rng) returns (wall: Vec2)
    requires Shaped(grid[..], size) && Fits(rect, size) && Bordered(grid[..], size, rect)
    modifies grid, rng
    ensures Shaped(grid[..], size)
    ensures WallPlacement(rect, wall)
    ensures Degenerate(rect) ==> wall == Vec2(NONE, NONE)
    ensures !Degenerate(rect) ==>
      (wall.x == NONE <==> forall c | rect.x < c < rect.x + rect.w - 1 :: ColumnBlocked(old(grid[..]), size, rect, c))
    ensures !Degenerate(rect) ==>
      (wall.y == NONE <==> forall c | rect.y < c < rect.y + rect.h - 1 :: RowBlocked(old(grid[..]), size, rect, c))
    ensures wall.x != NONE ==> !ColumnBlocked(old(grid[..]), size, rect, wall.x)
    ensures wall.y != NONE ==> !RowBlocked(old(grid[..]), size, rect, wall.y)
    ensures forall a, b | InGrid(size, a, b) ::
      At(grid[..], size, a, b) == if OnWalls(rect, wall, a, b) then WALL else At(old(grid[..]), size, a, b)
  {
    wall := Vec2(NONE, NONE);
    if rect.w == 2 && rect.h == 2 {
      return;
    }
    if rect.w == 1 || rect.h == 1 {
      return;
    }
    ghost var g0 := grid[..];
    var x := ChooseColumn(grid, size, rect, rng);
    var y := ChooseRow(grid, size, rect, rng);
    wall := Vec2(x, y);
    // 'draw' the walls
    if wall.y != NONE {
      DrawRow(grid, size, rect, wall.y);
    }
    ghost var g1 := grid[..];
    assert forall a, b | InGrid(size, a, b) ::
      At(g1, size, a, b) == if OnRow(rect, wall, a, b) then WALL else At(g0, size, a, b);
    if wall.x != NONE {
      DrawColumn(grid, size, rect, wall.x);
    }
  }

  // The spot counters of generate_walls are uint8_t.  The model above counts
  // without bound; the members below state what the 8-bit counter does.

  /** An 8-bit counter after `++` has been applied n times from 0. */
  function WrappedCount(n: nat): byte {
    if n == 0 then 0
    else if WrappedCount(n - 1) == 255 then 0
    else WrappedCount(n - 1) + 1
  }

  lemma {:induction false} WrappedCountIsMod(n: nat)
    ensures WrappedCount(n) == n % 256
  {
    if n > 0 {
      WrappedCountIsMod(n - 1);
      var q, r := (n - 1) / 256, (n - 1) % 256;
      assert n == 256 * q + r + 1;
      if r < 255 {
        assert n % 256 == r + 1;
      } else {
        assert n == 256 * (q + 1);
        assert n % 256 == 0;
      }
    }
  }

  /**
   * The vertical-wall decision as written (line 116): a wall is drawn when the
   * 8-bit count of available columns is non-zero, that is when the true count is
   * not a multiple of 256.
   */
  ghost predicate VerticalWallAsWritten(g: seq<byte>, size: Vec2, r: Rect): (drawn: bool)
    requires Shaped(g, size)
    ensures drawn <==> !Degenerate(r) && AvailableColumns(g, size, r, r.x + r.w - 1) % 256 != 0
  {
    WrappedCountIsMod(AvailableColumns(g, size, r, r.x + r.w - 1));
    !Degenerate(r) && WrappedCount(AvailableColumns(g, size, r, r.x + r.w - 1)) > 0
  }

  /** The horizontal-wall decision as written (line 158), on the 8-bit row count. */
  ghost predicate HorizontalWallAsWritten(g: seq<byte>, size: Vec2, r: Rect): (drawn: bool)
    requires Shaped(g, size)
    ensures drawn <==> !Degenerate(r) && AvailableRows(g, size, r, r.y + r.h - 1) % 256 != 0
  {
    WrappedCountIsMod(AvailableRows(g, size, r, r.y + r.h - 1));
    !Degenerate(r) && WrappedCount(AvailableRows(g, size, r, r.y + r.h - 1)) > 0
  }

  /** In the region covering the whole grid no column is blocked: its border lines lie outside the grid. */
  lemma {:induction false} WholeGridColumnsAvailable(g: seq<byte>, size: Vec2, hi: int)
    requires Shaped(g, size) && 1 <= hi <= size.x
    ensures AvailableColumns(g, size, GridRect(size), hi) == hi - 1
    decreases hi
  {
    if hi > 1 {
      WholeGridColumnsAvailable(g, size, hi - 1);
    }
  }

  /** Likewise no row of the whole grid is blocked. */
  lemma {:induction false} WholeGridRowsAvailable(g: seq<byte>, size: Vec2, hi: int)
    requires Shaped(g, size) && 1 <= hi <= size.y
    ensures AvailableRows(g, size, GridRect(size), hi) == hi - 1
    decreases hi
  {
    if hi > 1 {
      WholeGridRowsAvailable(g, size, hi - 1);
    }
  }

  /**
   * On a 258 x 258 grid every one of the 256 interior columns may take the
   * vertical wall and every one of the 256 interior rows the horizontal wall,
   * yet both 8-bit counts wrap to 0 and the code as written draws no wall.
   */
  lemma SpotCounterWraps(g: seq<byte>)
    requires Shaped(g, Vec2(258, 258))
    ensures !ColumnBlocked(g, Vec2(258, 258), GridRect(Vec2(258, 258)), 1)
    ensures !RowBlocked(g, Vec2(258, 258), GridRect(Vec2(258, 258)), 1)
    ensures AvailableColumns(g, Vec2(258, 258), GridRect(Vec2(258, 258)), 257) == 256
    ensures AvailableRows(g, Vec2(258, 258), GridRect(Vec2(258, 258)), 257) == 256
    ensures !VerticalWallAsWritten(g, Vec2(258, 258), GridRect(Vec2(258, 258)))
    ensures !HorizontalWallAsWritten(g, Vec2(258, 258), GridRect(Vec2(258, 258)))
  {
    WholeGridColumnsAvailable(g, Vec2(258, 258), 257);
    WholeGridRowsAvailable(g, Vec2(258, 258), 257);
  }
}
