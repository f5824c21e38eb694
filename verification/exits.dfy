/**
 * Exit placement (generate_exits): one opening through each wall drawn across a
 * region, never at the crossing, and a third opening when both walls exist, on
 * the far side of the crossing from the first opening on the same wall.
 */
module Exits {
  import opened Geometry
  import opened Grid
  import opened Random
  import opened Walls

  /**
   * The sampling range of the third exit along a wall that spans
   * [start, start + len) and is crossed at `cut`: the cells past the crossing
   * when the existing exit `other` lies before it, the cells before the crossing
   * otherwise.
   */
  function OppositeRange(start: int, len: int, cut: int, other: int): (r: (int, int))
    requires start + 1 <= cut <= start + len - 2
    ensures start <= r.0 <= r.1 < start + len
    ensures other < cut ==> cut < r.0
    ensures other >= cut ==> r.1 < cut
  {
    if other < cut then (cut + 1, start + len - 1) else (start, cut - 1)
  }

  /**
   * The third exit lies on one of the two walls, inside the region, strictly on
   * the other side of the crossing from that wall's first exit.
   */
  predicate ThirdExitOpposite(r: Rect, wall: Vec2, hExit: Vec2, vExit: Vec2, tExit: Vec2) {
    (tExit.y == wall.y &&
     (if vExit.x < wall.x then wall.x < tExit.x < r.x + r.w else r.x <= tExit.x < wall.x)) ||
    (tExit.x == wall.x &&
     (if hExit.y < wall.y then wall.y < tExit.y < r.y + r.h else r.y <= tExit.y < wall.y))
  }

  /** Cell (a, b) is one of the exits cut for `wall`. */
  predicate IsExit(wall: Vec2, hExit: Vec2, vExit: Vec2, tExit: Vec2, a: int, b: int) {
    (wall.x != NONE && Vec2(a, b) == hExit) ||
    (wall.y != NONE && Vec2(a, b) == vExit) ||
    (wall.x != NONE && wall.y != NONE && Vec2(a, b) == tExit)
  }

  /** Where the exits of a wall pair lie, as generate_exits promises. */
  predicate ExitsPlaced(r: Rect, wall: Vec2, hExit: Vec2, vExit: Vec2, tExit: Vec2) {
    (wall.x != NONE ==> hExit.x == wall.x && r.y <= hExit.y < r.y + r.h && hExit.y != wall.y) &&
    (wall.y != NONE ==> vExit.y == wall.y && r.x <= vExit.x < r.x + r.w && vExit.x != wall.x) &&
    (wall.x != NONE && wall.y != NONE ==> ThirdExitOpposite(r, wall, hExit, vExit, tExit))
  }

  /** Every exit is a cell of its region that lies on one of the walls. */
  lemma ExitsOnWalls(r: Rect, wall: Vec2, hExit: Vec2, vExit: Vec2, tExit: Vec2, a: int, b: int)
    requires WallPlacement(r, wall) && ExitsPlaced(r, wall, hExit, vExit, tExit)
    ensures IsExit(wall, hExit, vExit, tExit, a, b) ==> OnWalls(r, wall, a, b) && Contains(r, Vec2(a, b))
  {
  }

  /** The crossing of two walls is never cut open. */
  lemma CrossingStaysWall(r: Rect, wall: Vec2, hExit: Vec2, vExit: Vec2, tExit: Vec2)
    requires WallPlacement(r, wall) && ExitsPlaced(r, wall, hExit, vExit, tExit)
    ensures !IsExit(wall, hExit, vExit, tExit, wall.x, wall.y)
  {
  }

  /** With both walls, the three exits are three different cells. */
  lemma ExitsDistinct(r: Rect, wall: Vec2, hExit: Vec2, vExit: Vec2, tExit: Vec2)
    requires WallPlacement(r, wall) && ExitsPlaced(r, wall, hExit, vExit, tExit)
    requires wall.x != NONE && wall.y != NONE
    ensures hExit != vExit && hExit != tExit && vExit != tExit
  {
  }

  /**
   * The third exit (lines 246-269): a coin flip picks the horizontal or the
   * vertical wall, then a cell of that wall on the far side of the crossing
   * from the wall's first exit.
   */
  method ThirdExit(rect: Rect, wall: Vec2, hExit: Vec2, vExit: Vec2, rng: Rng) returns (tExit: Vec2)
    requires WallPlacement(rect, wall) && wall.x != NONE && wall.y != NONE
    modifies rng
    ensures ThirdExitOpposite(rect, wall, hExit, vExit, tExit)
  {
    var coin := rng.Next();
    var raw := rng.Next();
    tExit := wall;
    if coin % 2 == 0 {
      var range := OppositeRange(rect.x, rect.w, wall.x, vExit.x);
      tExit := tExit.(x := Generate64(range.0, range.1, raw));
    } else {
      var range := OppositeRange(rect.y, rect.h, wall.y, hExit.y);
      tExit := tExit.(y := Generate64(range.0, range.1, raw));
    }
  }

  /**
   * generate_exits: cuts the exits for `wall` (PATH tiles) and returns their
   * positions; nothing happens when neither wall exists.
   */
  method GenerateExits(grid: array<byte>, size: Vec2, rect: Rect, wall: Vec2, rng: Rng)
    returns (hExit: Vec2, vExit: Vec2, tExit: Vec2)
    requires Shaped(grid[..], size) && Fits(rect, size) && WallPlacement(rect, wall)
    modifies grid, rng
    ensures Shaped(grid[..], size)
    ensures ExitsPlaced(rect, wall, hExit, vExit, tExit)
    ensures forall a, b | InGrid(size, a, b) ::
      At(grid[..], size, a, b) ==
        if IsExit(wall, hExit, vExit, tExit, a, b) then PATH else At(old(grid[..]), size, a, b)
  {
    hExit, vExit, tExit := Vec2(NONE, NONE), Vec2(NONE, NONE), Vec2(NONE, NONE);
    // do nothing if walls do not exist
    if wall.x == NONE && wall.y == NONE {
      return;
    }
    hExit := hExit.(x := wall.x);
    vExit := vExit.(y := wall.y);
    tExit := wall;
    ghost var g0 := grid[..];

    // a horizontal exit through the vertical wall
    var vwallExists := wall.x != NONE;
    if vwallExists {
      assert rect.y !in [wall.y];
      var raw := rng.Next();
      hExit := hExit.(y := ChooseAvoiding(rect.y, rect.y + rect.h - 1, [wall.y], raw));
      SetCell(grid, size, hExit.x, hExit.y, PATH);
    }
    ghost var g1 := grid[..];
    assert forall a, b | InGrid(size, a, b) ::
      At(g1, size, a, b) == if vwallExists && Vec2(a, b) == hExit then PATH else At(g0, size, a, b);

    // a vertical exit through the horizontal wall
    var hwallExists := wall.y != NONE;
    if hwallExists {
      assert rect.x !in [wall.x];
      var raw := rng.Next();
      vExit := vExit.(x := ChooseAvoiding(rect.x, rect.x + rect.w - 1, [wall.x], raw));
      SetCell(grid, size, vExit.x, vExit.y, PATH);
    }
    ghost var g2 := grid[..];
    assert forall a, b | InGrid(size, a, b) ::
      At(g2, size, a, b) == if hwallExists && Vec2(a, b) == vExit then PATH else At(g1, size, a, b);

    // the third exit, on the far side of the crossing
    if vwallExists && hwallExists {
      tExit := ThirdExit(rect, wall, hExit, vExit, rng);
      SetCell(grid, size, tExit.x, tExit.y, PATH);
    }
  }
}
