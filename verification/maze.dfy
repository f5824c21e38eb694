/**
 * The recursive division driver (subdivide) and its entry point
 * (generate_maze).
 */
module Maze {
  import opened Geometry
  import opened Grid
  import opened Random
  import opened Walls
  import opened Exits

  /**
   * The rooms left by the walls, in the order subdivide recurses into them:
   * above and below a lone horizontal wall, left and right of a lone vertical
   * wall, and the four quadrants (top-left, top-right, bottom-left,
   * bottom-right) when both walls exist.  No walls, no rooms.
   */
  function Children(r: Rect, wall: Vec2): (kids: seq<Rect>)
    requires r.w >= 1 && r.h >= 1 && WallPlacement(r, wall)
    ensures |kids| == if wall.x == NONE && wall.y == NONE then 0
                      else if wall.x == NONE || wall.y == NONE then 2
                      else 4
    ensures forall k :: 0 <= k < |kids| ==>
      Within(kids[k], r) && kids[k].w >= 1 && kids[k].h >= 1 && kids[k].w + kids[k].h < r.w + r.h
  {
    if wall.x == NONE && wall.y == NONE then []
    else if wall.x == NONE then
      [Rect(r.x, r.y, r.w, wall.y - r.y),
       Rect(r.x, wall.y + 1, r.w, r.y + r.h - wall.y - 1)]
    else if wall.y == NONE then
      [Rect(r.x, r.y, wall.x - r.x, r.h),
       Rect(wall.x + 1, r.y, r.x + r.w - wall.x - 1, r.h)]
    else
      [Rect(r.x, r.y, wall.x - r.x, wall.y - r.y),
       Rect(wall.x + 1, r.y, r.x + r.w - wall.x - 1, wall.y - r.y),
       Rect(r.x, wall.y + 1, wall.x - r.x, r.y + r.h - wall.y - 1),
       Rect(wall.x + 1, wall.y + 1, r.x + r.w - wall.x - 1, r.y + r.h - wall.y - 1)]
  }

  /** Every room has strictly fewer cells than the region it was cut from. */
  lemma ChildrenSmaller(r: Rect, wall: Vec2, k: int)
    requires r.w >= 1 && r.h >= 1 && WallPlacement(r, wall) && 0 <= k < |Children(r, wall)|
    ensures Children(r, wall)[k].w * Children(r, wall)[k].h < r.w * r.h
  {
    var c := Children(r, wall)[k];
    MulMonotone(c.w, r.w, c.h);
    assert c.h * r.w <= r.h * r.w by { MulMonotone(c.h, r.h, r.w); }
    if c.w < r.w {
      MulMonotone(c.w + 1, r.w, c.h);
    } else {
      MulMonotone(c.h + 1, r.h, r.w);
    }
  }

  /** Distinct rooms share no cell. */
  lemma ChildrenDisjoint(r: Rect, wall: Vec2, i: int, j: int, p: Vec2)
    requires r.w >= 1 && r.h >= 1 && WallPlacement(r, wall)
    requires 0 <= i < |Children(r, wall)| && 0 <= j < |Children(r, wall)| && i != j
    ensures !(Contains(Children(r, wall)[i], p) && Contains(Children(r, wall)[j], p))
  {
  }

  /**
   * The walls and the rooms partition the region: a cell of the region is on a
   * wall or in some room, and no room holds a wall cell.
   */
  lemma ChildrenCover(r: Rect, wall: Vec2, p: Vec2)
    requires r.w >= 1 && r.h >= 1 && WallPlacement(r, wall) && wall != Vec2(NONE, NONE)
    ensures Contains(r, p) <==>
      OnWalls(r, wall, p.x, p.y) || exists k :: 0 <= k < |Children(r, wall)| && Contains(Children(r, wall)[k], p)
    ensures forall k :: 0 <= k < |Children(r, wall)| && Contains(Children(r, wall)[k], p) ==> !OnWalls(r, wall, p.x, p.y)
  {
    var kids := Children(r, wall);
    if Contains(r, p) && !OnWalls(r, wall, p.x, p.y) {
      if wall.x == NONE {
        assert Contains(kids[if p.y < wall.y then 0 else 1], p);
      } else if wall.y == NONE {
        assert Contains(kids[if p.x < wall.x then 0 else 1], p);
      } else {
        assert Contains(kids[(if p.x < wall.x then 0 else 1) + (if p.y < wall.y then 0 else 2)], p);
      }
    }
  }

  /** Cell (a, b) is on one of the four lines just outside r. */
  predicate OnBorder(r: Rect, a: int, b: int) {
    ((b == r.y - 1 || b == r.y + r.h) && r.x <= a < r.x + r.w) ||
    ((a == r.x - 1 || a == r.x + r.w) && r.y <= b < r.y + r.h)
  }

  /** The lines around a room run along the region's own border lines or along the walls. */
  lemma ChildBorders(r: Rect, wall: Vec2, k: int, a: int, b: int)
    requires r.w >= 1 && r.h >= 1 && WallPlacement(r, wall) && 0 <= k < |Children(r, wall)|
    ensures OnBorder(Children(r, wall)[k], a, b) ==> OnBorder(r, a, b) || OnWalls(r, wall, a, b)
  {
  }

  /** Each room's border lines hold at most one opening in `g`. */
  ghost predicate ChildrenBordered(g: seq<byte>, size: Vec2, r: Rect, wall: Vec2, from: nat)
    requires Shaped(g, size) && r.w >= 1 && r.h >= 1 && WallPlacement(r, wall)
  {
    forall k | from <= k < |Children(r, wall)| :: Bordered(g, size, Children(r, wall)[k])
  }

  /** Which cells are open after the walls and exits of region r are drawn on g0. */
  ghost predicate OpenAfterCut(g0: seq<byte>, g2: seq<byte>, size: Vec2, r: Rect, wall: Vec2,
                               hExit: Vec2, vExit: Vec2, tExit: Vec2)
    requires Shaped(g0, size) && Shaped(g2, size)
  {
    forall a, b | InGrid(size, a, b) ::
      Open(g2, size, a, b) <==>
        IsExit(wall, hExit, vExit, tExit, a, b) || (!OnWalls(r, wall, a, b) && Open(g0, size, a, b))
  }

  /** A line segment along the region's border keeps the region's single opening bound. */
  lemma RowInherited(g0: seq<byte>, g2: seq<byte>, size: Vec2, r: Rect, wall: Vec2,
                     hExit: Vec2, vExit: Vec2, tExit: Vec2, y: int, x0: int, x1: int)
    requires Shaped(g0, size) && Shaped(g2, size) && WallPlacement(r, wall)
    requires ExitsPlaced(r, wall, hExit, vExit, tExit)
    requires OpenAfterCut(g0, g2, size, r, wall, hExit, vExit, tExit)
    requires (y == r.y - 1 || y == r.y + r.h) && r.x <= x0 && x1 <= r.x + r.w
    requires OneOpenInRow(g0, size, y, r.x, r.x + r.w)
    ensures OneOpenInRow(g2, size, y, x0, x1)
  {
    forall a | x0 <= a < x1 && Open(g2, size, a, y)
      ensures Open(g0, size, a, y)
    {
      ExitsOnWalls(r, wall, hExit, vExit, tExit, a, y);
    }
  }

  /** The symmetric statement for a column along the region's border. */
  lemma ColumnInherited(g0: seq<byte>, g2: seq<byte>, size: Vec2, r: Rect, wall: Vec2,
                        hExit: Vec2, vExit: Vec2, tExit: Vec2, x: int, y0: int, y1: int)
    requires Shaped(g0, size) && Shaped(g2, size) && WallPlacement(r, wall)
    requires ExitsPlaced(r, wall, hExit, vExit, tExit)
    requires OpenAfterCut(g0, g2, size, r, wall, hExit, vExit, tExit)
    requires (x == r.x - 1 || x == r.x + r.w) && r.y <= y0 && y1 <= r.y + r.h
    requires OneOpenInColumn(g0, size, x, r.y, r.y + r.h)
    ensures OneOpenInColumn(g2, size, x, y0, y1)
  {
    forall b | y0 <= b < y1 && Open(g2, size, x, b)
      ensures Open(g0, size, x, b)
    {
      ExitsOnWalls(r, wall, hExit, vExit, tExit, x, b);
    }
  }

  /** Each side of the horizontal wall's crossing holds exactly one exit. */
  lemma RowOnWall(g0: seq<byte>, g2: seq<byte>, size: Vec2, r: Rect, wall: Vec2,
                  hExit: Vec2, vExit: Vec2, tExit: Vec2, x0: int, x1: int)
    requires Shaped(g0, size) && Shaped(g2, size) && WallPlacement(r, wall) && wall.y != NONE
    requires ExitsPlaced(r, wall, hExit, vExit, tExit)
    requires OpenAfterCut(g0, g2, size, r, wall, hExit, vExit, tExit)
    requires (wall.x == NONE && x0 == r.x && x1 == r.x + r.w) ||
             (wall.x != NONE && ((x0 == r.x && x1 == wall.x) || (x0 == wall.x + 1 && x1 == r.x + r.w)))
    ensures OneOpenInRow(g2, size, wall.y, x0, x1)
  {
    forall a | x0 <= a < x1 && Open(g2, size, a, wall.y)
      ensures a == vExit.x || (wall.x != NONE && a == tExit.x && tExit.y == wall.y)
    {
    }
  }

  /** Each side of the vertical wall's crossing holds exactly one exit. */
  lemma ColumnOnWall(g0: seq<byte>, g2: seq<byte>, size: Vec2, r: Rect, wall: Vec2,
                     hExit: Vec2, vExit: Vec2, tExit: Vec2, y0: int, y1: int)
    requires Shaped(g0, size) && Shaped(g2, size) && WallPlacement(r, wall) && wall.x != NONE
    requires ExitsPlaced(r, wall, hExit, vExit, tExit)
    requires OpenAfterCut(g0, g2, size, r, wall, hExit, vExit, tExit)
    requires (wall.y == NONE && y0 == r.y && y1 == r.y + r.h) ||
             (wall.y != NONE && ((y0 == r.y && y1 == wall.y) || (y0 == wall.y + 1 && y1 == r.y + r.h)))
    ensures OneOpenInColumn(g2, size, wall.x, y0, y1)
  {
    forall b | y0 <= b < y1 && Open(g2, size, wall.x, b)
      ensures b == hExit.y || (wall.y != NONE && b == tExit.y && tExit.x == wall.x)
    {
    }
  }

  /** The line above a room holds at most one opening after the cut. */
  lemma KidTop(g0: seq<byte>, g2: seq<byte>, size: Vec2, r: Rect, wall: Vec2,
                    hExit: Vec2, vExit: Vec2, tExit: Vec2, k: int)
    requires Shaped(g0, size) && Shaped(g2, size)
    requires Fits(r, size) && WallPlacement(r, wall) && 0 <= k < |Children(r, wall)|
    requires Bordered(g0, size, r)
    requires ExitsPlaced(r, wall, hExit, vExit, tExit)
    requires OpenAfterCut(g0, g2, size, r, wall, hExit, vExit, tExit)
    ensures var c := Children(r, wall)[k]; OneOpenInRow(g2, size, c.y - 1, c.x, c.x + c.w)
  {
    var c := Children(r, wall)[k];
    if c.y == r.y {
      RowInherited(g0, g2, size, r, wall, hExit, vExit, tExit, r.y - 1, c.x, c.x + c.w);
    } else {
      RowOnWall(g0, g2, size, r, wall, hExit, vExit, tExit, c.x, c.x + c.w);
    }
  }

  /** The line below a room holds at most one opening after the cut. */
  lemma KidBottom(g0: seq<byte>, g2: seq<byte>, size: Vec2, r: Rect, wall: Vec2,
                    hExit: Vec2, vExit: Vec2, tExit: Vec2, k: int)
    requires Shaped(g0, size) && Shaped(g2, size)
    requires Fits(r, size) && WallPlacement(r, wall) && 0 <= k < |Children(r, wall)|
    requires Bordered(g0, size, r)
    requires ExitsPlaced(r, wall, hExit, vExit, tExit)
    requires OpenAfterCut(g0, g2, size, r, wall, hExit, vExit, tExit)
    ensures var c := Children(r, wall)[k]; OneOpenInRow(g2, size, c.y + c.h, c.x, c.x + c.w)
  {
    var c := Children(r, wall)[k];
    if c.y + c.h == r.y + r.h {
      RowInherited(g0, g2, size, r, wall, hExit, vExit, tExit, r.y + r.h, c.x, c.x + c.w);
    } else {
      RowOnWall(g0, g2, size, r, wall, hExit, vExit, tExit, c.x, c.x + c.w);
    }
  }

  /** The line left of a room holds at most one opening after the cut. */
  lemma KidLeft(g0: seq<byte>, g2: seq<byte>, size: Vec2, r: Rect, wall: Vec2,
                    hExit: Vec2, vExit: Vec2, tExit: Vec2, k: int)
    requires Shaped(g0, size) && Shaped(g2, size)
    requires Fits(r, size) && WallPlacement(r, wall) && 0 <= k < |Children(r, wall)|
    requires Bordered(g0, size, r)
    requires ExitsPlaced(r, wall, hExit, vExit, tExit)
    requires OpenAfterCut(g0, g2, size, r, wall, hExit, vExit, tExit)
    ensures var c := Children(r, wall)[k]; OneOpenInColumn(g2, size, c.x - 1, c.y, c.y + c.h)
  {
    var c := Children(r, wall)[k];
    if c.x == r.x {
      ColumnInherited(g0, g2, size, r, wall, hExit, vExit, tExit, r.x - 1, c.y, c.y + c.h);
    } else {
      ColumnOnWall(g0, g2, size, r, wall, hExit, vExit, tExit, c.y, c.y + c.h);
    }
  }

  /** The line right of a room holds at most one opening after the cut. */
  lemma KidRight(g0: seq<byte>, g2: seq<byte>, size: Vec2, r: Rect, wall: Vec2,
                    hExit: Vec2, vExit: Vec2, tExit: Vec2, k: int)
    requires Shaped(g0, size) && Shaped(g2, size)
    requires Fits(r, size) && WallPlacement(r, wall) && 0 <= k < |Children(r, wall)|
    requires Bordered(g0, size, r)
    requires ExitsPlaced(r, wall, hExit, vExit, tExit)
    requires OpenAfterCut(g0, g2, size, r, wall, hExit, vExit, tExit)
    ensures var c := Children(r, wall)[k]; OneOpenInColumn(g2, size, c.x + c.w, c.y, c.y + c.h)
  {
    var c := Children(r, wall)[k];
    if c.x + c.w == r.x + r.w {
      ColumnInherited(g0, g2, size, r, wall, hExit, vExit, tExit, r.x + r.w, c.y, c.y + c.h);
    } else {
      ColumnOnWall(g0, g2, size, r, wall, hExit, vExit, tExit, c.y, c.y + c.h);
    }
  }

  /** One room is Bordered after the cut. */
  lemma KidBordered(g0: seq<byte>, g2: seq<byte>, size: Vec2, r: Rect, wall: Vec2,
                    hExit: Vec2, vExit: Vec2, tExit: Vec2, k: int)
    requires Shaped(g0, size) && Shaped(g2, size)
    requires Fits(r, size) && WallPlacement(r, wall) && 0 <= k < |Children(r, wall)|
    requires Bordered(g0, size, r)
    requires ExitsPlaced(r, wall, hExit, vExit, tExit)
    requires OpenAfterCut(g0, g2, size, r, wall, hExit, vExit, tExit)
    ensures Bordered(g2, size, Children(r, wall)[k])
  {
    KidTop(g0, g2, size, r, wall, hExit, vExit, tExit, k);
    KidBottom(g0, g2, size, r, wall, hExit, vExit, tExit, k);
    KidLeft(g0, g2, size, r, wall, hExit, vExit, tExit, k);
    KidRight(g0, g2, size, r, wall, hExit, vExit, tExit, k);
  }

  /**
   * After the walls (g1) and then the exits (g2) of a region are drawn, every
   * room it leaves is Bordered: its lines along the region's border inherit the
   * region's bound, and each side of a wall's crossing carries one exit.
   */
  lemma KidsBordered(g0: seq<byte>, g1: seq<byte>, g2: seq<byte>, size: Vec2, r: Rect, wall: Vec2,
                     hExit: Vec2, vExit: Vec2, tExit: Vec2)
    requires Shaped(g0, size) && Shaped(g1, size) && Shaped(g2, size)
    requires Fits(r, size) && WallPlacement(r, wall)
    requires Bordered(g0, size, r)
    requires forall a, b | InGrid(size, a, b) ::
      At(g1, size, a, b) == if OnWalls(r, wall, a, b) then WALL else At(g0, size, a, b)
    requires ExitsPlaced(r, wall, hExit, vExit, tExit)
    requires forall a, b | InGrid(size, a, b) ::
      At(g2, size, a, b) == if IsExit(wall, hExit, vExit, tExit, a, b) then PATH else At(g1, size, a, b)
    ensures ChildrenBordered(g2, size, r, wall, 0)
  {
    assert OpenAfterCut(g0, g2, size, r, wall, hExit, vExit, tExit);
    forall k | 0 <= k < |Children(r, wall)|
      ensures Bordered(g2, size, Children(r, wall)[k])
    {
      KidBordered(g0, g2, size, r, wall, hExit, vExit, tExit, k);
    }
  }

  /**
   * Recursing into room i changes no cell outside it, so the other rooms stay
   * Bordered and nothing outside the region changes.
   */
  lemma SiblingUntouched(gA: seq<byte>, gB: seq<byte>, size: Vec2, r: Rect, wall: Vec2, i: int, j: int)
    requires Shaped(gA, size) && Shaped(gB, size) && r.w >= 1 && r.h >= 1 && WallPlacement(r, wall)
    requires 0 <= i < |Children(r, wall)| && 0 <= j < |Children(r, wall)|
    requires SameOutside(gA, gB, size, Children(r, wall)[i])
    requires Bordered(gA, size, Children(r, wall)[j])
    ensures Bordered(gB, size, Children(r, wall)[j])
  {
    var c := Children(r, wall)[j];
    forall a, b | OnBorder(c, a, b) && InGrid(size, a, b)
      ensures Open(gB, size, a, b) == Open(gA, size, a, b)
    {
      ChildBorders(r, wall, j, a, b);
      ChildrenCover(r, wall, Vec2(a, b));
    }
  }

  /** A room's changes are changes inside the region. */
  lemma InsideChild(gA: seq<byte>, gB: seq<byte>, size: Vec2, r: Rect, wall: Vec2, i: int)
    requires Shaped(gA, size) && Shaped(gB, size) && r.w >= 1 && r.h >= 1 && WallPlacement(r, wall)
    requires 0 <= i < |Children(r, wall)|
    requires SameOutside(gA, gB, size, Children(r, wall)[i])
    ensures SameOutside(gA, gB, size, r)
  {
    forall a, b | InGrid(size, a, b) && !Contains(r, Vec2(a, b))
      ensures At(gB, size, a, b) == At(gA, size, a, b)
    {
      ContainsWithin(Children(r, wall)[i], r, Vec2(a, b));
    }
  }

  /** Changes confined to r, then changes confined to r, are changes confined to r. */
  lemma SameOutsideTrans(g0: seq<byte>, g1: seq<byte>, g2: seq<byte>, size: Vec2, r: Rect)
    requires SameOutside(g0, g1, size, r) && SameOutside(g1, g2, size, r)
    ensures SameOutside(g0, g2, size, r)
  {
  }

  /** Writing only tiles, twice, writes only tiles. */
  lemma OnlyTilesTrans(g0: seq<byte>, g1: seq<byte>, g2: seq<byte>, size: Vec2)
    requires OnlyTiles(g0, g1, size) && OnlyTiles(g1, g2, size)
    ensures OnlyTiles(g0, g2, size)
  {
  }

  /** The bookkeeping after recursing into room i (which changed gA into gB). */
  lemma AfterChild(g0: seq<byte>, gA: seq<byte>, gB: seq<byte>, size: Vec2, r: Rect, wall: Vec2, i: nat)
    requires Shaped(g0, size) && Shaped(gA, size) && Shaped(gB, size)
    requires r.w >= 1 && r.h >= 1 && WallPlacement(r, wall) && i < |Children(r, wall)|
    requires SameOutside(g0, gA, size, r) && OnlyTiles(g0, gA, size)
    requires ChildrenBordered(gA, size, r, wall, i + 1)
    requires SameOutside(gA, gB, size, Children(r, wall)[i]) && OnlyTiles(gA, gB, size)
    ensures SameOutside(g0, gB, size, r) && OnlyTiles(g0, gB, size)
    ensures ChildrenBordered(gB, size, r, wall, i + 1)
  {
    InsideChild(gA, gB, size, r, wall, i);
    SameOutsideTrans(g0, gA, gB, size, r);
    OnlyTilesTrans(g0, gA, gB, size);
    forall j | i + 1 <= j < |Children(r, wall)|
      ensures Bordered(gB, size, Children(r, wall)[j])
    {
      SiblingUntouched(gA, gB, size, r, wall, i, j);
    }
  }

  /** The cells on the walls across r are the same in `g0` and `g1`. */
  ghost predicate WallsKept(g0: seq<byte>, g1: seq<byte>, size: Vec2, r: Rect, wall: Vec2)
    requires Shaped(g0, size) && Shaped(g1, size)
  {
    forall a, b | InGrid(size, a, b) && OnWalls(r, wall, a, b) :: At(g1, size, a, b) == At(g0, size, a, b)
  }

  /** Recursing into a room leaves the walls that enclose it as they were. */
  lemma WallsKeptAfterChild(g0: seq<byte>, gA: seq<byte>, gB: seq<byte>, size: Vec2, r: Rect, wall: Vec2, i: nat)
    requires Shaped(g0, size) && Shaped(gA, size) && Shaped(gB, size)
    requires r.w >= 1 && r.h >= 1 && WallPlacement(r, wall) && wall != Vec2(NONE, NONE)
    requires i < |Children(r, wall)|
    requires WallsKept(g0, gA, size, r, wall)
    requires SameOutside(gA, gB, size, Children(r, wall)[i])
    ensures WallsKept(g0, gB, size, r, wall)
  {
    forall a, b | InGrid(size, a, b) && OnWalls(r, wall, a, b)
      ensures At(gB, size, a, b) == At(g0, size, a, b)
    {
      ChildrenCover(r, wall, Vec2(a, b));
    }
  }

  /** Cells of r agree in `g1` and `g2`. */
  ghost predicate SameIn(g1: seq<byte>, g2: seq<byte>, size: Vec2, r: Rect)
    requires Shaped(g1, size) && Shaped(g2, size)
  {
    forall a, b | InGrid(size, a, b) && Contains(r, Vec2(a, b)) :: At(g1, size, a, b) == At(g2, size, a, b)
  }

  /** Cells of r and of the four lines just outside it agree in `g1` and `g2`. */
  ghost predicate SameAround(g1: seq<byte>, g2: seq<byte>, size: Vec2, r: Rect)
    requires Shaped(g1, size) && Shaped(g2, size)
  {
    forall a, b | InGrid(size, a, b) && (Contains(r, Vec2(a, b)) || OnBorder(r, a, b)) ::
      At(g1, size, a, b) == At(g2, size, a, b)
  }

  /**
   * One level of subdivide on region r, read on grid g: the walls are placed
   * as generate_walls places them (judged on r's border lines), the exits as
   * generate_exits places them, and the wall lines hold WALL except at the
   * exits, which hold PATH.
   */
  ghost predicate Level(g: seq<byte>, size: Vec2, r: Rect, wall: Vec2, hExit: Vec2, vExit: Vec2, tExit: Vec2)
    requires Shaped(g, size)
  {
    WallPlacement(r, wall) &&
    (Degenerate(r) ==> wall == Vec2(NONE, NONE)) &&
    (!Degenerate(r) ==> (wall.x == NONE <==> forall c | r.x < c < r.x + r.w - 1 :: ColumnBlocked(g, size, r, c))) &&
    (!Degenerate(r) ==> (wall.y == NONE <==> forall c | r.y < c < r.y + r.h - 1 :: RowBlocked(g, size, r, c))) &&
    (wall.x != NONE ==> !ColumnBlocked(g, size, r, wall.x)) &&
    (wall.y != NONE ==> !RowBlocked(g, size, r, wall.y)) &&
    ExitsPlaced(r, wall, hExit, vExit, tExit) &&
    forall a, b | InGrid(size, a, b) && OnWalls(r, wall, a, b) ::
      At(g, size, a, b) == if IsExit(wall, hExit, vExit, tExit, a, b) then PATH else WALL
  }

  /**
   * Region r has been divided, starting from grid `g0` and ending in grid `g`:
   * some walls and exits form a Level of r; without walls the cells of r are
   * as in `g0`, and with walls every room they leave has been divided in turn.
   */
  ghost predicate Divided(g0: seq<byte>, g: seq<byte>, size: Vec2, r: Rect)
    requires Shaped(g0, size) && Shaped(g, size) && r.w >= 1 && r.h >= 1
    decreases r.w + r.h
  {
    exists wall: Vec2, hExit: Vec2, vExit: Vec2, tExit: Vec2 ::
      Level(g, size, r, wall, hExit, vExit, tExit) &&
      (wall == Vec2(NONE, NONE) ==> SameIn(g0, g, size, r)) &&
      forall k | 0 <= k < |Children(r, wall)| :: Divided(g0, g, size, Children(r, wall)[k])
  }

  /** A Level depends only on the cells of r and of its border lines. */
  lemma LevelFrame(g1: seq<byte>, g2: seq<byte>, size: Vec2, r: Rect, wall: Vec2, hExit: Vec2, vExit: Vec2, tExit: Vec2)
    requires Shaped(g1, size) && Shaped(g2, size) && SameAround(g1, g2, size, r)
    requires Level(g1, size, r, wall, hExit, vExit, tExit)
    ensures Level(g2, size, r, wall, hExit, vExit, tExit)
  {
    forall c | r.x <= c < r.x + r.w
      ensures ColumnBlocked(g1, size, r, c) == ColumnBlocked(g2, size, r, c)
    {
      assert OnBorder(r, c, r.y - 1) && OnBorder(r, c, r.y + r.h);
    }
    forall c | r.y <= c < r.y + r.h
      ensures RowBlocked(g1, size, r, c) == RowBlocked(g2, size, r, c)
    {
      assert OnBorder(r, r.x - 1, c) && OnBorder(r, r.x + r.w, c);
    }
    forall a, b | InGrid(size, a, b) && OnWalls(r, wall, a, b)
      ensures At(g2, size, a, b) == At(g1, size, a, b)
    {
      WallsInside(r, wall, a, b);
    }
  }

  /** A room and its border lines lie in the region and its border lines. */
  lemma RoomAround(r: Rect, wall: Vec2, k: int, a: int, b: int)
    requires r.w >= 1 && r.h >= 1 && WallPlacement(r, wall) && 0 <= k < |Children(r, wall)|
    ensures Contains(Children(r, wall)[k], Vec2(a, b)) || OnBorder(Children(r, wall)[k], a, b) ==>
      Contains(r, Vec2(a, b)) || OnBorder(r, a, b)
  {
    ChildBorders(r, wall, k, a, b);
    WallsInside(r, wall, a, b);
    ContainsWithin(Children(r, wall)[k], r, Vec2(a, b));
  }

  /**
   * Divided depends only on the starting cells of r and on the final cells of
   * r and its border lines.
   */
  lemma {:induction false} DividedFrame(g0: seq<byte>, g1: seq<byte>, h0: seq<byte>, h1: seq<byte>, size: Vec2, r: Rect)
    requires Shaped(g0, size) && Shaped(g1, size) && Shaped(h0, size) && Shaped(h1, size)
    requires r.w >= 1 && r.h >= 1
    requires Divided(g0, g1, size, r) && SameIn(g0, h0, size, r) && SameAround(g1, h1, size, r)
    ensures Divided(h0, h1, size, r)
    decreases r.w + r.h
  {
    var wall, hExit, vExit, tExit :|
      Level(g1, size, r, wall, hExit, vExit, tExit) &&
      (wall == Vec2(NONE, NONE) ==> SameIn(g0, g1, size, r)) &&
      forall k | 0 <= k < |Children(r, wall)| :: Divided(g0, g1, size, Children(r, wall)[k]);
    LevelFrame(g1, h1, size, r, wall, hExit, vExit, tExit);
    forall k | 0 <= k < |Children(r, wall)|
      ensures Divided(h0, h1, size, Children(r, wall)[k])
    {
      var c := Children(r, wall)[k];
      forall a, b | InGrid(size, a, b) && Contains(c, Vec2(a, b))
        ensures At(g0, size, a, b) == At(h0, size, a, b)
      {
        ContainsWithin(c, r, Vec2(a, b));
      }
      forall a, b | InGrid(size, a, b) && (Contains(c, Vec2(a, b)) || OnBorder(c, a, b))
        ensures At(g1, size, a, b) == At(h1, size, a, b)
      {
        RoomAround(r, wall, k, a, b);
      }
      DividedFrame(g0, g1, h0, h1, size, c);
    }
  }

  /**
   * Recursing into room i (which changes gA into gB) leaves every other room
   * and the lines around it as they were.
   */
  lemma SiblingKeepsAround(gA: seq<byte>, gB: seq<byte>, size: Vec2, r: Rect, wall: Vec2, i: int, j: int)
    requires Shaped(gA, size) && Shaped(gB, size) && r.w >= 1 && r.h >= 1 && WallPlacement(r, wall)
    requires 0 <= i < |Children(r, wall)| && 0 <= j < |Children(r, wall)| && i != j
    requires SameOutside(gA, gB, size, Children(r, wall)[i])
    ensures SameAround(gA, gB, size, Children(r, wall)[j])
  {
    var c := Children(r, wall)[j];
    forall a, b | InGrid(size, a, b) && (Contains(c, Vec2(a, b)) || OnBorder(c, a, b))
      ensures At(gA, size, a, b) == At(gB, size, a, b)
    {
      ChildrenDisjoint(r, wall, i, j, Vec2(a, b));
      ChildBorders(r, wall, j, a, b);
      ContainsWithin(Children(r, wall)[i], r, Vec2(a, b));
      if wall != Vec2(NONE, NONE) {
        ChildrenCover(r, wall, Vec2(a, b));
      }
    }
  }

  /**
   * Of the rooms of region r, those before room n have been divided and the
   * others are still as in `g0`.
   */
  ghost predicate DoneUpTo(g0: seq<byte>, g: seq<byte>, size: Vec2, r: Rect, wall: Vec2, n: nat)
    requires Shaped(g0, size) && Shaped(g, size) && r.w >= 1 && r.h >= 1 && WallPlacement(r, wall)
  {
    (forall k | 0 <= k < n && k < |Children(r, wall)| :: Divided(g0, g, size, Children(r, wall)[k])) &&
    (forall k | n <= k < |Children(r, wall)| :: SameIn(g0, g, size, Children(r, wall)[k]))
  }

  /** Drawing the walls and their exits leaves every room as it was. */
  lemma NoneDone(g0: seq<byte>, g: seq<byte>, size: Vec2, r: Rect, wall: Vec2)
    requires Shaped(g0, size) && Shaped(g, size) && r.w >= 1 && r.h >= 1 && WallPlacement(r, wall)
    requires forall a, b | InGrid(size, a, b) && !OnWalls(r, wall, a, b) :: At(g, size, a, b) == At(g0, size, a, b)
    ensures DoneUpTo(g0, g, size, r, wall, 0)
  {
    forall k, a, b | 0 <= k < |Children(r, wall)| && InGrid(size, a, b) && Contains(Children(r, wall)[k], Vec2(a, b))
      ensures At(g0, size, a, b) == At(g, size, a, b)
    {
      ChildrenCover(r, wall, Vec2(a, b));
    }
  }

  /** Dividing room i from gA into gB, and nothing else, moves DoneUpTo on by one room. */
  lemma StepChild(g0: seq<byte>, gA: seq<byte>, gB: seq<byte>, size: Vec2, r: Rect, wall: Vec2, i: nat)
    requires Shaped(g0, size) && Shaped(gA, size) && Shaped(gB, size)
    requires r.w >= 1 && r.h >= 1 && WallPlacement(r, wall) && i < |Children(r, wall)|
    requires DoneUpTo(g0, gA, size, r, wall, i)
    requires Divided(gA, gB, size, Children(r, wall)[i]) && SameOutside(gA, gB, size, Children(r, wall)[i])
    ensures DoneUpTo(g0, gB, size, r, wall, i + 1)
  {
    var kids := Children(r, wall);
    forall k | 0 <= k < |kids| && k != i
      ensures SameAround(gA, gB, size, kids[k])
    {
      SiblingKeepsAround(gA, gB, size, r, wall, i, k);
    }
    forall k | 0 <= k < i
      ensures Divided(g0, gB, size, kids[k])
    {
      DividedFrame(g0, gA, g0, gB, size, kids[k]);
    }
    DividedFrame(gA, gB, g0, gB, size, kids[i]);
  }

  /**
   * One level drawn on g0, with every room divided afterwards and nothing
   * changed outside the region, is a division of the region.
   */
  lemma LevelDivided(g0: seq<byte>, g: seq<byte>, size: Vec2, r: Rect, wall: Vec2, hExit: Vec2, vExit: Vec2, tExit: Vec2)
    requires Shaped(g0, size) && Shaped(g, size) && r.w >= 1 && r.h >= 1
    requires WallPlacement(r, wall) && (Degenerate(r) ==> wall == Vec2(NONE, NONE))
    requires !Degenerate(r) ==> (wall.x == NONE <==> forall c | r.x < c < r.x + r.w - 1 :: ColumnBlocked(g0, size, r, c))
    requires !Degenerate(r) ==> (wall.y == NONE <==> forall c | r.y < c < r.y + r.h - 1 :: RowBlocked(g0, size, r, c))
    requires wall.x != NONE ==> !ColumnBlocked(g0, size, r, wall.x)
    requires wall.y != NONE ==> !RowBlocked(g0, size, r, wall.y)
    requires ExitsPlaced(r, wall, hExit, vExit, tExit)
    requires forall a, b | InGrid(size, a, b) && OnWalls(r, wall, a, b) ::
      At(g, size, a, b) == if IsExit(wall, hExit, vExit, tExit, a, b) then PATH else WALL
    requires SameOutside(g0, g, size, r)
    requires wall == Vec2(NONE, NONE) ==> g == g0
    requires DoneUpTo(g0, g, size, r, wall, |Children(r, wall)|)
    ensures Divided(g0, g, size, r)
  {
    forall c | r.x <= c < r.x + r.w
      ensures ColumnBlocked(g0, size, r, c) == ColumnBlocked(g, size, r, c)
    {
      assert OnBorder(r, c, r.y - 1) && OnBorder(r, c, r.y + r.h);
    }
    forall c | r.y <= c < r.y + r.h
      ensures RowBlocked(g0, size, r, c) == RowBlocked(g, size, r, c)
    {
      assert OnBorder(r, r.x - 1, c) && OnBorder(r, r.x + r.w, c);
    }
    assert Level(g, size, r, wall, hExit, vExit, tExit);
  }

  /**
   * How far subdivide has got in region r after recursing into the rooms
   * before room n: from the start grid `g0`, through `g2` (walls and exits
   * drawn), to the current grid `g`.  Only the region changed and only tiles
   * were written; the rooms still to come are Bordered; the wall lines are as
   * in `g2`; the rooms before n are divided and the others untouched.
   */
  ghost predicate Progress(g0: seq<byte>, g2: seq<byte>, g: seq<byte>, size: Vec2, r: Rect, wall: Vec2, n: nat)
    requires Shaped(g0, size) && Shaped(g2, size) && Shaped(g, size)
    requires r.w >= 1 && r.h >= 1 && WallPlacement(r, wall)
  {
    SameOutside(g0, g, size, r) && OnlyTiles(g0, g, size) && ChildrenBordered(g, size, r, wall, n) &&
    WallsKept(g2, g, size, r, wall) && DoneUpTo(g0, g, size, r, wall, n)
  }

  /**
   * Drawing the walls (g0 to g1) and then the exits (g1 to g2) of region r
   * starts Progress at room 0 and leaves the wall lines WALL except at the
   * exits, which are PATH.
   */
  lemma AfterCut(g0: seq<byte>, g1: seq<byte>, g2: seq<byte>, size: Vec2, r: Rect, wall: Vec2,
                 hExit: Vec2, vExit: Vec2, tExit: Vec2)
    requires Shaped(g0, size) && Shaped(g1, size) && Shaped(g2, size)
    requires Fits(r, size) && WallPlacement(r, wall)
    requires Bordered(g0, size, r)
    requires forall a, b | InGrid(size, a, b) ::
      At(g1, size, a, b) == if OnWalls(r, wall, a, b) then WALL else At(g0, size, a, b)
    requires ExitsPlaced(r, wall, hExit, vExit, tExit)
    requires forall a, b | InGrid(size, a, b) ::
      At(g2, size, a, b) == if IsExit(wall, hExit, vExit, tExit, a, b) then PATH else At(g1, size, a, b)
    ensures Progress(g0, g2, g2, size, r, wall, 0)
    ensures forall a, b | InGrid(size, a, b) && OnWalls(r, wall, a, b) ::
      At(g2, size, a, b) == if IsExit(wall, hExit, vExit, tExit, a, b) then PATH else WALL
  {
    KidsBordered(g0, g1, g2, size, r, wall, hExit, vExit, tExit);
    forall a, b | InGrid(size, a, b) && !OnWalls(r, wall, a, b)
      ensures At(g2, size, a, b) == At(g0, size, a, b)
    {
      ExitsOnWalls(r, wall, hExit, vExit, tExit, a, b);
    }
    forall a, b | InGrid(size, a, b) && !Contains(r, Vec2(a, b))
      ensures At(g2, size, a, b) == At(g0, size, a, b)
    {
      WallsInside(r, wall, a, b);
    }
    NoneDone(g0, g2, size, r, wall);
  }

  /** Recursing into room i (gA to gB) moves Progress on by one room. */
  lemma ChildDone(g0: seq<byte>, g2: seq<byte>, gA: seq<byte>, gB: seq<byte>, size: Vec2, r: Rect, wall: Vec2, i: nat)
    requires Shaped(g0, size) && Shaped(g2, size) && Shaped(gA, size) && Shaped(gB, size)
    requires r.w >= 1 && r.h >= 1 && WallPlacement(r, wall) && wall != Vec2(NONE, NONE)
    requires i < |Children(r, wall)| && Progress(g0, g2, gA, size, r, wall, i)
    requires SameOutside(gA, gB, size, Children(r, wall)[i]) && OnlyTiles(gA, gB, size)
    requires Divided(gA, gB, size, Children(r, wall)[i])
    ensures Progress(g0, g2, gB, size, r, wall, i + 1)
  {
    AfterChild(g0, gA, gB, size, r, wall, i);
    WallsKeptAfterChild(g2, gA, gB, size, r, wall, i);
    StepChild(g0, gA, gB, size, r, wall, i);
  }

  /**
   * subdivide: draws the walls and exits of a region, then recurses into the
   * rooms they leave.  The ghost results are the walls and exits of this level.
   * The walls are those generate_walls promises, and the exits those
   * generate_exits promises.  After the recursion the wall lines are still WALL
   * except at the exits, which are PATH.  No cell outside the region changes,
   * only WALL and PATH tiles are written, and a region without a wall spot is
   * left as it was.  Divided states the same of every room, all the way down.
   */
  method Subdivide(grid: array<byte>, size: Vec2, rect: Rect, rng: Rng)
    returns (ghost wall: Vec2, ghost hExit: Vec2, ghost vExit: Vec2, ghost tExit: Vec2)
    requires Shaped(grid[..], size) && Fits(rect, size) && Bordered(grid[..], size, rect)
    modifies grid, rng
    ensures Shaped(grid[..], size)
    ensures WallPlacement(rect, wall)
    ensures Degenerate(rect) ==> wall == Vec2(NONE, NONE)
    ensures !Degenerate(rect) ==>
      (wall.x == NONE <==> forall c | rect.x < c < rect.x + rect.w - 1 :: ColumnBlocked(old(grid[..]), size, rect, c))
    ensures !Degenerate(rect) ==>
      (wall.y == NONE <==> forall c | rect.y < c < rect.y + rect.h - 1 :: RowBlocked(old(grid[..]), size, rect, c))
    ensures wall.x != NONE ==> !ColumnBlocked(old(grid[..]), size, rect, wall.x)
    ensures wall.y != NONE ==> !RowBlocked(old(grid[..]), size, rect, wall.y)
    ensures ExitsPlaced(rect, wall, hExit, vExit, tExit)
    ensures forall a, b | InGrid(size, a, b) && OnWalls(rect, wall, a, b) ::
      At(grid[..], size, a, b) == if IsExit(wall, hExit, vExit, tExit, a, b) then PATH else WALL
    ensures SameOutside(old(grid[..]), grid[..], size, rect)
    ensures OnlyTiles(old(grid[..]), grid[..], size)
    ensures wall == Vec2(NONE, NONE) ==> grid[..] == old(grid[..])
    ensures Divided(old(grid[..]), grid[..], size, rect)
    decreases rect.w + rect.h, 1
  {
    ghost var g0 := grid[..];
    var w := GenerateWalls(grid, size, rect, rng);
    wall := w;
    hExit, vExit, tExit := Vec2(NONE, NONE), Vec2(NONE, NONE), Vec2(NONE, NONE);
    if w.x == NONE && w.y == NONE {
      assert grid[..] == g0 by {
        forall i | 0 <= i < grid.Length ensures grid[i] == g0[i] {
          CellOfIndex(size, i);
          assert At(grid[..], size, i % size.x, i / size.x) == grid[i];
        }
      }
      LevelDivided(g0, grid[..], size, rect, wall, hExit, vExit, tExit);
      return;
    }
    ghost var g1 := grid[..];
    var h, v, t := GenerateExits(grid, size, rect, w, rng);
    hExit, vExit, tExit := h, v, t;
    ghost var g2 := grid[..];
    AfterCut(g0, g1, g2, size, rect, wall, hExit, vExit, tExit);

    SubdivideRooms(grid, size, rect, w, rng, g0, g2);
    LevelDivided(g0, grid[..], size, rect, wall, hExit, vExit, tExit);
  }

  /**
   * The second half of subdivide: the recursion into the rooms the walls left,
   * in the order of Children.  Starting from Progress at room 0 it ends with
   * every room divided and the wall lines as they were.
   */
  method SubdivideRooms(grid: array<byte>, size: Vec2, rect: Rect, wall: Vec2, rng: Rng,
                        ghost g0: seq<byte>, ghost g2: seq<byte>)
    requires Shaped(g0, size) && Shaped(g2, size) && Shaped(grid[..], size) && Fits(rect, size)
    requires WallPlacement(rect, wall) && wall != Vec2(NONE, NONE)
    requires Progress(g0, g2, grid[..], size, rect, wall, 0)
    modifies grid, rng
    ensures Shaped(grid[..], size) && Progress(g0, g2, grid[..], size, rect, wall, |Children(rect, wall)|)
    decreases rect.w + rect.h, 0
  {
    var rects := Children(rect, wall);
    // one wall: two rooms; both walls: four rooms
    // the rooms' own walls and exits are not passed on
    ghost var gA := grid[..];
    ghost var kw, kh, kv, kt := Subdivide(grid, size, rects[0], rng);
    ChildDone(g0, g2, gA, grid[..], size, rect, wall, 0);
    ghost var gB := grid[..];
    kw, kh, kv, kt := Subdivide(grid, size, rects[1], rng);
    ChildDone(g0, g2, gB, grid[..], size, rect, wall, 1);
    if wall.x != NONE && wall.y != NONE {
      ghost var gC := grid[..];
      kw, kh, kv, kt := Subdivide(grid, size, rects[2], rng);
      ChildDone(g0, g2, gC, grid[..], size, rect, wall, 2);
      ghost var gD := grid[..];
      kw, kh, kv, kt := Subdivide(grid, size, rects[3], rng);
      ChildDone(g0, g2, gD, grid[..], size, rect, wall, 3);
    }
  }

  /**
   * A grid that is not degenerate has at least one wall, and a wall keeps a
   * WALL tile that no exit cuts: the crossing, or a cell of a lone wall beside
   * its exit.
   */
  lemma WallTileExists(g: seq<byte>, size: Vec2, wall: Vec2, hExit: Vec2, vExit: Vec2, tExit: Vec2)
    requires Shaped(g, size) && Fits(GridRect(size), size) && !Degenerate(GridRect(size))
    requires (wall.x != NONE <==> size.x >= 3) && (wall.y != NONE <==> size.y >= 3)
    requires WallPlacement(GridRect(size), wall) && ExitsPlaced(GridRect(size), wall, hExit, vExit, tExit)
    requires forall a, b | InGrid(size, a, b) && OnWalls(GridRect(size), wall, a, b) ::
      At(g, size, a, b) == if IsExit(wall, hExit, vExit, tExit, a, b) then PATH else WALL
    ensures exists i :: 0 <= i < |g| && g[i] == WALL
  {
    var p :=
      if wall.x != NONE && wall.y != NONE then wall
      else if wall.x != NONE then Vec2(wall.x, if hExit.y == 0 then 1 else 0)
      else Vec2(if vExit.x == 0 then 1 else 0, wall.y);
    assert InGrid(size, p.x, p.y) && OnWalls(GridRect(size), wall, p.x, p.y);
    assert !IsExit(wall, hExit, vExit, tExit, p.x, p.y);
    IndexInBuffer(size, p.x, p.y);
    assert g[p.x + p.y * size.x] == At(g, size, p.x, p.y) == WALL;
  }

  /** OnlyTiles, read on buffer indices. */
  lemma TilesInBuffer(g0: seq<byte>, g1: seq<byte>, size: Vec2)
    requires size.x >= 1 && OnlyTiles(g0, g1, size)
    ensures forall i | 0 <= i < |g1| :: g1[i] == g0[i] || g1[i] == WALL || g1[i] == PATH
  {
    forall i | 0 <= i < |g1|
      ensures g1[i] == g0[i] || g1[i] == WALL || g1[i] == PATH
    {
      CellOfIndex(size, i);
      assert At(g1, size, i % size.x, i / size.x) == g1[i];
      assert At(g0, size, i % size.x, i / size.x) == g0[i];
    }
  }

  /**
   * generate_maze: recursive division of the whole width x height grid.  The
   * ghost results are the walls and exits of the top level.  Since nothing lies
   * outside the grid, no line of it is blocked: a grid that is not degenerate
   * gets a vertical wall when it is at least 3 wide and a horizontal wall when
   * it is at least 3 high.  Those walls end WALL except at their exits, which
   * are PATH.  Every cell ends as it was or as a WALL or PATH tile, so a buffer
   * the caller filled with PATH ends fully covered.  A grid too small to split
   * is left as it was, and any other grid receives at least one wall tile.
   */
  method GenerateMaze(grid: array<byte>, width: int, height: int, rng: Rng)
    returns (ghost wall: Vec2, ghost hExit: Vec2, ghost vExit: Vec2, ghost tExit: Vec2)
    requires width >= 1 && height >= 1 && grid.Length == width * height
    modifies grid, rng
    ensures forall i | 0 <= i < grid.Length :: grid[i] == old(grid[i]) || grid[i] == WALL || grid[i] == PATH
    ensures Degenerate(Rect(0, 0, width, height)) ==> wall == Vec2(NONE, NONE) && grid[..] == old(grid[..])
    ensures !Degenerate(Rect(0, 0, width, height)) ==>
      (wall.x != NONE <==> width >= 3) && (wall.y != NONE <==> height >= 3)
    ensures WallPlacement(Rect(0, 0, width, height), wall)
    ensures ExitsPlaced(Rect(0, 0, width, height), wall, hExit, vExit, tExit)
    ensures forall a, b | InGrid(Vec2(width, height), a, b) && OnWalls(Rect(0, 0, width, height), wall, a, b) ::
      At(grid[..], Vec2(width, height), a, b) == if IsExit(wall, hExit, vExit, tExit, a, b) then PATH else WALL
    ensures !Degenerate(Rect(0, 0, width, height)) ==> exists i :: 0 <= i < grid.Length && grid[i] == WALL
    ensures Divided(old(grid[..]), grid[..], Vec2(width, height), Rect(0, 0, width, height))
  {
    var size := Vec2(width, height);
    var rect := Rect(0, 0, width, height);
    ghost var g0 := grid[..];
    // the lines around the whole grid lie outside it
    assert Bordered(grid[..], size, rect);
    if width >= 3 {
      assert !ColumnBlocked(g0, size, rect, 1);
    }
    if height >= 3 {
      assert !RowBlocked(g0, size, rect, 1);
    }
    wall, hExit, vExit, tExit := Subdivide(grid, size, rect, rng);
    if !Degenerate(rect) {
      WallTileExists(grid[..], size, wall, hExit, vExit, tExit);
    }
    TilesInBuffer(g0, grid[..], size);
  }
}
