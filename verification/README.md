# Maze-Generator: recursive division, modelled in Dafny

This project models the maze generator of `maze_generator.c`. The generator
fills a `width x height` byte grid with WALL (`'1'`) and PATH (`'0'`) tiles
using recursive division:

- `generate_walls` picks at most one vertical and one horizontal wall strictly
  inside the current region. It never places a wall in line with an opening
  in the cells bordering the region, and it draws the walls across the region.
- `generate_exits` cuts one opening through each wall, never at the crossing.
  When both walls exist it also cuts a third opening, on the far side of the
  crossing from the first opening on the same wall.
- `subdivide` recurses into the two or four rooms the walls leave.
- `generate_maze` starts this on the whole grid.

The modules follow the source:

| module | file | models |
|---|---|---|
| `Geometry` | `geometry.dfy` | `vec2_t`, `rect_t` and their helpers |
| `Random` | `random.dfy` | `generate_64bit_value` and the redraw loops built on it |
| `Grid` | `grid.dfy` | the buffer, cell `(x, y)` at index `x + y * width` |
| `Walls` | `walls.dfy` | `generate_walls` |
| `Exits` | `exits.dfy` | `generate_exits` |
| `Maze` | `maze.dfy` | `subdivide` and `generate_maze` |

The C code changes the grid in place, so the model does too:

- The grid is an `array<byte>`.
- Every routine that writes it is a method with `modifies grid`.
- `Grid.SetCell`, `Walls.DrawRow`, `Walls.DrawColumn`, `Walls.GenerateWalls`
  and `Exits.GenerateExits` each state their whole new grid in terms of the
  old one.
- `Maze.Subdivide` and `Maze.GenerateMaze` state a frame and the tiles
  written. They also state the walls and exits of their own level, returned
  as ghost results, and what those wall lines hold once the recursion is
  done.
- Both also ensure `Maze.Divided`, which carries the same facts into every
  room, all the way down. It is a recursive predicate on the start and end
  grids. For some walls and exits, the region satisfies `Maze.Level`: the
  walls are placed as `generate_walls` places them, the exits as
  `generate_exits` places them, and the wall lines hold WALL except at the
  exits. A region without walls is left as it was, and every room the walls
  leave is `Divided` in turn.

Randomness comes from an `Rng` object, which models the state behind
`rand()`. It hands out the draws of a fixed stream `nat -> nat`, so every
run of the generator is a function of that stream.

`Walls.Bordered` is the key invariant. It says that each of the four lines
of cells just outside a region holds at most one opening.

- It holds for the whole grid, whose border lines lie outside it.
- `Maze.KidsBordered` proves that it holds again for every room `subdivide`
  recurses into.
- Under it, a region has at most two blocked columns and two blocked rows
  (`Walls.BlockedColumnsFew`). That is why the source's two-slot arrays
  `vert_x` / `horz_y` (written through `j++`) never overflow.

## Model

| member | source | states |
|---|---|---|
| Geometry.Add | maze_generator.c:22-25 | subtracting either operand from the sum gives back the other one |
| Geometry.Sub | maze_generator.c:31-34 | the difference is the zero vector exactly when the operands are equal |
| Geometry.Eq | maze_generator.c:40-42 | the component-wise test is true exactly when the two points are equal |
| Geometry.Contains | maze_generator.c:48-52 | the half-open test `x <= p.x < x + w` and `y <= p.y < y + h`, characterised by `Geometry.ContainsUnitCell` |
| Geometry.ContainsUnitCell | maze_generator.c:48-52 | a point is contained exactly when its unit cell lies inside the rectangle, so an empty rectangle contains nothing |
| Geometry.ContainsWithin | maze_generator.c:48-52 | a point contained in a sub-rectangle is contained in the enclosing rectangle |
| Random.Generate64 | maze_generator.c:60-73 | an empty range (`low > high`) yields 0; otherwise the result lies in `[low, high]` |
| Random.Generate64Covers | maze_generator.c:71 | every value of a non-empty range is produced by some raw draw |
| Random.AllowedValues | maze_generator.c:117-119 | the values a redraw loop can end on: exactly the range minus the rejected values, in increasing order |
| Random.ChooseAvoiding | maze_generator.c:214-216 | the redraw loop's result is in the range and is none of the rejected values |
| Random.ChooseAvoidingCovers | maze_generator.c:230-232 | every value in the range that is not rejected can come out of the redraw loop |
| Random.Rng.Next | maze_generator.c:247 | each random value consumes the next draw of the stream and advances it by one. A draw stands for one random outcome of the source, not for one `rand()` call. It is the result of a whole do-while redraw loop (lines 117-119, 159-161, 214-216 and 230-232), the value of one `generate_64bit_value` call for the third exit (line 258 or 268), or the `rand() % 2` of line 247. So the stream does not line up with the sequence of `rand()` calls |
| Grid.IndexInBuffer | maze_generator.c:104-105 | the index `x + y * width` of an in-grid cell lies inside the buffer |
| Grid.IndexInjective | maze_generator.c:173 | distinct in-grid cells have distinct buffer indices |
| Grid.CellOfIndex | maze_generator.c:345-349 | every buffer index is the index of cell `(i % width, i / width)` |
| Grid.SetCell | maze_generator.c:218 | writing one tile changes that cell and no other |
| Walls.WallsInside | maze_generator.c:171-180 | the cells of walls placed strictly inside a region belong to that region |
| Walls.AvailableColumnsPositive | maze_generator.c:109-116 | the count of free columns is positive exactly when some interior column does not face an opening above or below |
| Walls.AvailableRowsPositive | maze_generator.c:150-158 | the count of free rows is positive exactly when some interior row does not face an opening left or right |
| Walls.BlockedColumnsFew | maze_generator.c:91-113 | while a region is bordered, a third blocked column cannot occur, so `vert_x` never takes a third entry |
| Walls.BlockedRowsFew | maze_generator.c:131-154 | the same bound for `horz_y` |
| Walls.ColumnTest | maze_generator.c:101-109 | the source's test at a column (each neighbour off-grid or WALL) holds exactly when the column is not blocked |
| Walls.RowTest | maze_generator.c:141-150 | the source's test at a row holds exactly when the row is not blocked |
| Walls.ScanColumns | maze_generator.c:90-114 | the loop counts exactly the free interior columns and records every blocked one, in at most two slots |
| Walls.ScanRows | maze_generator.c:130-155 | the loop counts exactly the free interior rows and records every blocked one, in at most two slots |
| Walls.ChooseColumn | maze_generator.c:115-127 | the result is NONE exactly when every interior column is blocked; otherwise it is a free interior column |
| Walls.ChooseRow | maze_generator.c:157-169 | the result is NONE exactly when every interior row is blocked; otherwise it is a free interior row |
| Walls.DrawRow | maze_generator.c:171-175 | the region's cells on row `wall.y` become WALL; nothing else changes |
| Walls.DrawColumn | maze_generator.c:176-180 | the region's cells on column `wall.x` become WALL; nothing else changes |
| Walls.GenerateWalls | maze_generator.c:83-182 | degenerate regions (2x2, one cell wide or high) get no walls; otherwise each wall is present exactly when a free line exists and then sits on one; the new grid is the old one with the wall cells set to WALL |
| Walls.WrappedCountIsMod | maze_generator.c:110 | an 8-bit counter incremented n times from 0 holds n mod 256 |
| Walls.VerticalWallAsWritten | maze_generator.c:116 | the as-written decision draws a vertical wall exactly when the region is not degenerate and the true count of free columns is not a multiple of 256 |
| Walls.HorizontalWallAsWritten | maze_generator.c:158 | the same for the horizontal wall and the count of free rows |
| Walls.WholeGridColumnsAvailable | maze_generator.c:100-109 | in the region covering the whole grid no column is blocked |
| Walls.WholeGridRowsAvailable | maze_generator.c:140-150 | in the region covering the whole grid no row is blocked |
| Walls.SpotCounterWraps | maze_generator.c:90-161 | on a 258 x 258 grid all 256 interior columns and all 256 interior rows are free, yet both 8-bit counts are 0 and neither wall is drawn |
| Exits.OppositeRange | maze_generator.c:248-268 | the third exit's sampling range is non-empty, inside the wall's span, and strictly on the other side of the crossing from the existing exit |
| Exits.ExitsOnWalls | maze_generator.c:205-234 | every exit is a cell of the region lying on one of the walls |
| Exits.CrossingStaysWall | maze_generator.c:214-216 | the crossing of the two walls is never cut open |
| Exits.ExitsDistinct | maze_generator.c:243-270 | with both walls present, the three exits are three different cells |
| Exits.ThirdExit | maze_generator.c:246-269 | the third exit lies on one of the two walls, inside the region, strictly on the far side of the crossing from that wall's first exit |
| Exits.GenerateExits | maze_generator.c:193-279 | exits lie on their walls, inside the region, away from the crossing, with the third on the far side; the new grid is the old one with the exit cells set to PATH |
| Maze.Children | maze_generator.c:312-342 | no wall gives no rooms, one wall two, two walls four; each room is non-empty, inside the parent and smaller in `w + h` |
| Maze.ChildrenSmaller | maze_generator.c:314-337 | every room has strictly smaller area than its parent |
| Maze.ChildrenDisjoint | maze_generator.c:332-337 | no cell lies in two rooms |
| Maze.ChildrenCover | maze_generator.c:314-337 | the rooms and the wall lines together are exactly the parent region, and no room contains a wall cell |
| Maze.ChildBorders | maze_generator.c:332-337 | a room's border cell is a border cell of the parent or a wall cell |
| Maze.KidsBordered | maze_generator.c:292-342 | after walls and exits, every room `subdivide` recurses into is bordered again |
| Maze.SiblingUntouched | maze_generator.c:338-341 | subdividing one room keeps its siblings bordered |
| Maze.InsideChild | maze_generator.c:338-341 | changes confined to a room are confined to the parent region |
| Maze.WallsKeptAfterChild | maze_generator.c:338-341 | recursing into a room leaves every cell of the enclosing walls as it was |
| Maze.LevelFrame | maze_generator.c:292-304 | one level of division depends only on the cells of the region and of the lines around it |
| Maze.RoomAround | maze_generator.c:332-337 | a room and the lines around it lie in the parent region and the lines around it |
| Maze.DividedFrame | maze_generator.c:287-343 | a division of a region depends only on the region's starting cells and on the final cells of the region and the lines around it |
| Maze.SiblingKeepsAround | maze_generator.c:338-341 | recursing into one room leaves every other room, and the lines around it, as they were |
| Maze.NoneDone | maze_generator.c:292-309 | drawing the walls and exits changes no cell of any room |
| Maze.StepChild | maze_generator.c:338-341 | dividing room i, and nothing outside it, keeps the earlier rooms divided and the later rooms as they were |
| Maze.AfterCut | maze_generator.c:292-309 | after the walls and exits are drawn, every room is bordered and untouched, and the wall lines are WALL except at the exits |
| Maze.ChildDone | maze_generator.c:338-341 | recursing into room i moves `Progress` on by one room |
| Maze.LevelDivided | maze_generator.c:287-343 | one level drawn as generate_walls and generate_exits promise, with every room divided afterwards and nothing changed outside, is a division of the region |
| Maze.Subdivide | maze_generator.c:287-343 | this level's walls are placed as generate_walls promises: absent in degenerate regions, present exactly when a free line exists, never facing an outside opening. Its exits are placed as generate_exits promises. After the recursion every wall cell is PATH at an exit and WALL elsewhere. No cell outside the region changes, every cell is unchanged or WALL or PATH, and a region without walls is left as it was. The region ends `Divided`: every room, recursively, obeys the same rules, judged on the grid as it was when that room's walls were drawn |
| Maze.SubdivideRooms | maze_generator.c:310-342 | recursing into the two or four rooms in order, starting from `Progress` at room 0, ends with every room `Divided`, the wall lines as they were, nothing outside the region changed and only tiles written |
| Maze.WallTileExists | maze_generator.c:345-348 | a non-degenerate grid with its walls and exits as generate_maze leaves them holds a WALL tile |
| Maze.TilesInBuffer | maze_generator.c:345-349 | the cell-wise "unchanged, WALL or PATH" holds at every buffer index |
| Maze.GenerateMaze | maze_generator.c:345-349 | a degenerate grid gets no walls and is left unchanged. Any other grid gets a vertical wall exactly when it is at least 3 wide and a horizontal wall exactly when it is at least 3 high. Those wall lines end PATH at their exits and WALL elsewhere, so the grid holds at least one WALL. Every cell ends unchanged, WALL or PATH, so a buffer filled with PATH ends fully covered. The whole grid ends `Divided` |

## Left out

- `fprint_grid` (maze_generator.c:351-359) and the `DEBUG_MAZE` `fprintf` blocks are output-stream I/O and are not modelled. So is the `iter` parameter of `subdivide`, which only feeds that debug output.
- The body of `generate_64bit_value` that builds a 64-bit value from eight `rand()` chunks is not modelled.
  - That value is the `raw: nat` parameter of `Random.Generate64`, taken from `Rng`.
  - The signed shifts can overflow, and C's `%` on a negative value truncates; neither is modelled.
  - `Random.Generate64` reduces a non-negative draw into the range.
- `Random.Generate64` keeps the source's guard `llabs(low) + llabs(high) <= 0`. That guard only fires when `low == high == 0`, not on the range overflow its comment describes. The model follows the code.
- `rand() % 2` for the third exit's orientation is one more draw from `Rng`, tested with `% 2`.
- The do-while loops that redraw until a value avoids the forbidden ones are modelled as one pick among the allowed values (`Random.ChooseAvoiding`). Over a uniform source, the loop and the pick give the same distribution. The model does not say how many draws the loop consumes.
- Random.Rng.Next: the stream of draws is not the sequence of `rand()` calls. A redraw loop may call `rand()` many times for its one draw, and `generate_64bit_value(0, 0)` returns 0 through its guard (line 61) without calling `rand()`, while the model still takes a draw for it.
- Maze.GenerateMaze: requires a width and a height of at least 1. The source does not check this, and a zero size writes outside the buffer. With width 0 and height 5, the rows 1 to 3 count as free, because the cells beside them lie outside the 0-wide grid. A horizontal wall is chosen, `generate_64bit_value(0, -1)` returns 0 (line 231), and line 234 writes `grid[0]` of an empty buffer. Height 0 does the same through lines 215 and 218. The model does not describe writes outside the buffer.
- `int64_t` / `size_t` overflow in the index arithmetic is out of scope. Coordinates are mathematical integers, and every region is required to lie inside the grid.
- The mutable globals `WALL_TILE` / `PATH_TILE` are the constants `Grid.WALL` (49) and `Grid.PATH` (48).
- `generate_exits` leaves out-parameters unset when a wall is absent. The model gives them the value NONE (-1) there.
- Maze.GenerateMaze: connectivity of the finished maze (every PATH cell reachable from every other) is not proved. The model proves the local facts it rests on:
  - exits never sit at a crossing;
  - walls never face an opening of the enclosing region;
  - every room is bordered.
- `maze_generator.h` holds only declarations.

## Findings

| source | as written | input that shows it | evidently intended | confidence | as-written member | corrected member |
|---|---|---|---|---|---|---|
| maze_generator.c:90,110,116 (and 130,151,158 for rows) | the free-spot counters `vert_spot_cnt` / `horz_spot_cnt` are `uint8_t`, so 256 free lines count as 0 and the wall is skipped | a 258 x 258 grid: 256 free interior columns and 256 free interior rows, both counts wrap to 0, and neither wall is drawn (`Walls.VerticalWallAsWritten`, `Walls.HorizontalWallAsWritten`) | a wall is drawn whenever at least one free line exists | not executed | Walls.SpotCounterWraps | Walls.ChooseColumn |

The rest of the model counts without bound, as `Walls.ChooseColumn` /
`Walls.ChooseRow` do. That is, a wall is drawn exactly when a free line
exists.
