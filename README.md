# Maze generator core, modelled in Dafny

This project models the core of the Archicad maze generator add-on,
`Sources/AddOn/MazeGenerator.cpp` and its header. It has three parts:

- **Grid topology.** `Maze` is a row-major vector of cells with four wall
  slots each (Left, Right, Top, Bottom), plus an id-keyed registry of walls
  and a counter that issues wall ids. It is modelled in module `Topology`
  (file `maze.dfy`) as the class `Maze`. The cell and wall value types and the
  pure direction helpers are in module `Grid` (file `grid.dfy`). The maze's
  state as a value is `Layout`, whose invariant `Valid` is the reciprocity of
  the cell/wall graph:
  - every live wall sits in the slot it was added through;
  - when the wall has a second cell, it also sits in that cell's facing slot;
  - every occupied slot names a live wall.
- **Carver.** `MazeGenerator` runs Prim's algorithm on the grid graph. It
  starts from cell 0 and keeps a frontier of walls. Each round it draws a
  frontier wall; if exactly one of the wall's cells is visited, it removes the
  wall and visits the other cell. At the end it opens the Top side of the
  first cell (the entrance) and the Bottom side of the last cell (the exit).
  It is modelled in module `Carver` (file `generator.dfy`) as the class
  `MazeGenerator`.
  - Two cells are connected (`Reachable`) when a walk of steps through open
    sides (`Passage`: both cells in the grid, no wall between them) leads from
    one to the other.
  - The carving invariant `Carving` includes `Spanned`: every visited cell is
    reachable from cell 0. Each carving step keeps it (`CarveReach`).
  - `Carved` is the state after the loop: all R·C cells visited, R·C − 1
    interior walls carved out of the 2·R·C + R + C walls Reset built, the
    border intact, and every cell reachable from cell 0.
  - `GeneratedMaze` is what `Generate` promises: the same counts with two walls
    fewer, both doors open, the rest of the border walled, and every cell
    reachable from every other cell.
- **Geometry emitter.** `WallCollector` and `Maze::GetWallGeometries`
  maintain one collector per horizontal and per vertical grid line. The
  collectors are fed the unit wall spans of a row-major scan of the cells.
  Each collector keeps a running span while the next span starts where the
  running one ends. It emits a segment at every gap and at the final flush.
  This is modelled in module `Geometry` (file `geometry.dfy`).
  - `WallCollector` is a class with the source's fields. Two ghost fields,
    `fed` and `emitted`, record the spans it received and the spans it emitted.
  - The scan is specified by `WallGeometries(m)`: for every grid line, one
    segment per maximal run of walls on that line (`LineRuns`).

Positions in the geometry are grid indices. The source scales them by
`cellSize` and compares them with a tolerance of 5e-5. On exact grid
positions that comparison is equality.

`WallCollector::AddWall` emits the running span as soon as the next span
leaves a gap, that is, during the scan. Segments of different lines therefore
interleave in the output. The model states the result as a multiset, that is,
up to order.

## Model

| member | source | states |
|---|---|---|
| Grid.GetDirectionIndex | Sources/AddOn/MazeGenerator.cpp:66-80 | The four real directions get the slot indices 0..3. `Invalid` gets `(size_t) -1`, which is outside the four slots. |
| Grid.DirectionIndexRoundTrip | Sources/AddOn/MazeGenerator.cpp:66-80 | The slot index is a bijection between the four real directions and 0..3. |
| Grid.GetOppositeDirection | Sources/AddOn/MazeGenerator.cpp:82-94 | The opposite is `Invalid` exactly for `Invalid`. It differs from the direction and points the other way on the grid (negated row and column steps). |
| Grid.OppositeIsInvolution | Sources/AddOn/MazeGenerator.cpp:82-94 | The opposite of the opposite is the direction itself. |
| Grid.Cell.New | Sources/AddOn/MazeGenerator.cpp:96-100 | A new cell has four slots and no side has a wall. |
| Grid.Cell.GetWallOwnSlot | Sources/AddOn/MazeGenerator.cpp:108-112 | `GetWall(dir)` returns the id in the one slot whose direction is `dir`, which is one of the cell's four slots. No other real direction reads that slot. |
| Grid.Cell.HasWall | Sources/AddOn/MazeGenerator.cpp:102-106 | A side has a wall exactly when its slot does not hold `InvalidWallId`. |
| Grid.Cell.AddWall | Sources/AddOn/MazeGenerator.cpp:123-127 | The slot of `dir` then holds the id, and every other slot is unchanged. |
| Grid.Cell.Without | Sources/AddOn/MazeGenerator.cpp:129-136 | Exactly the slots holding the id become `InvalidWallId`; the others are unchanged. |
| Grid.Cell.RemoveWall | Sources/AddOn/MazeGenerator.cpp:129-136 | The slot loop produces the cell `Without` the id. |
| Grid.Cell.EnumerateWalls | Sources/AddOn/MazeGenerator.cpp:114-121 | Yields the occupied slots in slot order. An id is yielded exactly when it is valid and held by some side. |
| Grid.OccupiedMembers | Sources/AddOn/MazeGenerator.cpp:114-121 | The enumerated ids are exactly the valid ids among the slots, and there are at most as many as slots. |
| Grid.Wall.GetOtherCellId | Sources/AddOn/MazeGenerator.cpp:161-169 | Gives the other cell of the wall. It gives `InvalidCellId` for a cell that is not on the wall. |
| Grid.OtherCellRoundTrip | Sources/AddOn/MazeGenerator.cpp:161-169 | On a wall between two different cells, taking the other cell twice returns the start cell. The other cell is never the cell itself. |
| Topology.CellIdIn | Sources/AddOn/MazeGenerator.cpp:223-232 | The id is valid if and only if row and column are in range. A valid id is `row * cols + col` and lies below `rows * cols`. |
| Topology.Maze.GetCellId | Sources/AddOn/MazeGenerator.cpp:223-232 | The id is valid if and only if (row, col) lies in the maze's grid. A valid id is `row * cols + col` and lies below `rows * cols`. |
| Topology.CellIdInjective | Sources/AddOn/MazeGenerator.cpp:223-232 | Two in-range positions with the same id are the same position. |
| Topology.CellIdCovers | Sources/AddOn/MazeGenerator.cpp:223-232 | Every id below `rows * cols` is the id of some position in the grid. |
| Topology.FacingInvolution | Sources/AddOn/MazeGenerator.cpp:266-276 | The neighbour's facing side of the facing side is the original side, and it belongs to a different cell. |
| Topology.Maze.constructor | Sources/AddOn/MazeGenerator.cpp:180-188 | The default maze is 0 x 0 with no walls and a counter at 0. |
| Topology.Maze.Sized | Sources/AddOn/MazeGenerator.cpp:190-198 | The sized constructor yields a valid, fully walled grid of the given size. |
| Topology.Maze.GetWallId | Sources/AddOn/MazeGenerator.cpp:234-242 | Out of range the result is `InvalidWallId`. In range it is the wall in the slot. On a valid maze that wall separates the cell from the neighbour beyond the side. |
| Topology.Maze.AddWall | Sources/AddOn/MazeGenerator.cpp:254-294 | Refuses, with `InvalidWallId` and the maze unchanged, exactly when the cell is out of range, the side is taken, or the neighbour's facing side is taken. Otherwise returns the old counter and the layout becomes `AddedWall`. Validity is kept. |
| Topology.Maze.Attach | Sources/AddOn/MazeGenerator.cpp:282-293 | On an addable side, allocates the next id and links it into the cell and the neighbour. The result is the `AddedWall` layout. |
| Topology.Layout.AddedWallSlots | Sources/AddOn/MazeGenerator.cpp:282-291 | Adding a wall fills exactly the side it is added through and the facing side with the new id. Every other slot is unchanged. |
| Topology.Layout.AddedWallValid | Sources/AddOn/MazeGenerator.cpp:282-291 | The new id is fresh, the registry grows by one, and the reciprocity invariant is kept. |
| Topology.Layout.AddedWallRegistered | Sources/AddOn/MazeGenerator.cpp:282-291 | After the addition every live wall, the new one included, sits in its slot(s) below the counter. |
| Topology.Layout.AddedWallLinked | Sources/AddOn/MazeGenerator.cpp:282-291 | After the addition every occupied slot names a live wall added through it or through the facing slot. |
| Topology.Maze.RemoveWall | Sources/AddOn/MazeGenerator.cpp:296-308 | The layout becomes `RemovedWall(wallId)` and stays valid. A missing id leaves the maze unchanged. |
| Topology.Layout.RemovedWallSlots | Sources/AddOn/MazeGenerator.cpp:296-308 | Exactly the slots that held the id become empty, and the id leaves the registry. Size, counter and all other slots are unchanged. |
| Topology.Layout.RemovedWallValid | Sources/AddOn/MazeGenerator.cpp:296-308 | Removing any id keeps the reciprocity invariant. |
| Topology.Layout.RemovedBorderWall | Sources/AddOn/MazeGenerator.cpp:296-308 | Removing the wall of a border side empties exactly that side and shrinks the registry by one. |
| Topology.Maze.Reset | Sources/AddOn/MazeGenerator.cpp:200-221 | The result is a valid grid of the requested size with a wall on every side of every cell. Shared sides share one id. The ids are 0 .. n-1 with n = 2·rows·cols + rows + cols (none when a dimension is 0). |
| Topology.ResetCountTotal | Sources/AddOn/MazeGenerator.cpp:209-220 | Reset's loops add 2·rows·cols + rows + cols walls: Left and Top for every cell, Bottom on the last row, Right on the last column. |
| Topology.Maze.BuildRow | Sources/AddOn/MazeGenerator.cpp:210-219 | One pass of Reset's column loop fills every side of the row's cells and the facing sides, and counts the ids it issues. |
| Topology.Maze.BuildSide | Sources/AddOn/MazeGenerator.cpp:211-218 | One AddWall call of Reset's scan fills the next side of the cell and its facing side. It issues exactly one new id and keeps the maze valid. |
| Topology.Maze.BuildCell | Sources/AddOn/MazeGenerator.cpp:211-218 | The AddWall calls for one cell fill its four sides. They issue 2 ids, plus 1 on the last row and 1 on the last column. |
| Topology.Layout.BuildStep | Sources/AddOn/MazeGenerator.cpp:211-218 | During Reset, each AddWall of the scan finds its side and the facing side empty, and fills them. |
| Topology.Layout.BuiltAll | Sources/AddOn/MazeGenerator.cpp:209-220 | Once the scan has passed every cell, every side of every cell holds a wall. |
| Carver.MazeGenerator.constructor | Sources/AddOn/MazeGenerator.cpp:358-364 | Keeps the requested size. The maze is a fresh valid maze, and nothing is visited or on the frontier. |
| Carver.MazeGenerator.VisitCell | Sources/AddOn/MazeGenerator.cpp:405-417 | The cell becomes visited. The frontier gains exactly the cell's live walls whose other cell exists and was not yet visited (`Exits`). |
| Carver.ExitsCollected | Sources/AddOn/MazeGenerator.cpp:408-415 | Collecting the enumerated walls that pass the neighbour test adds exactly `Exits` to the frontier. |
| Carver.MazeGenerator.SelectRandomWall | Sources/AddOn/MazeGenerator.cpp:419-428 | Returns `InvalidWallId` on an empty frontier, and otherwise some frontier wall. |
| Carver.MazeGenerator.Carve | Sources/AddOn/MazeGenerator.cpp:377-390 | The carving loop terminates with an empty frontier and keeps the `Carving` invariant (below). |
| Carver.CarveStart | Sources/AddOn/MazeGenerator.cpp:370-375 | After Reset and the visit of cell 0, the `Carving` invariant holds. It says: the maze is valid; every live wall is an original one; one wall was carved per visited cell beyond the first, all interior; the frontier holds interior walls; every side between a visited and an unvisited cell is on the frontier; and a side is still walled unless both of its cells are visited. |
| Carver.CarveStep | Sources/AddOn/MazeGenerator.cpp:384-389 | Removing a frontier wall with exactly one visited cell, and visiting its other cell, keeps `Carving` and visits one more cell. |
| Carver.CarveSkip | Sources/AddOn/MazeGenerator.cpp:384-389 | Dropping a frontier wall whose two cells are both visited (or both unvisited) keeps `Carving` and shrinks the frontier. |
| Carver.CarveReach | Sources/AddOn/MazeGenerator.cpp:384-388 | Removing a wall with exactly one visited cell keeps every visited cell reachable from cell 0, and makes the newly visited cell reachable too. |
| Carver.Connected | Sources/AddOn/MazeGenerator.cpp:377-390 | If every cell is reachable from cell 0, every cell is reachable from every other cell. |
| Carver.Stuck | Sources/AddOn/MazeGenerator.cpp:377 | While some cell is unvisited, the frontier is not empty. |
| Carver.CarveDone | Sources/AddOn/MazeGenerator.cpp:377-390 | When the frontier is empty, every cell is visited and exactly one wall per cell but one was removed. |
| Carver.Finished | Sources/AddOn/MazeGenerator.cpp:377-390 | After carving a Reset grid, all R·C cells are visited and R·C−1 interior walls were removed out of the 2·R·C + R + C that Reset built. The border is intact, R·C + R + C + 1 walls remain, and every cell is reachable from cell 0. On a non-empty grid this is `Carved`. |
| Carver.OpenDoor | Sources/AddOn/MazeGenerator.cpp:392-395 | Removing the wall of a side on the top or bottom edge empties that side and no other. It drops one wall, and every open side stays open. |
| Carver.OpenDoors | Sources/AddOn/MazeGenerator.cpp:392-395 | Removing the walls of the entrance and the exit empties exactly those two border sides and removes two walls. The rest of the border stays walled. |
| Carver.DoorsOpened | Sources/AddOn/MazeGenerator.cpp:392-395 | Opening the entrance and the exit of a walled border keeps the maze valid and drops two walls. Exactly the two door sides of the border become open. |
| Carver.DoorsOnlyOpen | Sources/AddOn/MazeGenerator.cpp:392-395 | Opening the doors only takes walls out: the walls left were there before, and every open side stays open. |
| Carver.DoorsKept | Sources/AddOn/MazeGenerator.cpp:392-395 | After the doors are opened, every cell is still reachable from every other cell. |
| Carver.Generated | Sources/AddOn/MazeGenerator.cpp:377-395 | Opening the doors of the carved maze (`Carved`) yields the maze `Generate` promises (`GeneratedMaze`). |
| Carver.MazeGenerator.OpenEntranceAndExit | Sources/AddOn/MazeGenerator.cpp:392-395 | Removes the wall on the Top side of cell (0, 0) and the wall on the Bottom side of the last cell. The new layout is `WithDoors` of the old one, and it stays valid. |
| Carver.MazeGenerator.Generate | Sources/AddOn/MazeGenerator.cpp:366-398 | Returns true with an empty frontier, and the maze is `GeneratedMaze`. It is valid and of the requested size, and every cell is visited. R·C−1 interior walls were carved out of the 2·R·C + R + C walls Reset built. Every remaining wall is one of Reset's walls that was not carved. The entrance and exit are open and every other border side is walled. R·C + R + C − 1 walls remain. Every cell is reachable from every other cell. |
| Geometry.WallCollector.constructor | Sources/AddOn/MazeGenerator.cpp:22-31 | A new collector has no running span and has been fed and has emitted nothing. |
| Geometry.WallCollector.AddWall | Sources/AddOn/MazeGenerator.cpp:33-43 | Feeds the span and keeps the collector at `Fold` of all it was fed. Earlier emissions are kept. The sink gains exactly the new emissions, drawn on the collector's line. |
| Geometry.WallCollector.Flush | Sources/AddOn/MazeGenerator.cpp:45-55 | Emits the running span, if any, and goes idle. For a collector in its invariant, everything emitted is then `Merge` of what it was fed. The sink gains exactly the new emissions. |
| Geometry.Sink.constructor | Sources/AddOn/MazeGenerator.cpp:312 | The list of segments starts empty. |
| Geometry.FoldAppend | Sources/AddOn/MazeGenerator.cpp:33-43 | Feeding one more span extends the fold of the earlier ones. |
| Geometry.FoldUnits | Sources/AddOn/MazeGenerator.cpp:33-43 | Feeding a line's unit spans in order keeps the emitted spans and the running span in the maximal-run shape of the units seen so far. |
| Geometry.MergeUnits | Sources/AddOn/MazeGenerator.cpp:33-55 | A collector fed a line's unit spans in order emits the runs of walls on the line. The runs are ordered, separated by gaps, cover exactly the walled units, and are maximal. |
| Geometry.RunsMaximal | Sources/AddOn/MazeGenerator.cpp:33-55 | Ordered spans with gaps between them that cover exactly the walled units are maximal runs. |
| Geometry.LineRuns | Sources/AddOn/MazeGenerator.cpp:310-356 | On every horizontal and vertical grid line, the spans `WallGeometries` draws are the line's maximal runs of walls, in order and with gaps between them. |
| Geometry.DrawAllAppend | Sources/AddOn/MazeGenerator.cpp:48-52 | Drawing a concatenation of spans is the concatenation of the drawings. |
| Geometry.DrawnUpdate | Sources/AddOn/MazeGenerator.cpp:48-52 | New emissions on one line add exactly their drawings to the multiset of all drawn segments. |
| Geometry.UnitsAppend | Sources/AddOn/MazeGenerator.cpp:334-345 | One more unit adds its unit span exactly when it holds a wall. |
| Geometry.HorizontalUnitsAdvance | Sources/AddOn/MazeGenerator.cpp:334-342 | Passing cell (row, col) adds its Top unit to horizontal line `row` if walled. On the last row it also adds its Bottom unit to the bottom line. |
| Geometry.VerticalUnitsAdvance | Sources/AddOn/MazeGenerator.cpp:337-345 | Passing cell (row, col) adds its Left unit to vertical line `col` if walled. In the last column it also adds its Right unit to the right line. |
| Geometry.HorizontalFedUnits | Sources/AddOn/MazeGenerator.cpp:326-347 | The cell-by-cell scan feeds every horizontal line exactly its walled units passed so far, in order. |
| Geometry.VerticalFedUnits | Sources/AddOn/MazeGenerator.cpp:326-347 | The cell-by-cell scan feeds every vertical line exactly its walled units passed so far, in order. |
| Geometry.NewCollectors | Sources/AddOn/MazeGenerator.cpp:316-324 | Creates `count` fresh, distinct collectors on consecutive lines. Each is fed nothing. |
| Geometry.StartScan | Sources/AddOn/MazeGenerator.cpp:312-324 | Creates one collector per grid line (rows + 1 horizontal, cols + 1 vertical) on one empty sink. |
| Geometry.FeedHorizontal | Sources/AddOn/MazeGenerator.cpp:334-342 | When the side is walled, the horizontal collector of the line takes the unit span. The scan state then records the span as fed to that line only, and the sink still holds exactly the drawn emissions. |
| Geometry.FeedVertical | Sources/AddOn/MazeGenerator.cpp:337-345 | When the side is walled, the vertical collector of the line takes the unit span. The scan state then records the span as fed to that line only, and the sink still holds exactly the drawn emissions. |
| Geometry.FeedCell | Sources/AddOn/MazeGenerator.cpp:334-345 | The four tests of one cell feed the unit span of each walled side to its line's collector. The sink still holds exactly the drawn emissions. |
| Geometry.CollectCell | Sources/AddOn/MazeGenerator.cpp:330-345 | Reading the cell's sides takes the collectors from the scan state before the cell to the state after it. |
| Geometry.ScanRow | Sources/AddOn/MazeGenerator.cpp:329-346 | The column loop takes the collectors from the start of the row to its end. |
| Geometry.ScanRows | Sources/AddOn/MazeGenerator.cpp:326-347 | The row loop feeds the collectors the whole grid. |
| Geometry.FlushHorizontal | Sources/AddOn/MazeGenerator.cpp:348-350 | Flushing horizontal collector k leaves it having emitted `Merge` of what it was fed. The sink gains exactly the drawing of the new emissions. |
| Geometry.FlushVertical | Sources/AddOn/MazeGenerator.cpp:351-353 | Once every horizontal collector is flushed, flushing vertical collector k leaves it having emitted `Merge` of what it was fed. The sink gains exactly the drawing of the new emissions. |
| Geometry.FlushAll | Sources/AddOn/MazeGenerator.cpp:348-353 | Flushing every horizontal and then every vertical collector leaves each having emitted `Merge` of what it was fed. The sink holds all of it, drawn. |
| Geometry.GetWallGeometries | Sources/AddOn/MazeGenerator.cpp:310-356 | The segments are, up to order, `WallGeometries` of the maze: on every grid line, one segment per maximal run of walls (see `LineRuns`). |

## Left out

- The add-on around the core is not part of this model: `AddOnMain.cpp`, the settings dialog, the settings themselves and the migration utilities.
- `std::srand`, `std::time` and `std::rand` are not modelled. The random draw in `SelectRandomWall` is a nondeterministic choice of a frontier member, so every proved property holds for every sequence of draws.
- The iteration order of `std::unordered_set` and `std::unordered_map` is not modelled. The frontier, the visited cells and the wall registry are sets and maps.
- Floating point is not modelled. Positions are integer grid indices, `cellSize` is 1, and the 5e-5 tolerance becomes exact equality. `WallGeometry` holds integers.
- 32-bit `int` overflow of `row * cols + col` and of the wall counter is not modelled; integers are unbounded.
- Topology.Mul: `rows * cols` is computed by repeated addition, which is equal to the product (`MulIsProduct`).
- Geometry.GetWallGeometries: states the segments as a multiset, not in their emission order, which interleaves lines.
- Geometry.GetWallGeometries: is a module-level method taking the maze rather than a member of `Maze`, because the collectors and the sink are separate heap objects.
- Geometry.ScanRows, Geometry.ScanRow, Geometry.CollectCell, Geometry.FeedCell, Geometry.FlushAll, Geometry.StartScan and Geometry.NewCollectors: the loops and loop bodies of `GetWallGeometries` are split into these methods.
- Geometry.FeedHorizontal, Geometry.FeedVertical, Geometry.FlushHorizontal and Geometry.FlushVertical also come from that split. The feeds take the result of the `HasWall` test as a flag and do nothing when it is false.
- Topology.Maze.Attach, Topology.Maze.BuildCell, Topology.Maze.BuildSide and Topology.Maze.BuildRow: the success path of `AddWall` and the loop bodies of `Reset` are split into these methods.
- Carver.MazeGenerator.Carve and Carver.MazeGenerator.OpenEntranceAndExit: the carving loop of `Generate` and its last four lines are split into these methods.
- Carver.MazeGenerator.Generate: proves that every cell is reachable from every other cell, and that exactly R·C − 1 interior walls are carved. These two facts imply that the carved passages form a spanning tree of the grid. That graph-theory step (a connected graph on n vertices with n − 1 edges has no cycle) is not formalised, so no lemma states that the passages have no cycle.
- Grid.Cell: is a value type. The source keeps cells by value in a `std::vector` and updates them in place. The model reassigns the element (`cells[id := cell]`), which has the same effect because cells are never aliased.
- Topology.Maze.AddWall and Topology.Maze.GetWallId: require a real direction for an in-range cell. `GetDirectionIndex(Invalid)` indexes the slot vector out of bounds, which is undefined behaviour.
- Topology.Maze.Reset and Topology.Maze.Sized: require non-negative sizes. A negative size with a positive other size makes `cells.assign` fail. A negative size with the other size 0 gives an empty grid. Two negative sizes give a grid with cells but no walls. Neither of these is modelled.
- Carver.MazeGenerator.Generate: requires at least one row and one column. With an empty grid the source visits `InvalidCellId` and indexes the cell vector out of bounds.
- Topology.Maze.RemoveWall: of an id that is not live is a no-op, as in the code. `walls[wallId]` inserts a wall with no cells, and the final erase removes it again.
- `Maze::GetCell`, `Wall::GetCellId1`, `Wall::GetCellId2` and `MazeGenerator::GetMaze` are direct field reads. The model reads the fields and states no contract for them.
- `Maze::GetWall` is `walls.at(wallId)`, which throws for an id that is not live. The model reads the registry instead, and proves that the id is live wherever it is read. In `VisitCell` this follows from `CellWallLive`. In `Carve` it follows from the frontier clause of `Carving`.
