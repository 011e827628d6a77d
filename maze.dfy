/**
  The grid topology `Maze` of Sources/AddOn/MazeGenerator.cpp: a row-major
  vector of cells, an id-keyed registry of walls and the counter that issues
  wall ids.

  The reasoning is done on `Layout`, the maze's state as a value.  Its
  invariant `Valid` is the reciprocity of the cell/wall graph: every live wall
  is stored in the slot it was added through and, when it has a second cell,
  in that cell's facing slot; every occupied slot names a live wall that was
  added through that slot or through the facing one.
 */
module Topology {
  import opened Grid

  /** A side of a cell, given by the cell's row and column and the direction. */
  datatype Slot = Slot(row: int, col: int, dir: Direction)

  /** The same side seen from the neighbouring cell. */
  function Facing(s: Slot): Slot
  {
    Slot(s.row + RowStep(s.dir), s.col + ColStep(s.dir), GetOppositeDirection(s.dir))
  }

  lemma FacingInvolution(s: Slot)
    requires s.dir != Invalid
    ensures Facing(Facing(s)) == s
    ensures Facing(s) != s && (Facing(s).row, Facing(s).col) != (s.row, s.col)
  {
    OppositeIsInvolution(s.dir);
    StepMoves(s.dir);
  }

  /** `count` rows of `size` cells: the product count * size, written out as repeated
      addition.  Grid sizes and row offsets are stated with Mul so that the solver
      treats them as plain terms; MulIsProduct ties Mul to `*`. */
  function Mul(count: nat, size: int): int
  {
    if count == 0 then 0 else Mul(count - 1, size) + size
  }

  lemma {:induction false} MulIsProduct(count: nat, size: int)
    ensures Mul(count, size) == count * size
  {
    if count > 0 {
      MulIsProduct(count - 1, size);
    }
  }

  /** For a non-negative size, Mul grows with the count. */
  lemma {:induction false} MulMonotone(a: nat, b: nat, size: int)
    requires a <= b && 0 <= size
    ensures 0 <= Mul(a, size) <= Mul(b, size)
  {
    if a < b {
      MulMonotone(a, b - 1, size);
    } else if a > 0 {
      MulMonotone(a - 1, a - 1, size);
    }
  }

  lemma RowMajorBound(rows: int, cols: int, row: nat, col: int)
    requires row < rows && 0 <= col < cols
    ensures 0 <= Mul(row, cols) + col < Mul(rows, cols)
  {
    MulMonotone(row + 1, rows, cols);
  }

  /** Maze::GetCellId for a rows x cols grid: the row-major id of (row, col), or
      InvalidCellId when the position is outside the grid. */
  function CellIdIn(rows: int, cols: int, row: int, col: int): (cellId: CellId)
    ensures cellId != InvalidCellId <==> 0 <= row < rows && 0 <= col < cols
    ensures cellId != InvalidCellId ==>
      0 <= row && 0 <= cellId < Mul(rows, cols) && cellId == Mul(row, cols) + col
  {
    if row < 0 || row >= rows then InvalidCellId
    else if col < 0 || col >= cols then InvalidCellId
    else RowMajorBound(rows, cols, row, col); Mul(row, cols) + col
  }

  /** Distinct positions of the grid have distinct ids. */
  lemma CellIdInjective(rows: int, cols: int, r1: int, c1: int, r2: int, c2: int)
    requires CellIdIn(rows, cols, r1, c1) != InvalidCellId
    requires CellIdIn(rows, cols, r1, c1) == CellIdIn(rows, cols, r2, c2)
    ensures r1 == r2 && c1 == c2
  {
    if r1 < r2 {
      MulMonotone(r1 + 1, r2, cols);
    } else if r2 < r1 {
      MulMonotone(r2 + 1, r1, cols);
    }
  }

  /** Every index of the cell vector is the id of a position of the grid. */
  lemma CellIdCovers(rows: int, cols: int, cellId: CellId)
    requires 0 <= rows && 0 <= cellId < Mul(rows, cols)
    ensures cols > 0
    ensures CellIdIn(rows, cols, cellId / cols, cellId % cols) == cellId
  {
    MulIsProduct(rows, cols);
    var row := cellId / cols;
    MulIsProduct(row, cols);
    if row >= rows {
      MulMonotone(rows, row, cols);
    }
  }

  /** Cell (r, c) comes before cell (row, col) in row-major order. */
  ghost predicate Before(r: int, c: int, row: int, col: int)
  {
    r < row || (r == row && c < col)
  }

  /** Step `step` (0 Left, 1 Top, 2 Bottom, 3 Right) of Reset's visit of cell (r, c) is
      done once the cells before (row, col) and the first `k` steps of (row, col) are. */
  ghost predicate Done(r: int, c: int, step: int, row: int, col: int, k: int)
  {
    Before(r, c, row, col) || (r == row && c == col && step < k)
  }

  /** The side Reset adds at step `k` of a cell. */
  function StepDirection(k: int): Direction
  {
    if k == 0 then Left else if k == 1 then Top else if k == 2 then Bottom else Right
  }

  /** The number of walls Reset has created once the cells before (row, col) are done:
      two per cell, one more per cell of the last column and of the last row. */
  ghost function ResetCount(rows: int, cols: int, row: nat, col: int): int
  {
    2 * (Mul(row, cols) + col)
    + (if cols > 0 then row else 0)
    + (if col == cols && cols > 0 then 1 else 0)
    + (if row == rows - 1 then col else if row == rows && rows > 0 then cols else 0)
  }

  lemma ResetCountStep(rows: int, cols: int, row: int, col: int)
    requires 0 <= row < rows && 0 <= col < cols
    ensures ResetCount(rows, cols, row, col + 1) ==
      ResetCount(rows, cols, row, col) + 2 + (if row == rows - 1 then 1 else 0)
      + (if col == cols - 1 then 1 else 0)
  {
  }

  lemma ResetCountRow(rows: int, cols: int, row: int)
    requires 0 <= row < rows && 0 <= cols
    ensures ResetCount(rows, cols, row, cols) == ResetCount(rows, cols, row + 1, 0)
  {
  }

  /** A rows x cols grid has 2 * rows * cols + rows + cols distinct sides. */
  lemma ResetCountTotal(rows: int, cols: int)
    requires 0 <= rows && 0 <= cols
    ensures rows > 0 && cols > 0 ==> ResetCount(rows, cols, rows, 0) == 2 * Mul(rows, cols) + rows + cols
    ensures rows == 0 || cols == 0 ==> ResetCount(rows, cols, rows, 0) == 0
  {
    MulIsProduct(rows, cols);
  }

  /** The state of a Maze as a value; `side` records, for every live wall, the slot
      AddWall created it through. */
  datatype Layout = Layout(rows: int, cols: int, cells: seq<Cell>, walls: map<WallId, Wall>,
                           nextWallId: WallId, side: map<WallId, Slot>)
  {
    ghost predicate Shaped()
    {
      && 0 <= rows && 0 <= cols
      && |cells| == Mul(rows, cols)
      && forall id | 0 <= id < |cells| :: cells[id].Valid()
    }

    ghost predicate InRange(row: int, col: int)
    {
      0 <= row < rows && 0 <= col < cols
    }

    /** A side of a cell of the grid. */
    ghost predicate HasSlot(s: Slot)
    {
      InRange(s.row, s.col) && s.dir != Invalid
    }

    ghost function CellId(row: int, col: int): CellId
    {
      CellIdIn(rows, cols, row, col)
    }

    ghost function CellOf(s: Slot): CellId
    {
      CellId(s.row, s.col)
    }

    /** The wall id stored in slot `s`. */
    ghost function WallAt(s: Slot): WallId
      requires Shaped() && HasSlot(s)
    {
      cells[CellOf(s)].GetWall(s.dir)
    }

    /** Live wall `w` is a wall between the cell of `s` and the neighbour beyond it. */
    ghost predicate Separates(w: WallId, s: Slot)
    {
      && w in walls
      && (walls[w] == Wall(CellOf(s), CellOf(Facing(s))) || walls[w] == Wall(CellOf(Facing(s)), CellOf(s)))
    }

    /** Live wall `w` is stored in the slot it was added through and, when that slot
        has a neighbour, in the facing slot. */
    ghost predicate Registered(w: WallId)
      requires Shaped() && w in walls && w in side
    {
      var s := side[w];
      && HasSlot(s)
      && walls[w] == Wall(CellOf(s), CellOf(Facing(s)))
      && WallAt(s) == w
      && (HasSlot(Facing(s)) ==> WallAt(Facing(s)) == w)
    }

    /** An occupied slot names a live wall added through it or through the facing slot. */
    ghost predicate SlotLinked(s: Slot)
      requires Shaped() && HasSlot(s)
    {
      var w := WallAt(s);
      w != InvalidWallId ==> w in walls && w in side && (side[w] == s || side[w] == Facing(s))
    }

    ghost predicate Valid()
    {
      && Shaped()
      && 0 <= nextWallId
      && walls.Keys == side.Keys
      && (forall w | w in walls :: 0 <= w < nextWallId && Registered(w))
      && (forall s {:trigger SlotLinked(s)} | HasSlot(s) :: SlotLinked(s))
    }

    /** Every side of every cell holds a wall. */
    ghost predicate Full()
      requires Shaped()
    {
      forall s {:trigger WallAt(s)} | HasSlot(s) :: WallAt(s) != InvalidWallId
    }

    /** The neighbour beyond a side exists exactly when the facing side is in the grid. */
    lemma FacingInGrid(s: Slot)
      requires HasSlot(s)
      ensures CellOf(Facing(s)) != InvalidCellId <==> HasSlot(Facing(s))
    {
    }

    /** The wall in an occupied slot is live and separates the cell from its neighbour;
        the neighbour holds the same id on the facing side, and on the border the
        wall's second cell is InvalidCellId. */
    lemma SlotWall(s: Slot)
      requires Valid() && HasSlot(s) && WallAt(s) != InvalidWallId
      ensures var w := WallAt(s);
        && Separates(w, s)
        && (HasSlot(Facing(s)) ==> WallAt(Facing(s)) == w)
        && (!HasSlot(Facing(s)) ==> walls[w] == Wall(CellOf(s), InvalidCellId) && side[w] == s)
    {
      var w := WallAt(s);
      assert SlotLinked(s);
      assert Registered(w);
      FacingInvolution(s);
    }

    /** Two sides of one cell never hold the same wall. */
    lemma SlotsDistinct(s1: Slot, s2: Slot)
      requires Valid() && HasSlot(s1) && HasSlot(s2) && (s1.row, s1.col) == (s2.row, s2.col)
      requires WallAt(s1) != InvalidWallId && WallAt(s1) == WallAt(s2)
      ensures s1 == s2
    {
      assert SlotLinked(s1) && SlotLinked(s2);
      FacingInvolution(s1);
      FacingInvolution(s2);
      if Facing(s1) == Facing(s2) {
        OppositeIsInvolution(s1.dir);
        OppositeIsInvolution(s2.dir);
      }
    }

    /** Every wall id in a cell's slots is a live wall. */
    lemma CellWallLive(id: CellId, w: WallId)
      requires Valid() && 0 <= id < |cells| && w in cells[id].walls && w != InvalidWallId
      ensures w in walls
    {
      CellIdCovers(rows, cols, id);
      var k :| 0 <= k < 4 && cells[id].walls[k] == w;
      var s := Slot(id / cols, id % cols, DirectionAt(k));
      assert WallAt(s) == w;
      assert SlotLinked(s);
    }

    /** Whether AddWall through `s` creates a wall: the cell is in the grid, has no wall
        on that side, and the neighbour (if any) has none on the facing side. */
    ghost predicate CanAdd(s: Slot)
      requires Shaped()
    {
      && HasSlot(s)
      && WallAt(s) == InvalidWallId
      && (HasSlot(Facing(s)) ==> WallAt(Facing(s)) == InvalidWallId)
    }

    /** The layout after Maze::AddWall creates a wall through `s`. */
    ghost function AddedWall(s: Slot): Layout
      requires Shaped() && CanAdd(s)
    {
      var here := CellOf(s);
      var there := CellOf(Facing(s));
      var cells1 := cells[here := cells[here].AddWall(s.dir, nextWallId)];
      var cells2 :=
        if there == InvalidCellId then cells1
        else cells1[there := cells1[there].AddWall(Facing(s).dir, nextWallId)];
      Layout(rows, cols, cells2, walls[nextWallId := Wall(here, there)], nextWallId + 1,
             side[nextWallId := s])
    }

    /** Adding a wall fills exactly the slot it is added through and the facing slot. */
    lemma AddedWallSlots(s: Slot)
      requires Shaped() && CanAdd(s)
      ensures var next := AddedWall(s);
        && next.Shaped() && next.rows == rows && next.cols == cols
        && forall t | HasSlot(t) ::
             next.WallAt(t) == if t == s || t == Facing(s) then nextWallId else WallAt(t)
    {
      var next := AddedWall(s);
      FacingInvolution(s);
      forall t | HasSlot(t)
        ensures next.WallAt(t) == if t == s || t == Facing(s) then nextWallId else WallAt(t)
      {
        if CellOf(t) == CellOf(s) {
          CellIdInjective(rows, cols, t.row, t.col, s.row, s.col);
        }
        if CellOf(t) == CellOf(Facing(s)) {
          CellIdInjective(rows, cols, t.row, t.col, Facing(s).row, Facing(s).col);
        }
      }
    }

    /** Adding a wall keeps the layout valid and registers the next id. */
    lemma AddedWallValid(s: Slot)
      requires Valid() && CanAdd(s)
      ensures nextWallId !in walls
      ensures AddedWall(s).Valid()
      ensures |AddedWall(s).walls| == |walls| + 1
    {
      AddedWallSlots(s);
      AddedWallRegistered(s);
      AddedWallLinked(s);
    }

    /** After adding a wall every live wall, the new one included, is registered. */
    lemma AddedWallRegistered(s: Slot)
      requires Valid() && CanAdd(s)
      ensures AddedWall(s).Shaped() && AddedWall(s).walls.Keys == AddedWall(s).side.Keys
      ensures forall w | w in AddedWall(s).walls ::
        0 <= w < AddedWall(s).nextWallId && AddedWall(s).Registered(w)
    {
      var next := AddedWall(s);
      AddedWallSlots(s);
      FacingInvolution(s);
      forall w | w in next.walls
        ensures 0 <= w < next.nextWallId && next.Registered(w)
      {
        if w != nextWallId {
          assert Registered(w);
        }
      }
    }

    /** After adding a wall every occupied slot is linked to a live wall. */
    lemma AddedWallLinked(s: Slot)
      requires Valid() && CanAdd(s)
      ensures AddedWall(s).Shaped()
      ensures forall t {:trigger AddedWall(s).SlotLinked(t)} | AddedWall(s).HasSlot(t) :: AddedWall(s).SlotLinked(t)
    {
      var next := AddedWall(s);
      AddedWallSlots(s);
      forall t | next.HasSlot(t)
        ensures next.SlotLinked(t)
      {
        assert SlotLinked(t);
      }
    }

    /** The layout after Maze::RemoveWall(w).  Removing an id that is not live changes
        nothing: the source's `walls[wallId]` inserts a wall with no cells, which
        the final erase takes out again. */
    ghost function RemovedWall(w: WallId): Layout
      requires Valid()
    {
      if w !in walls then this
      else
        assert Registered(w);
        var wall := walls[w];
        var cells1 :=
          if wall.cellId1 == InvalidCellId then cells
          else cells[wall.cellId1 := cells[wall.cellId1].Without(w)];
        var cells2 :=
          if wall.cellId2 == InvalidCellId then cells1
          else cells1[wall.cellId2 := cells1[wall.cellId2].Without(w)];
        Layout(rows, cols, cells2, walls - {w}, nextWallId, side - {w})
    }

    /** Removing a wall clears exactly the slots that held it and unregisters it. */
    lemma RemovedWallSlots(w: WallId)
      requires Valid()
      ensures var next := RemovedWall(w);
        && next.Shaped() && next.rows == rows && next.cols == cols
        && next.nextWallId == nextWallId
        && next.walls == walls - {w} && next.side == side - {w}
        && forall t | HasSlot(t) ::
             next.WallAt(t) == if WallAt(t) == w then InvalidWallId else WallAt(t)
    {
      if w in walls {
        var next := RemovedWall(w);
        assert Registered(w);
        var origin := side[w];
        FacingInvolution(origin);
        forall t | HasSlot(t)
          ensures next.WallAt(t) == if WallAt(t) == w then InvalidWallId else WallAt(t)
        {
          assert SlotLinked(t);
          if WallAt(t) == w {
            FacingInvolution(t);
          }
        }
      } else {
        forall t | HasSlot(t)
          ensures WallAt(t) == w ==> w == InvalidWallId
        {
          assert SlotLinked(t);
        }
      }
    }

    /** Removing a wall keeps the layout valid. */
    lemma RemovedWallValid(w: WallId)
      requires Valid()
      ensures RemovedWall(w).Valid()
    {
      var next := RemovedWall(w);
      RemovedWallSlots(w);
      forall v | v in next.walls
        ensures 0 <= v < next.nextWallId && next.Registered(v)
      {
        assert Registered(v);
      }
      forall t | next.HasSlot(t)
        ensures next.SlotLinked(t)
      {
        assert SlotLinked(t);
      }
    }

    /** Removing the wall of a border side (one with no neighbour beyond it) empties
        that side and no other, and drops exactly one wall. */
    lemma RemovedBorderWall(s: Slot)
      requires Valid() && HasSlot(s) && !HasSlot(Facing(s)) && WallAt(s) != InvalidWallId
      ensures var next := RemovedWall(WallAt(s));
        && next.Valid() && next.rows == rows && next.cols == cols
        && WallAt(s) in walls && next.walls == walls - {WallAt(s)}
        && |next.walls| == |walls| - 1
        && next.WallAt(s) == InvalidWallId
        && forall t | HasSlot(t) && t != s :: next.WallAt(t) == WallAt(t)
    {
      var w := WallAt(s);
      SlotWall(s);
      RemovedWallSlots(w);
      RemovedWallValid(w);
      forall t | HasSlot(t) && t != s
        ensures WallAt(t) != w
      {
        assert SlotLinked(t);
        if WallAt(t) == w {
          FacingInvolution(t);
        }
      }
    }

    /** Whether Reset has filled side `s` once the cells before (row, col) and the
        first `k` steps of (row, col) are done.  A shared side is added by the cell
        below or to the right of it; the last row adds its Bottom sides and the last
        column its Right sides. */
    ghost predicate Filled(s: Slot, row: int, col: int, k: int)
    {
      match s.dir
      case Left => Done(s.row, s.col, 0, row, col, k)
      case Top => Done(s.row, s.col, 1, row, col, k)
      case Bottom =>
        if s.row == rows - 1 then Done(s.row, s.col, 2, row, col, k)
        else Done(s.row + 1, s.col, 1, row, col, k)
      case Right =>
        if s.col == cols - 1 then Done(s.row, s.col, 3, row, col, k)
        else Done(s.row, s.col + 1, 0, row, col, k)
      case Invalid => false
    }

    /** The occupied slots are exactly the filled ones. */
    ghost predicate BuiltUpTo(row: int, col: int, k: int)
      requires Shaped()
    {
      forall s | HasSlot(s) :: WallAt(s) != InvalidWallId <==> Filled(s, row, col, k)
    }

    /** Step `k` of Reset's visit of (row, col) creates a wall and fills one more step. */
    lemma BuildStep(row: int, col: int, k: int)
      requires Valid() && InRange(row, col) && 0 <= k < 4
      requires k == 2 ==> row == rows - 1
      requires k == 3 ==> col == cols - 1
      requires BuiltUpTo(row, col, k)
      ensures CanAdd(Slot(row, col, StepDirection(k)))
      ensures AddedWall(Slot(row, col, StepDirection(k))).BuiltUpTo(row, col, k + 1)
    {
      var s := Slot(row, col, StepDirection(k));
      assert !Filled(s, row, col, k);
      if HasSlot(Facing(s)) {
        assert !Filled(Facing(s), row, col, k);
      }
      BuildFills(row, col, k);
    }

    /** The wall step `k` adds fills exactly the slots that step `k` fills. */
    lemma BuildFills(row: int, col: int, k: int)
      requires Shaped() && 0 <= nextWallId && InRange(row, col) && 0 <= k < 4
      requires k == 2 ==> row == rows - 1
      requires k == 3 ==> col == cols - 1
      requires BuiltUpTo(row, col, k) && CanAdd(Slot(row, col, StepDirection(k)))
      ensures AddedWall(Slot(row, col, StepDirection(k))).BuiltUpTo(row, col, k + 1)
    {
      var s := Slot(row, col, StepDirection(k));
      var next := AddedWall(s);
      AddedWallSlots(s);
      forall t | HasSlot(t)
        ensures next.WallAt(t) != InvalidWallId <==> Filled(t, row, col, k + 1)
      {
        FilledStep(t, row, col, k);
      }
    }

    /** Step `k` of (row, col) fills the side it adds through and the facing side. */
    lemma FilledStep(t: Slot, row: int, col: int, k: int)
      requires HasSlot(t) && InRange(row, col) && 0 <= k < 4
      requires k == 2 ==> row == rows - 1
      requires k == 3 ==> col == cols - 1
      ensures var s := Slot(row, col, StepDirection(k));
        Filled(t, row, col, k + 1) <==> Filled(t, row, col, k) || t == s || t == Facing(s)
    {
      match t.dir
      case Left =>
      case Top =>
      case Bottom =>
      case Right =>
    }

    /** Reset skips the Bottom step outside the last row and the Right step outside
        the last column; nothing is filled by them there. */
    lemma BuildSkip(row: int, col: int, k: int)
      requires Shaped() && InRange(row, col)
      requires (k == 2 && row != rows - 1) || (k == 3 && col != cols - 1)
      requires BuiltUpTo(row, col, k)
      ensures BuiltUpTo(row, col, k + 1)
    {
      forall t | HasSlot(t)
        ensures Filled(t, row, col, k + 1) == Filled(t, row, col, k)
      {
      }
    }

    /** All four steps of (row, col) done is the start of the next cell. */
    lemma BuildNext(row: int, col: int)
      requires Shaped() && InRange(row, col)
      requires BuiltUpTo(row, col, 4)
      ensures BuiltUpTo(row, col + 1, 0)
    {
      forall t | HasSlot(t)
        ensures Filled(t, row, col + 1, 0) == Filled(t, row, col, 4)
      {
      }
    }

    /** The end of a row is the start of the next row. */
    lemma BuildNextRow(row: int)
      requires Shaped() && 0 <= row < rows
      requires BuiltUpTo(row, cols, 0)
      ensures BuiltUpTo(row + 1, 0, 0)
    {
      forall t | HasSlot(t)
        ensures Filled(t, row + 1, 0, 0) == Filled(t, row, cols, 0)
      {
      }
    }

    /** Once every row is done, every side of every cell holds a wall. */
    lemma BuiltAll()
      requires Shaped() && BuiltUpTo(rows, 0, 0)
      ensures Full()
    {
      forall t | HasSlot(t)
        ensures Filled(t, rows, 0, 0)
      {
      }
    }
  }

  /** A grid of cells without walls, as Reset allocates it, is a valid layout in
      which no step of the build is done yet. */
  lemma BlankLayout(rows: int, cols: int, cells: seq<Cell>)
    requires 0 <= rows && 0 <= cols && |cells| == Mul(rows, cols)
    requires forall id | 0 <= id < |cells| :: cells[id] == Cell.New()
    ensures Layout(rows, cols, cells, map[], 0, map[]).Valid()
    ensures Layout(rows, cols, cells, map[], 0, map[]).BuiltUpTo(0, 0, 0)
  {
    var blank := Layout(rows, cols, cells, map[], 0, map[]);
    forall s | blank.HasSlot(s)
      ensures blank.WallAt(s) == InvalidWallId
    {
      assert cells[blank.CellOf(s)] == Cell.New();
    }
  }

  class Maze {
    var rows: int
    var cols: int
    var cells: seq<Cell>
    var walls: map<WallId, Wall>
    var nextWallId: WallId
    /** For every live wall, the slot AddWall created it through. */
    ghost var side: map<WallId, Slot>

    ghost function Model(): Layout
      reads this
    {
      Layout(rows, cols, cells, walls, nextWallId, side)
    }

    ghost predicate Valid()
      reads this
    {
      Model().Valid()
    }

    /** The default constructor: an empty 0 x 0 maze. */
    constructor ()
      ensures Valid() && rows == 0 && cols == 0 && walls == map[] && nextWallId == 0
    {
      rows, cols := 0, 0;
      cells, walls := [], map[];
      nextWallId := 0;
      side := map[];
    }

    /** The sized constructor, which resets to a fully walled grid. */
    constructor Sized(rowCount: int, colCount: int)
      requires 0 <= rowCount && 0 <= colCount
      ensures Valid() && Model().Full() && rows == rowCount && cols == colCount
    {
      rows, cols := 0, 0;
      cells, walls := [], map[];
      nextWallId := 0;
      side := map[];
      new;
      Reset(rowCount, colCount);
    }

    /** Maze::GetCellId: the row-major id of (row, col), or InvalidCellId outside
        the grid. */
    function GetCellId(row: int, col: int): (cellId: CellId)
      reads this
      ensures cellId != InvalidCellId <==> 0 <= row < rows && 0 <= col < cols
      ensures cellId != InvalidCellId ==> cellId < Mul(rows, cols) && cellId == Mul(row, cols) + col
    {
      CellIdIn(rows, cols, row, col)
    }

    /** Maze::GetWallId: the wall on side `dir` of the cell at (row, col). */
    function GetWallId(row: int, col: int, dir: Direction): (wallId: WallId)
      reads this
      requires Model().Shaped() && (dir != Invalid || !Model().InRange(row, col))
      ensures !Model().InRange(row, col) ==> wallId == InvalidWallId
      ensures Model().InRange(row, col) ==> wallId == Model().WallAt(Slot(row, col, dir))
      ensures Valid() && wallId != InvalidWallId ==> Model().Separates(wallId, Slot(row, col, dir))
    {
      var cellId := GetCellId(row, col);
      if cellId == InvalidCellId then InvalidWallId
      else
        var wallId := cells[cellId].GetWall(dir);
        assert Valid() && wallId != InvalidWallId ==> Model().Separates(wallId, Slot(row, col, dir)) by {
          if Valid() && wallId != InvalidWallId {
            Model().SlotWall(Slot(row, col, dir));
          }
        }
        wallId
    }

    /** Maze::AddWall: creates a wall through side `dir` of (row, col), or returns
        InvalidWallId when the cell is outside the grid or either side of the wall is
        already taken. */
    method AddWall(row: int, col: int, dir: Direction) returns (wallId: WallId)
      requires Valid() && (dir != Invalid || !Model().InRange(row, col))
      modifies this
      ensures Valid()
      ensures wallId != InvalidWallId <==> old(Model()).CanAdd(Slot(row, col, dir))
      ensures wallId == InvalidWallId ==> unchanged(this)
      ensures wallId != InvalidWallId ==>
        wallId == old(nextWallId) && Model() == old(Model()).AddedWall(Slot(row, col, dir))
    {
      ghost var before := Model();
      ghost var s := Slot(row, col, dir);
      var currCellId := GetCellId(row, col);
      if currCellId == InvalidCellId {
        return InvalidWallId;
      }
      var currCell := cells[currCellId];
      if currCell.HasWall(dir) {
        return InvalidWallId;
      }
      var nextCellId := InvalidCellId;
      var nextDirection := GetOppositeDirection(dir);
      if dir == Left {
        nextCellId := GetCellId(row, col - 1);
      } else if dir == Right {
        nextCellId := GetCellId(row, col + 1);
      } else if dir == Top {
        nextCellId := GetCellId(row - 1, col);
      } else if dir == Bottom {
        nextCellId := GetCellId(row + 1, col);
      }
      assert nextCellId == before.CellOf(Facing(s));
      before.FacingInGrid(s);
      if nextCellId != InvalidCellId && cells[nextCellId].HasWall(nextDirection) {
        return InvalidWallId;
      }
      assert before.CanAdd(s);
      wallId := Attach(row, col, dir, currCellId, nextCellId);
    }

    /** The update half of Maze::AddWall: registers the next id as a wall between
        `currCellId` and `nextCellId` and stores it on both sides. */
    method Attach(row: int, col: int, dir: Direction, currCellId: CellId, nextCellId: CellId)
      returns (wallId: WallId)
      requires Valid() && Model().CanAdd(Slot(row, col, dir))
      requires currCellId == Model().CellOf(Slot(row, col, dir))
      requires nextCellId == Model().CellOf(Facing(Slot(row, col, dir)))
      modifies this
      ensures Valid()
      ensures wallId == old(nextWallId) && Model() == old(Model()).AddedWall(Slot(row, col, dir))
    {
      ghost var before := Model();
      ghost var s := Slot(row, col, dir);
      before.FacingInGrid(s);
      var nextDirection := GetOppositeDirection(dir);
      var currCell := cells[currCellId];
      wallId := nextWallId;
      var linked := cells[currCellId := currCell.AddWall(dir, wallId)];
      if nextCellId != InvalidCellId {
        var nextCell := linked[nextCellId];
        if !nextCell.HasWall(nextDirection) {
          linked := linked[nextCellId := nextCell.AddWall(nextDirection, wallId)];
        }
      }
      assert linked == before.AddedWall(s).cells;

      nextWallId := nextWallId + 1;
      walls := walls[wallId := Wall(currCellId, nextCellId)];
      side := side[wallId := s];
      cells := linked;
      before.AddedWallValid(s);
    }

    /** Maze::RemoveWall: clears the slots holding `wallId` in the wall's cells and
        erases it from the registry. */
    method RemoveWall(wallId: WallId)
      requires Valid()
      modifies this
      ensures Valid()
      ensures Model() == old(Model()).RemovedWall(wallId)
    {
      ghost var before := Model();
      before.RemovedWallValid(wallId);
      if wallId !in walls {
        return;
      }
      assert before.Registered(wallId);
      var wall := walls[wallId];
      var cellId1 := wall.cellId1;
      if cellId1 != InvalidCellId {
        var cell := cells[cellId1].RemoveWall(wallId);
        cells := cells[cellId1 := cell];
      }
      var cellId2 := wall.cellId2;
      if cellId2 != InvalidCellId {
        var cell := cells[cellId2].RemoveWall(wallId);
        cells := cells[cellId2 := cell];
      }
      walls := walls - {wallId};
      side := side - {wallId};
    }

    /** The body of Reset's inner loop: the AddWall calls for cell (row, col). */
    method BuildCell(row: int, col: int)
      requires Valid() && Model().InRange(row, col)
      requires Model().BuiltUpTo(row, col, 0) && |walls| == nextWallId
      modifies this
      ensures Valid() && rows == old(rows) && cols == old(cols)
      ensures Model().BuiltUpTo(row, col, 4)
      ensures |walls| == nextWallId
      ensures nextWallId == old(nextWallId) + 2 + (if row == rows - 1 then 1 else 0)
                            + (if col == cols - 1 then 1 else 0)
    {
      BuildSide(row, col, 0);
      BuildSide(row, col, 1);
      if row == rows - 1 {
        BuildSide(row, col, 2);
      } else {
        Model().BuildSkip(row, col, 2);
      }
      if col == cols - 1 {
        BuildSide(row, col, 3);
      } else {
        Model().BuildSkip(row, col, 3);
      }
    }

    /** Step `k` of the visit of cell (row, col): AddWall on the side StepDirection(k),
        which creates a new wall. */
    method BuildSide(row: int, col: int, k: int)
      requires Valid() && Model().InRange(row, col) && 0 <= k < 4
      requires k == 2 ==> row == rows - 1
      requires k == 3 ==> col == cols - 1
      requires Model().BuiltUpTo(row, col, k) && |walls| == nextWallId
      modifies this
      ensures Valid() && rows == old(rows) && cols == old(cols)
      ensures Model().BuiltUpTo(row, col, k + 1)
      ensures |walls| == nextWallId && nextWallId == old(nextWallId) + 1
    {
      ghost var before := Model();
      before.BuildStep(row, col, k);
      before.AddedWallValid(Slot(row, col, StepDirection(k)));
      var wallId := AddWall(row, col, StepDirection(k));
    }

    /** One pass of the inner loop of Maze::Reset: the cells of row `row`, left to
        right. */
    method BuildRow(row: int)
      requires Valid() && 0 <= row < rows
      requires Model().BuiltUpTo(row, 0, 0)
      requires |walls| == nextWallId && nextWallId == ResetCount(rows, cols, row, 0)
      modifies this
      ensures Valid() && rows == old(rows) && cols == old(cols)
      ensures Model().BuiltUpTo(row + 1, 0, 0)
      ensures |walls| == nextWallId && nextWallId == ResetCount(rows, cols, row + 1, 0)
    {
      var col := 0;
      while col < cols
        invariant 0 <= col <= cols
        invariant Valid() && rows == old(rows) && cols == old(cols)
        invariant Model().BuiltUpTo(row, col, 0)
        invariant |walls| == nextWallId
        invariant nextWallId == ResetCount(rows, cols, row, col)
      {
        BuildCell(row, col);
        Model().BuildNext(row, col);
        ResetCountStep(rows, cols, row, col);
        col := col + 1;
      }
      Model().BuildNextRow(row);
      ResetCountRow(rows, cols, row);
    }

    /** Maze::Reset: rebuilds a fully walled rowCount x colCount grid.  Each cell adds
        its Left and Top wall, the last row its Bottom walls and the last column its
        Right walls, so every shared side is created once. */
    method Reset(rowCount: int, colCount: int)
      requires 0 <= rowCount && 0 <= colCount
      modifies this
      ensures Valid() && Model().Full()
      ensures rows == rowCount && cols == colCount
      ensures |walls| == nextWallId
      ensures rows > 0 && cols > 0 ==> nextWallId == 2 * Mul(rows, cols) + rows + cols
      ensures rows == 0 || cols == 0 ==> walls == map[]
    {
      rows := rowCount;
      cols := colCount;
      cells := [];
      walls := map[];
      side := map[];
      nextWallId := 0;

      MulIsProduct(rows, cols);
      cells := seq(rows * cols, _ => Cell.New());
      BlankLayout(rows, cols, cells);
      var row := 0;
      while row < rows
        invariant 0 <= row <= rows
        invariant Valid() && rows == rowCount && cols == colCount
        invariant Model().BuiltUpTo(row, 0, 0)
        invariant |walls| == nextWallId
        invariant nextWallId == ResetCount(rows, cols, row, 0)
      {
        BuildRow(row);
        row := row + 1;
      }
      Model().BuiltAll();
      ResetCountTotal(rows, cols);
    }
  }
}
