/**
  Identifiers, directions, cells and walls of the maze grid
  (Sources/AddOn/MazeGenerator.hpp and the first half of MazeGenerator.cpp).

  A cell owns four wall slots indexed by direction; a slot holds a wall id or
  InvalidWallId.  A wall records the ids of the two cells it separates, the
  second one being InvalidCellId on the border of the grid.
 */
module Grid {

  type CellId = int
  type WallId = int

  const InvalidCellId: CellId := -1
  const InvalidWallId: WallId := -1

  /** The value of `(size_t) -1` on a 64-bit target. */
  const SizeMax: nat := 0xFFFF_FFFF_FFFF_FFFF

  datatype Direction = Left | Right | Top | Bottom | Invalid

  /** Slot index of a direction; the invalid direction gets an index no slot has. */
  function GetDirectionIndex(dir: Direction): (index: nat)
    ensures index < 4 <==> dir != Invalid
    ensures dir == Invalid ==> index == SizeMax
  {
    match dir
    case Left => 0
    case Right => 1
    case Top => 2
    case Bottom => 3
    case Invalid => SizeMax
  }

  /** The direction whose slot index is `index` (the inverse of GetDirectionIndex). */
  function DirectionAt(index: nat): Direction
    requires index < 4
  {
    if index == 0 then Left else if index == 1 then Right else if index == 2 then Top else Bottom
  }

  lemma DirectionIndexRoundTrip(dir: Direction, index: nat)
    requires index < 4 && dir != Invalid
    ensures DirectionAt(GetDirectionIndex(dir)) == dir
    ensures GetDirectionIndex(DirectionAt(index)) == index
  {
  }

  function GetOppositeDirection(dir: Direction): (opposite: Direction)
    ensures opposite == Invalid <==> dir == Invalid
    ensures dir != Invalid ==> opposite != dir
    ensures RowStep(opposite) == -RowStep(dir) && ColStep(opposite) == -ColStep(dir)
  {
    if dir == Left then Right
    else if dir == Right then Left
    else if dir == Top then Bottom
    else if dir == Bottom then Top
    else Invalid
  }

  lemma OppositeIsInvolution(dir: Direction)
    ensures GetOppositeDirection(GetOppositeDirection(dir)) == dir
  {
  }

  /** Row offset of the neighbour in direction `dir` (rows grow downwards). */
  function RowStep(dir: Direction): int
  {
    match dir
    case Top => -1
    case Bottom => 1
    case _ => 0
  }

  /** Column offset of the neighbour in direction `dir`. */
  function ColStep(dir: Direction): int
  {
    match dir
    case Left => -1
    case Right => 1
    case _ => 0
  }

  /** Exactly the four real directions move to a different cell. */
  lemma StepMoves(dir: Direction)
    ensures dir != Invalid <==> (RowStep(dir), ColStep(dir)) != (0, 0)
  {
  }

  /** The wall ids of `slots` other than InvalidWallId, in slot order. */
  function Occupied(slots: seq<WallId>): seq<WallId>
  {
    if slots == [] then []
    else (if slots[0] != InvalidWallId then [slots[0]] else []) + Occupied(slots[1..])
  }

  lemma {:induction false} OccupiedMembers(slots: seq<WallId>)
    ensures forall w :: w in Occupied(slots) <==> w in slots && w != InvalidWallId
    ensures |Occupied(slots)| <= |slots|
  {
    if slots != [] {
      OccupiedMembers(slots[1..]);
      assert slots == [slots[0]] + slots[1..];
    }
  }

  lemma {:induction false} OccupiedAppend(slots: seq<WallId>, w: WallId)
    ensures Occupied(slots + [w]) == Occupied(slots) + (if w != InvalidWallId then [w] else [])
  {
    if slots == [] {
      assert [w][1..] == [];
    } else {
      assert (slots + [w])[1..] == slots[1..] + [w];
      OccupiedAppend(slots[1..], w);
    }
  }

  /** A grid square: four wall slots, indexed by GetDirectionIndex. */
  datatype Cell = Cell(walls: seq<WallId>) {

    ghost predicate Valid()
    {
      |walls| == 4
    }

    /** The constructor Cell::Cell: no side has a wall yet. */
    static function New(): (cell: Cell)
      ensures cell.Valid()
      ensures forall dir | dir != Invalid :: !cell.HasWall(dir)
    {
      Cell([InvalidWallId, InvalidWallId, InvalidWallId, InvalidWallId])
    }

    /** Cell::GetWall: the id held by the side `dir` (see GetWallOwnSlot). */
    function GetWall(dir: Direction): WallId
      requires Valid() && dir != Invalid
    {
      walls[GetDirectionIndex(dir)]
    }

    /** GetWall reads one of the cell's four slots, the one whose direction is `dir`,
        and no other real direction reads that slot. */
    lemma GetWallOwnSlot(dir: Direction)
      requires Valid() && dir != Invalid
      ensures GetWall(dir) in walls
      ensures exists k | 0 <= k < 4 :: DirectionAt(k) == dir && walls[k] == GetWall(dir)
      ensures forall d | d != Invalid && d != dir :: GetDirectionIndex(d) != GetDirectionIndex(dir)
    {
      DirectionIndexRoundTrip(dir, 0);
    }

    function HasWall(dir: Direction): (present: bool)
      requires Valid() && dir != Invalid
      ensures present <==> GetWall(dir) != InvalidWallId
      ensures present <==> walls[GetDirectionIndex(dir)] in Occupied(walls)
    {
      OccupiedMembers(walls);
      walls[GetDirectionIndex(dir)] != InvalidWallId
    }

    /** Stores `wallId` in the slot of `dir`; the other three slots keep their ids. */
    function AddWall(dir: Direction, wallId: WallId): (cell: Cell)
      requires Valid() && dir != Invalid
      ensures cell.Valid()
      ensures cell.GetWall(dir) == wallId
      ensures forall d | d != Invalid && d != dir :: cell.GetWall(d) == GetWall(d)
    {
      Cell(walls[GetDirectionIndex(dir) := wallId])
    }

    /** The cell with every slot that holds `wallId` cleared. */
    function Without(wallId: WallId): (cell: Cell)
      requires Valid()
      ensures cell.Valid()
      ensures forall d | d != Invalid ::
        cell.GetWall(d) == if GetWall(d) == wallId then InvalidWallId else GetWall(d)
    {
      Cell(seq(4, i requires 0 <= i < 4 => if walls[i] == wallId then InvalidWallId else walls[i]))
    }

    /** Cell::RemoveWall: the slot loop computes Without(wallId). */
    method RemoveWall(wallId: WallId) returns (cell: Cell)
      requires Valid()
      ensures cell == Without(wallId)
    {
      cell := this;
      var i := 0;
      while i < |cell.walls|
        invariant 0 <= i <= 4 && |cell.walls| == 4
        invariant forall k | 0 <= k < 4 ::
          cell.walls[k] == if k < i && walls[k] == wallId then InvalidWallId else walls[k]
      {
        if cell.walls[i] == wallId {
          cell := Cell(cell.walls[i := InvalidWallId]);
        }
        i := i + 1;
      }
    }

    /** The ids of the sides that hold a wall, in slot order (the walls the visitor of
        Cell::EnumerateWalls is called with). */
    method EnumerateWalls() returns (ids: seq<WallId>)
      requires Valid()
      ensures ids == Occupied(walls)
      ensures forall w :: w in ids <==> w != InvalidWallId && exists d | d != Invalid :: GetWall(d) == w
    {
      ids := [];
      var i := 0;
      while i < |walls|
        invariant 0 <= i <= |walls|
        invariant ids == Occupied(walls[..i])
      {
        var wallId := walls[i];
        OccupiedAppend(walls[..i], wallId);
        assert walls[..i + 1] == walls[..i] + [wallId];
        if wallId != InvalidWallId {
          ids := ids + [wallId];
        }
        i := i + 1;
      }
      assert walls[..i] == walls;
      OccupiedMembers(walls);
      forall w | w in walls && w != InvalidWallId
        ensures exists d | d != Invalid :: GetWall(d) == w
      {
        var k :| 0 <= k < 4 && walls[k] == w;
        assert GetWall(DirectionAt(k)) == w;
      }
    }
  }

  /** A wall between cellId1 and cellId2; cellId2 is InvalidCellId on the border. */
  datatype Wall = Wall(cellId1: CellId, cellId2: CellId) {

    /** Seen from one of its cells, the cell on the other side; InvalidCellId when
        `cellId` is not a cell of this wall. */
    function GetOtherCellId(cellId: CellId): (other: CellId)
      ensures cellId != cellId1 && cellId != cellId2 ==> other == InvalidCellId
      ensures cellId1 != cellId2 && cellId == cellId1 ==> other == cellId2
      ensures cellId1 != cellId2 && cellId == cellId2 ==> other == cellId1
      ensures cellId1 == cellId2 == cellId ==> other == cellId
    {
      if cellId == cellId1 then cellId2
      else if cellId == cellId2 then cellId1
      else InvalidCellId
    }
  }

  /** Looking across a wall and back returns to where one started. */
  lemma OtherCellRoundTrip(wall: Wall, cellId: CellId)
    requires wall.cellId1 != wall.cellId2
    requires cellId == wall.cellId1 || cellId == wall.cellId2
    ensures wall.GetOtherCellId(wall.GetOtherCellId(cellId)) == cellId
    ensures wall.GetOtherCellId(cellId) != cellId
  {
  }
}
