/**
  The carver `MazeGenerator` of Sources/AddOn/MazeGenerator.cpp: a randomized
  frontier growth (Prim's algorithm on the grid graph).  Cell (0, 0) is visited
  first; each round draws a frontier wall and, when exactly one of its cells is
  visited, removes it and visits the other cell.  Finally the Top side of the
  first cell and the Bottom side of the last cell are opened.

  The random draw is a nondeterministic choice of a frontier member.
 */
module Carver {
  import opened Grid
  import opened Topology

  /** The ids 0 .. n-1 of the cells of an n-cell grid. */
  ghost function CellRange(n: int): set<CellId>
  {
    if n <= 0 then {} else CellRange(n - 1) + {n - 1}
  }

  lemma {:induction false} CellRangeMembers(n: int)
    ensures forall id :: id in CellRange(n) <==> 0 <= id < n
    ensures n >= 0 ==> |CellRange(n)| == n
  {
    if n > 0 {
      CellRangeMembers(n - 1);
    }
  }

  /** A set of cell ids of an n-cell grid has at most n members, and n when it holds
      every cell. */
  lemma CellSetSize(cells: set<CellId>, n: nat)
    requires forall c | c in cells :: 0 <= c < n
    ensures |cells| <= n
    ensures (forall c | 0 <= c < n :: c in cells) ==> |cells| == n
  {
    var all := CellRange(n);
    CellRangeMembers(n);
    assert cells <= all by {
      forall c | c in cells ensures c in all { }
    }
    var rest := all - cells;
    assert all == cells + rest by {
      forall c ensures c in all <==> c in cells + rest { }
    }
    assert cells !! rest;
    if forall c | 0 <= c < n :: c in cells {
      assert rest == {} by {
        forall c | c in rest ensures false { }
      }
    }
  }

  /** Whether VisitCell(cellId) puts wall `w` on the frontier: the wall is live and
      its other cell exists and is not yet visited. */
  ghost predicate Opening(maze: Layout, cellId: CellId, visited: set<CellId>, w: WallId)
  {
    && w in maze.walls
    && maze.walls[w].GetOtherCellId(cellId) != InvalidCellId
    && maze.walls[w].GetOtherCellId(cellId) !in visited
  }

  /** The walls VisitCell(cellId) adds to the frontier. */
  ghost function Exits(maze: Layout, cellId: CellId, visited: set<CellId>): set<WallId>
    requires maze.Shaped() && 0 <= cellId < |maze.cells|
  {
    set w | w in maze.cells[cellId].walls && w != InvalidWallId && Opening(maze, cellId, visited, w)
  }

  /** Adding to `frontier` every occupied slot's wall that Opening accepts adds
      exactly Exits. */
  lemma ExitsCollected(maze: Layout, cellId: CellId, visited: set<CellId>, ids: seq<WallId>,
                       frontier: set<WallId>, frontier': set<WallId>)
    requires maze.Shaped() && 0 <= cellId < |maze.cells| && ids == Occupied(maze.cells[cellId].walls)
    requires forall w :: w in frontier' <==> w in frontier || (w in ids && Opening(maze, cellId, visited, w))
    ensures frontier' == frontier + Exits(maze, cellId, visited)
  {
    OccupiedMembers(maze.cells[cellId].walls);
    forall w
      ensures w in frontier' <==> w in frontier + Exits(maze, cellId, visited)
    {
      assert w in ids <==> w in maze.cells[cellId].walls && w != InvalidWallId;
    }
  }

  /** Side `s` is an open passage: it lies between two cells of the grid and holds no
      wall. */
  ghost predicate Passage(maze: Layout, s: Slot)
    requires maze.Shaped()
  {
    maze.HasSlot(s) && maze.HasSlot(Facing(s)) && maze.WallAt(s) == InvalidWallId
  }

  /** `steps` leads from cell `from` to cell `to`: each step leaves the current cell
      through an open passage into the neighbour beyond it. */
  ghost predicate Walk(maze: Layout, from: CellId, steps: seq<Slot>, to: CellId)
    requires maze.Shaped()
    decreases |steps|
  {
    if steps == [] then from == to
    else
      && Passage(maze, steps[0])
      && maze.CellOf(steps[0]) == from
      && Walk(maze, maze.CellOf(Facing(steps[0])), steps[1..], to)
  }

  /** Cell `to` can be reached from cell `from` through sides without a wall. */
  ghost predicate Reachable(maze: Layout, from: CellId, to: CellId)
    requires maze.Shaped()
  {
    exists steps :: Walk(maze, from, steps, to)
  }

  /** Every visited cell can be reached from cell 0. */
  ghost predicate Spanned(maze: Layout, visited: set<CellId>)
    requires maze.Shaped()
  {
    forall c {:trigger Reachable(maze, 0, c)} | c in visited :: Reachable(maze, 0, c)
  }

  /** A walk followed by one more open passage out of its last cell is a walk. */
  lemma {:induction false} WalkExtend(maze: Layout, from: CellId, steps: seq<Slot>, to: CellId, s: Slot)
    requires maze.Shaped() && Walk(maze, from, steps, to)
    requires Passage(maze, s) && maze.CellOf(s) == to
    ensures Walk(maze, from, steps + [s], maze.CellOf(Facing(s)))
    decreases |steps|
  {
    if steps == [] {
      assert steps + [s] == [s] && [s][1..] == [];
    } else {
      WalkExtend(maze, maze.CellOf(Facing(steps[0])), steps[1..], to, s);
      assert (steps + [s])[1..] == steps[1..] + [s];
    }
  }

  /** Two walks, the second starting where the first ends, make one walk. */
  lemma {:induction false} WalkJoin(maze: Layout, a: CellId, p: seq<Slot>, b: CellId, q: seq<Slot>, c: CellId)
    requires maze.Shaped() && Walk(maze, a, p, b) && Walk(maze, b, q, c)
    ensures Walk(maze, a, p + q, c)
    decreases |p|
  {
    if p == [] {
      assert p + q == q;
    } else {
      WalkJoin(maze, maze.CellOf(Facing(p[0])), p[1..], b, q, c);
      assert (p + q)[1..] == p[1..] + q;
    }
  }

  /** The steps of a walk taken backwards: the facing sides in reverse order. */
  ghost function Back(steps: seq<Slot>): seq<Slot>
  {
    if steps == [] then [] else Back(steps[1..]) + [Facing(steps[0])]
  }

  /** On a valid layout a passage is open from both sides. */
  lemma PassageBack(maze: Layout, s: Slot)
    requires maze.Valid() && Passage(maze, s)
    ensures Passage(maze, Facing(s)) && Facing(Facing(s)) == s
  {
    FacingInvolution(s);
    if maze.WallAt(Facing(s)) != InvalidWallId {
      maze.SlotWall(Facing(s));
      assert false;
    }
  }

  /** On a valid layout a walk taken backwards is a walk from its end to its start. */
  lemma {:induction false} WalkBack(maze: Layout, from: CellId, steps: seq<Slot>, to: CellId)
    requires maze.Valid() && Walk(maze, from, steps, to)
    ensures Walk(maze, to, Back(steps), from)
    decreases |steps|
  {
    if steps != [] {
      var s := steps[0];
      var mid := maze.CellOf(Facing(s));
      WalkBack(maze, mid, steps[1..], to);
      PassageBack(maze, s);
      WalkExtend(maze, to, Back(steps[1..]), mid, Facing(s));
    }
  }

  /** `next` is `maze` with walls taken out only: the same grid, and every side open
      in `maze` is open in `next`. */
  ghost predicate Opened(maze: Layout, next: Layout)
    requires maze.Shaped() && next.Shaped()
  {
    && next.rows == maze.rows && next.cols == maze.cols
    && forall t | maze.HasSlot(t) && maze.WallAt(t) == InvalidWallId :: next.WallAt(t) == InvalidWallId
  }

  /** Taking walls out keeps every walk. */
  lemma {:induction false} WalkKept(maze: Layout, next: Layout, from: CellId, steps: seq<Slot>, to: CellId)
    requires maze.Shaped() && next.Shaped() && Opened(maze, next)
    requires Walk(maze, from, steps, to)
    ensures Walk(next, from, steps, to)
    decreases |steps|
  {
    if steps != [] {
      WalkKept(maze, next, maze.CellOf(Facing(steps[0])), steps[1..], to);
    }
  }

  /** Taking walls out keeps every cell reachable that was. */
  lemma ReachKept(maze: Layout, next: Layout, from: CellId, to: CellId)
    requires maze.Shaped() && next.Shaped() && Opened(maze, next)
    requires Reachable(maze, from, to)
    ensures Reachable(next, from, to)
  {
    var steps :| Walk(maze, from, steps, to);
    WalkKept(maze, next, from, steps, to);
  }

  /** When every cell can be reached from cell 0, every cell can be reached from every
      other: walk back to cell 0, then out to the target. */
  lemma Connected(maze: Layout)
    requires maze.Valid() && forall c | 0 <= c < |maze.cells| :: Reachable(maze, 0, c)
    ensures forall a, b | 0 <= a < |maze.cells| && 0 <= b < |maze.cells| :: Reachable(maze, a, b)
  {
    forall a, b | 0 <= a < |maze.cells| && 0 <= b < |maze.cells|
      ensures Reachable(maze, a, b)
    {
      assert Reachable(maze, 0, a) && Reachable(maze, 0, b);
      var p :| Walk(maze, 0, p, a);
      var q :| Walk(maze, 0, q, b);
      WalkBack(maze, 0, p, a);
      WalkJoin(maze, a, Back(p), 0, q, b);
    }
  }

  /** A side still holds a wall unless both of its cells have been visited; in
      particular the border of the grid is never opened by the carving loop. */
  ghost predicate Sealed(maze: Layout, visited: set<CellId>)
    requires maze.Shaped()
  {
    forall s {:trigger maze.WallAt(s)} | maze.HasSlot(s)
                 && !(maze.CellOf(s) in visited && maze.HasSlot(Facing(s)) && maze.CellOf(Facing(s)) in visited) ::
      maze.WallAt(s) != InvalidWallId
  }

  /** Every side between a visited and an unvisited cell holds a frontier wall. */
  ghost predicate Closed(maze: Layout, visited: set<CellId>, frontier: set<WallId>)
    requires maze.Shaped()
  {
    forall s {:trigger maze.WallAt(s)} | maze.HasSlot(s) && maze.CellOf(s) in visited
                 && maze.HasSlot(Facing(s)) && maze.CellOf(Facing(s)) !in visited ::
      maze.WallAt(s) in frontier
  }

  /** The invariant of the carving loop of Generate.  `initial` is the registry Reset
      built and `carved` the walls the loop removed: one per visited cell but the
      first, all of them interior walls.  Every visited cell can be reached from
      cell 0 through the sides the loop opened. */
  ghost predicate Carving(maze: Layout, visited: set<CellId>, frontier: set<WallId>,
                          carved: set<WallId>, initial: map<WallId, Wall>)
  {
    && maze.Valid()
    && 0 in visited
    && (forall c | c in visited :: 0 <= c < |maze.cells|)
    && carved <= initial.Keys
    && maze.walls.Keys == initial.Keys - carved
    && (forall w | w in maze.walls :: maze.walls[w] == initial[w])
    && (forall w | w in carved :: initial[w].cellId2 != InvalidCellId)
    && |carved| + 1 == |visited|
    && (forall w | w in frontier :: w in maze.walls && maze.walls[w].cellId2 != InvalidCellId)
    && Sealed(maze, visited)
    && Closed(maze, visited, frontier)
    && Spanned(maze, visited)
  }

  /** A live wall in a slot of cell `u` that leads to an existing unvisited cell is one
      of the walls VisitCell(u) puts on the frontier. */
  lemma ExitThrough(maze: Layout, u: CellId, visited: set<CellId>, s: Slot)
    requires maze.Valid() && maze.HasSlot(s) && maze.CellOf(s) == u
    requires maze.HasSlot(Facing(s)) && maze.CellOf(Facing(s)) !in visited
    requires maze.WallAt(s) != InvalidWallId
    ensures maze.WallAt(s) in Exits(maze, u, visited)
  {
    var w := maze.WallAt(s);
    maze.SlotWall(s);
    FacingInvolution(s);
    if maze.CellOf(Facing(s)) == u {
      CellIdInjective(maze.rows, maze.cols, s.row, s.col, Facing(s).row, Facing(s).col);
    }
    var k := GetDirectionIndex(s.dir);
    assert maze.cells[u].walls[k] == w;
  }

  /** Every wall VisitCell puts on the frontier has two cells. */
  lemma ExitsInterior(maze: Layout, u: CellId, visited: set<CellId>)
    requires maze.Shaped() && 0 <= u < |maze.cells|
    ensures forall w | w in Exits(maze, u, visited) :: w in maze.walls && maze.walls[w].cellId2 != InvalidCellId
  {
  }

  /** A slot holding `w` lies between the two cells of `w`, or on the border when `w`
      has a single cell. */
  lemma SlotOfWall(maze: Layout, s: Slot, w: WallId)
    requires maze.Valid() && maze.HasSlot(s) && maze.WallAt(s) == w && w != InvalidWallId
    ensures w in maze.walls
    ensures maze.HasSlot(Facing(s))  ==> {maze.CellOf(s), maze.CellOf(Facing(s))} == {maze.walls[w].cellId1, maze.walls[w].cellId2}
    ensures !maze.HasSlot(Facing(s)) ==> maze.walls[w].cellId2 == InvalidCellId
  {
    maze.SlotWall(s);
  }

  /** The first visit: the fully walled grid with cell 0 visited. */
  lemma CarveStart(maze: Layout, visited: set<CellId>, frontier: set<WallId>,
                   carved: set<WallId>, initial: map<WallId, Wall>)
    requires maze.Valid() && maze.Full() && |maze.cells| > 0
    requires visited == {0} && frontier == Exits(maze, 0, {}) && carved == {} && initial == maze.walls
    ensures Carving(maze, visited, frontier, carved, initial)
  {
    ExitsInterior(maze, 0, {});
    assert Walk(maze, 0, [], 0);
    forall s | maze.HasSlot(s) && maze.CellOf(s) in {0}
                 && maze.HasSlot(Facing(s)) && maze.CellOf(Facing(s)) !in {0}
      ensures maze.WallAt(s) in Exits(maze, 0, {})
    {
      ExitThrough(maze, 0, {}, s);
    }
  }

  /** Removing an interior wall whose two cells end up visited leaves every other
      side walled as Sealed demands. */
  lemma CarveSealed(maze: Layout, visited: set<CellId>, w: WallId, u: CellId)
    requires maze.Valid() && Sealed(maze, visited) && w in maze.walls
    requires maze.walls[w].cellId2 != InvalidCellId
    requires maze.walls[w].cellId1 in visited + {u} && maze.walls[w].cellId2 in visited + {u}
    ensures maze.RemovedWall(w).Shaped()
    ensures Sealed(maze.RemovedWall(w), visited + {u})
  {
    var next := maze.RemovedWall(w);
    maze.RemovedWallSlots(w);
    forall s | next.HasSlot(s)
                 && !(next.CellOf(s) in visited + {u} && next.HasSlot(Facing(s)) && next.CellOf(Facing(s)) in visited + {u})
      ensures next.WallAt(s) != InvalidWallId
    {
      assert maze.WallAt(s) != InvalidWallId;
      if maze.WallAt(s) == w {
        SlotOfWall(maze, s, w);
        maze.FacingInGrid(s);
      }
    }
  }

  /** A side from a cell of `visited + {u}` to a cell outside it does not hold the
      removed wall `w`; unless it starts at `u` it is already on the frontier, and it
      holds a wall in any case. */
  lemma ClosedAt(maze: Layout, visited: set<CellId>, frontier: set<WallId>, w: WallId, u: CellId, s: Slot)
    requires maze.Valid() && Sealed(maze, visited) && Closed(maze, visited, frontier) && w in maze.walls
    requires maze.walls[w].cellId1 in visited + {u} && maze.walls[w].cellId2 in visited + {u}
    requires maze.HasSlot(s) && maze.CellOf(s) in visited + {u}
    requires maze.HasSlot(Facing(s)) && maze.CellOf(Facing(s)) !in visited + {u}
    ensures maze.WallAt(s) != w && maze.WallAt(s) != InvalidWallId
    ensures maze.CellOf(s) != u ==> maze.WallAt(s) in frontier
  {
    assert maze.WallAt(s) != InvalidWallId;
    if maze.WallAt(s) == w {
      SlotOfWall(maze, s, w);
    }
  }

  /** After removing `w` and visiting its unvisited cell `u`, every side between a
      visited and an unvisited cell holds a wall of the new frontier. */
  lemma CarveClosed(maze: Layout, visited: set<CellId>, frontier: set<WallId>, w: WallId, u: CellId)
    requires maze.Valid() && Sealed(maze, visited) && Closed(maze, visited, frontier) && w in maze.walls
    requires maze.walls[w].cellId1 in visited + {u} && maze.walls[w].cellId2 in visited + {u}
    requires 0 <= u < |maze.cells|
    ensures maze.RemovedWall(w).Valid() && |maze.RemovedWall(w).cells| == |maze.cells|
    ensures Closed(maze.RemovedWall(w), visited + {u},
                   (frontier + Exits(maze.RemovedWall(w), u, visited)) - {w})
  {
    var next := maze.RemovedWall(w);
    maze.RemovedWallSlots(w);
    maze.RemovedWallValid(w);
    var frontier' := (frontier + Exits(next, u, visited)) - {w};
    forall s | next.HasSlot(s) && next.CellOf(s) in visited + {u}
                 && next.HasSlot(Facing(s)) && next.CellOf(Facing(s)) !in visited + {u}
      ensures next.WallAt(s) in frontier'
    {
      ClosedAt(maze, visited, frontier, w, u, s);
      if next.CellOf(s) == u {
        ExitThrough(next, u, visited, s);
      }
    }
  }

  /** The cell a round visits when it draws a wall with exactly one visited cell. */
  ghost function Unvisited(maze: Layout, visited: set<CellId>, w: WallId): CellId
    requires w in maze.walls
  {
    if maze.walls[w].cellId1 in visited then maze.walls[w].cellId2 else maze.walls[w].cellId1
  }

  /** Removing the interior wall `w` between a visited and an unvisited cell opens a
      passage from the visited cell into the unvisited one, and keeps every walk of
      the old layout: every cell visited after the round can be reached from cell 0. */
  lemma CarveReach(maze: Layout, visited: set<CellId>, w: WallId)
    requires maze.Valid() && Spanned(maze, visited) && w in maze.walls
    requires maze.walls[w].cellId2 != InvalidCellId
    requires (maze.walls[w].cellId1 in visited) != (maze.walls[w].cellId2 in visited)
    ensures maze.RemovedWall(w).Valid()
    ensures Spanned(maze.RemovedWall(w), visited + {Unvisited(maze, visited, w)})
  {
    var next := maze.RemovedWall(w);
    var u := Unvisited(maze, visited, w);
    maze.RemovedWallSlots(w);
    maze.RemovedWallValid(w);
    assert maze.Registered(w);
    var origin := maze.side[w];
    FacingInvolution(origin);
    var s := if maze.walls[w].cellId1 in visited then origin else Facing(origin);
    assert maze.CellOf(s) in visited && maze.CellOf(Facing(s)) == u;
    assert Passage(next, s);
    assert Reachable(maze, 0, maze.CellOf(s));
    var p :| Walk(maze, 0, p, maze.CellOf(s));
    WalkKept(maze, next, 0, p, maze.CellOf(s));
    WalkExtend(next, 0, p, maze.CellOf(s), s);
    forall c | c in visited + {u}
      ensures Reachable(next, 0, c)
    {
      if c != u {
        ReachKept(maze, next, 0, c);
      }
    }
  }

  /** A round that draws a wall with exactly one visited cell removes a live wall and
      visits an existing cell that was not visited before. */
  lemma CarveTarget(maze: Layout, visited: set<CellId>, frontier: set<WallId>,
                    carved: set<WallId>, initial: map<WallId, Wall>, w: WallId)
    requires Carving(maze, visited, frontier, carved, initial) && w in frontier
    requires (maze.walls[w].cellId1 in visited) != (maze.walls[w].cellId2 in visited)
    ensures 0 <= Unvisited(maze, visited, w) < |maze.cells| && Unvisited(maze, visited, w) !in visited
    ensures maze.RemovedWall(w).Valid() && |maze.RemovedWall(w).cells| == |maze.cells|
  {
    assert maze.Registered(w);
    maze.RemovedWallSlots(w);
    maze.RemovedWallValid(w);
  }

  /** Removing that wall and visiting that cell keeps the invariant: `next`,
      `visited'`, `frontier'` and `carved'` are the state after the round. */
  lemma CarveStep(maze: Layout, visited: set<CellId>, frontier: set<WallId>,
                  carved: set<WallId>, initial: map<WallId, Wall>, w: WallId,
                  next: Layout, visited': set<CellId>, frontier': set<WallId>, carved': set<WallId>)
    requires Carving(maze, visited, frontier, carved, initial) && w in frontier
    requires (maze.walls[w].cellId1 in visited) != (maze.walls[w].cellId2 in visited)
    requires next == maze.RemovedWall(w) && next.Shaped()
    requires 0 <= Unvisited(maze, visited, w) < |next.cells|
    requires visited' == visited + {Unvisited(maze, visited, w)}
    requires frontier' == (frontier + Exits(next, Unvisited(maze, visited, w), visited)) - {w}
    requires carved' == carved + {w}
    ensures Carving(next, visited', frontier', carved', initial)
    ensures |visited'| == |visited| + 1
  {
    var wall := maze.walls[w];
    assert maze.Registered(w);
    var u := Unvisited(maze, visited, w);
    maze.RemovedWallSlots(w);
    CarveSealed(maze, visited, w, u);
    CarveClosed(maze, visited, frontier, w, u);
    CarveReach(maze, visited, w);
    ExitsInterior(next, u, visited);
    assert w !in carved;
    assert |carved + {w}| == |carved| + 1;
    assert |visited + {u}| == |visited| + 1;
    assert next.walls.Keys == initial.Keys - (carved + {w});
    assert forall v | v in frontier' :: v in next.walls && next.walls[v].cellId2 != InvalidCellId;
  }

  /** A round that draws a wall whose cells are both visited (or both unvisited) only
      drops it from the frontier. */
  lemma CarveSkip(maze: Layout, visited: set<CellId>, frontier: set<WallId>,
                  carved: set<WallId>, initial: map<WallId, Wall>, w: WallId, frontier': set<WallId>)
    requires Carving(maze, visited, frontier, carved, initial) && w in frontier
    requires (maze.walls[w].cellId1 in visited) == (maze.walls[w].cellId2 in visited)
    requires frontier' == frontier - {w}
    ensures Carving(maze, visited, frontier', carved, initial)
    ensures |frontier'| < |frontier|
  {
    forall s | maze.HasSlot(s) && maze.CellOf(s) in visited
                 && maze.HasSlot(Facing(s)) && maze.CellOf(Facing(s)) !in visited
      ensures maze.WallAt(s) in frontier - {w}
    {
      if maze.WallAt(s) == w {
        SlotOfWall(maze, s, w);
      }
    }
  }

  /** Some side leads from a visited cell to the unvisited cell `id` or to an unvisited
      cell before it in row-major order. */
  lemma {:induction false} FindEdge(maze: Layout, visited: set<CellId>, id: CellId) returns (s: Slot)
    requires maze.Shaped() && 0 in visited && 0 <= id < |maze.cells| && id !in visited
    ensures maze.HasSlot(s) && maze.HasSlot(Facing(s))
    ensures maze.CellOf(s) in visited && maze.CellOf(Facing(s)) !in visited
    decreases id
  {
    CellIdCovers(maze.rows, maze.cols, id);
    var row, col := id / maze.cols, id % maze.cols;
    assert id == Mul(row, maze.cols) + col;
    var edge: Slot;
    if col > 0 {
      edge := Slot(row, col - 1, Right);
      assert maze.CellOf(edge) == id - 1;
    } else {
      assert row > 0;
      edge := Slot(row - 1, col, Bottom);
      assert maze.CellOf(edge) == id - maze.cols;
    }
    assert Facing(edge) == Slot(row, col, if col > 0 then Left else Top);
    var prev := maze.CellOf(edge);
    if prev in visited {
      s := edge;
    } else {
      s := FindEdge(maze, visited, prev);
    }
  }

  /** While some cell is unvisited, some side between a visited and an unvisited
      cell exists, so a closed frontier is not empty: the carving loop cannot stop
      early. */
  lemma Stuck(maze: Layout, visited: set<CellId>, frontier: set<WallId>, id: CellId)
    requires maze.Shaped() && Closed(maze, visited, frontier)
    requires 0 in visited && 0 <= id < |maze.cells| && id !in visited
    ensures frontier != {}
  {
    var s := FindEdge(maze, visited, id);
    assert maze.WallAt(s) in frontier;
  }

  /** When the frontier is empty every cell is visited and the loop has removed one wall
      fewer than there are cells. */
  lemma CarveDone(maze: Layout, visited: set<CellId>, carved: set<WallId>, initial: map<WallId, Wall>)
    requires Carving(maze, visited, {}, carved, initial)
    ensures forall id :: id in visited <==> 0 <= id < |maze.cells|
    ensures |carved| == |maze.cells| - 1
  {
    forall id | 0 <= id < |maze.cells|
      ensures id in visited
    {
      if id !in visited {
        Stuck(maze, visited, {}, id);
        assert false;
      }
    }
    CellSetSize(visited, |maze.cells|);
  }

  /** The number of live walls after the carving loop. */
  lemma CarvedCount(maze: Layout, carved: set<WallId>, initial: map<WallId, Wall>)
    requires carved <= initial.Keys && maze.walls.Keys == initial.Keys - carved
    ensures |maze.walls| == |initial| - |carved|
  {
    assert initial.Keys == maze.walls.Keys + carved;
    assert maze.walls.Keys * carved == {};
  }

  /** Opening a door: removing the wall of a side on the top or the bottom edge of the
      grid empties that side and no other, and drops one wall. */
  lemma OpenDoor(maze: Layout, s: Slot, next: Layout)
    requires maze.Valid() && maze.HasSlot(s)
    requires (s.row == 0 && s.dir == Top) || (s.row == maze.rows - 1 && s.dir == Bottom)
    requires maze.WallAt(s) != InvalidWallId && next == maze.RemovedWall(maze.WallAt(s))
    ensures next.Valid() && next.rows == maze.rows && next.cols == maze.cols
    ensures |next.walls| == |maze.walls| - 1
    ensures next.WallAt(s) == InvalidWallId
    ensures forall t | maze.HasSlot(t) && t != s :: next.WallAt(t) == maze.WallAt(t)
    ensures Opened(maze, next)
  {
    assert !maze.HasSlot(Facing(s));
    maze.RemovedBorderWall(s);
  }

  /** Every side on the border of the grid holds a wall while the carving invariant
      holds. */
  lemma BorderWalled(maze: Layout, visited: set<CellId>, frontier: set<WallId>,
                     carved: set<WallId>, initial: map<WallId, Wall>)
    requires Carving(maze, visited, frontier, carved, initial)
    ensures forall s {:trigger maze.WallAt(s)} | maze.HasSlot(s) && !maze.HasSlot(Facing(s)) ::
      maze.WallAt(s) != InvalidWallId
  {
  }

  /** Opening the entrance `top` on the top edge and then the exit `bottom` on the
      bottom edge of a grid whose border is walled empties those two sides, keeps
      every other border side walled and drops two walls.  `half` and `open` are the
      layouts after the first and the second removal. */
  lemma OpenDoors(maze: Layout, top: Slot, bottom: Slot, half: Layout, open: Layout)
    requires maze.Valid() && maze.HasSlot(top) && maze.HasSlot(bottom)
    requires top.row == 0 && top.dir == Top && bottom.row == maze.rows - 1 && bottom.dir == Bottom
    requires forall s {:trigger maze.WallAt(s)} | maze.HasSlot(s) && !maze.HasSlot(Facing(s)) ::
      maze.WallAt(s) != InvalidWallId
    requires half == maze.RemovedWall(maze.WallAt(top)) && half.Valid()
    requires open == half.RemovedWall(maze.WallAt(bottom))
    ensures open.Valid() && open.rows == maze.rows && open.cols == maze.cols
    ensures open.WallAt(top) == InvalidWallId && open.WallAt(bottom) == InvalidWallId
    ensures forall s {:trigger open.WallAt(s)} | open.HasSlot(s) && !open.HasSlot(Facing(s))
                         && s != top && s != bottom ::
      open.WallAt(s) != InvalidWallId
    ensures |open.walls| == |maze.walls| - 2
  {
    OpenDoor(maze, top, half);
    assert half.WallAt(bottom) == maze.WallAt(bottom);
    OpenDoor(half, bottom, open);
    BorderKept(maze, half, open, top, bottom);
  }

  /** Two removals that each change one border side leave every other border side
      as it was, and the side the first one emptied empty. */
  lemma BorderKept(maze: Layout, half: Layout, open: Layout, top: Slot, bottom: Slot)
    requires maze.Shaped() && half.Shaped() && open.Shaped()
    requires half.rows == maze.rows && half.cols == maze.cols
    requires open.rows == maze.rows && open.cols == maze.cols
    requires forall s {:trigger maze.WallAt(s)} | maze.HasSlot(s) && !maze.HasSlot(Facing(s)) ::
      maze.WallAt(s) != InvalidWallId
    requires forall t | maze.HasSlot(t) && t != top :: half.WallAt(t) == maze.WallAt(t)
    requires forall t | half.HasSlot(t) && t != bottom :: open.WallAt(t) == half.WallAt(t)
    requires half.HasSlot(top) && half.WallAt(top) == InvalidWallId && top.dir != bottom.dir
    ensures open.WallAt(top) == InvalidWallId
    ensures forall s {:trigger open.WallAt(s)} | open.HasSlot(s) && !open.HasSlot(Facing(s))
                         && s != top && s != bottom ::
      open.WallAt(s) != InvalidWallId
  {
    assert open.WallAt(top) == half.WallAt(top);
    forall s {:trigger open.WallAt(s)} | open.HasSlot(s) && !open.HasSlot(Facing(s)) && s != top && s != bottom
      ensures open.WallAt(s) != InvalidWallId
    {
      assert maze.HasSlot(s) && !maze.HasSlot(Facing(s));
      assert half.WallAt(s) == maze.WallAt(s);
    }
  }

  /** The state the carving loop of Generate ends in, for r rows and c columns: every
      cell is visited and can be reached from cell 0; one interior wall per cell but
      the first was carved out of the 2rc + r + c walls Reset built, leaving
      rc + r + c + 1; the border is intact. */
  ghost predicate Carved(maze: Layout, visited: set<CellId>, carved: set<WallId>, initial: map<WallId, Wall>)
  {
    && maze.Valid() && maze.rows >= 1 && maze.cols >= 1
    && (forall id :: id in visited <==> 0 <= id < Mul(maze.rows, maze.cols))
    && carved <= initial.Keys && |carved| == Mul(maze.rows, maze.cols) - 1
    && (forall w | w in carved :: initial[w].cellId2 != InvalidCellId)
    && maze.walls.Keys == initial.Keys - carved
    && (forall s {:trigger maze.WallAt(s)} | maze.HasSlot(s) && !maze.HasSlot(Facing(s)) ::
          maze.WallAt(s) != InvalidWallId)
    && |maze.walls| == Mul(maze.rows, maze.cols) + maze.rows + maze.cols + 1
    && |initial| == 2 * Mul(maze.rows, maze.cols) + maze.rows + maze.cols
    && (forall c | 0 <= c < Mul(maze.rows, maze.cols) :: Reachable(maze, 0, c))
  }

  /** The end of the carving loop of Generate: once the frontier is empty, every cell
      is visited, the loop has carved one interior wall per cell but the first, and the
      walls left number rc + r + c + 1.  Every cell can be reached from cell 0. */
  lemma Finished(maze: Layout, visited: set<CellId>, carved: set<WallId>, initial: map<WallId, Wall>)
    requires Carving(maze, visited, {}, carved, initial)
    requires |initial| == 2 * Mul(maze.rows, maze.cols) + maze.rows + maze.cols
    ensures forall id :: id in visited <==> 0 <= id < maze.rows * maze.cols
    ensures carved <= initial.Keys && |carved| == maze.rows * maze.cols - 1
    ensures forall w | w in carved :: initial[w].cellId2 != InvalidCellId
    ensures forall s {:trigger maze.WallAt(s)} | maze.HasSlot(s) && !maze.HasSlot(Facing(s)) ::
      maze.WallAt(s) != InvalidWallId
    ensures |maze.walls| == maze.rows * maze.cols + maze.rows + maze.cols + 1
    ensures |initial| == 2 * (maze.rows * maze.cols) + maze.rows + maze.cols
    ensures forall c | 0 <= c < maze.rows * maze.cols :: Reachable(maze, 0, c)
    ensures maze.rows >= 1 && maze.cols >= 1 ==> Carved(maze, visited, carved, initial)
  {
    CarveDone(maze, visited, carved, initial);
    CarvedCount(maze, carved, initial);
    BorderWalled(maze, visited, {}, carved, initial);
    MulIsProduct(maze.rows, maze.cols);
  }

  /** Taking walls out twice takes walls out. */
  lemma OpenedTwice(maze: Layout, half: Layout, open: Layout)
    requires maze.Shaped() && half.Shaped() && open.Shaped()
    requires Opened(maze, half) && Opened(half, open)
    ensures Opened(maze, open)
  {
    forall t | maze.HasSlot(t) && maze.WallAt(t) == InvalidWallId
      ensures open.WallAt(t) == InvalidWallId
    {
      assert half.WallAt(t) == InvalidWallId;
    }
  }

  /** Taking walls out keeps the carved passages: when every cell of `maze` can be
      reached from cell 0, every cell of `open` can be reached from every other. */
  lemma DoorsKept(maze: Layout, open: Layout)
    requires maze.Shaped() && open.Valid() && Opened(maze, open)
    requires forall c | 0 <= c < Mul(maze.rows, maze.cols) :: Reachable(maze, 0, c)
    ensures forall a, b | 0 <= a < Mul(maze.rows, maze.cols) && 0 <= b < Mul(maze.rows, maze.cols) ::
      Reachable(open, a, b)
  {
    forall c | 0 <= c < |open.cells|
      ensures Reachable(open, 0, c)
    {
      ReachKept(maze, open, 0, c);
    }
    Connected(open);
  }

  /** The maze Generate leaves: a valid rows x cols grid in which every cell was visited
      and every cell can be reached from every other.  One interior wall per cell but
      the first was carved out of the 2rc + r + c walls Reset built, and no other wall
      but the entrance (the Top side of cell (0, 0)) and the exit (the Bottom side of
      cell (rows - 1, cols - 1)) was removed; the rest of the border is walled. */
  ghost predicate GeneratedMaze(maze: Layout, visited: set<CellId>, carved: set<WallId>,
                                initial: map<WallId, Wall>, rows: int, cols: int)
  {
    && maze.Valid() && maze.rows == rows >= 1 && maze.cols == cols >= 1
    && (forall id :: id in visited <==> 0 <= id < Mul(rows, cols))
    && carved <= initial.Keys && |carved| == Mul(rows, cols) - 1
    && (forall w | w in carved :: initial[w].cellId2 != InvalidCellId)
    && |initial| == 2 * Mul(rows, cols) + rows + cols
    && maze.walls.Keys <= initial.Keys - carved
    && |maze.walls| == Mul(rows, cols) + rows + cols - 1
    && maze.WallAt(Slot(0, 0, Top)) == InvalidWallId
    && maze.WallAt(Slot(rows - 1, cols - 1, Bottom)) == InvalidWallId
    && (forall s {:trigger maze.WallAt(s)} | maze.HasSlot(s) && !maze.HasSlot(Facing(s))
                    && s != Slot(0, 0, Top) && s != Slot(rows - 1, cols - 1, Bottom) ::
          maze.WallAt(s) != InvalidWallId)
    && (forall a, b | 0 <= a < Mul(rows, cols) && 0 <= b < Mul(rows, cols) :: Reachable(maze, a, b))
  }

  /** The layout after the wall of the entrance (the Top side of cell (0, 0)) and then
      the wall of the exit (the Bottom side of cell (rows - 1, cols - 1)) are removed. */
  ghost function WithDoors(maze: Layout): Layout
    requires maze.Valid() && maze.rows >= 1 && maze.cols >= 1
  {
    var entrance := maze.WallAt(Slot(0, 0, Top));
    var exit := maze.WallAt(Slot(maze.rows - 1, maze.cols - 1, Bottom));
    maze.RemovedWallValid(entrance);
    maze.RemovedWall(entrance).RemovedWall(exit)
  }

  /** Opening the entrance and then the exit of a grid whose border is walled keeps the
      grid valid, empties those two sides and no other border side, and drops two
      walls. */
  lemma DoorsOpened(maze: Layout)
    requires maze.Valid() && maze.rows >= 1 && maze.cols >= 1
    requires forall s {:trigger maze.WallAt(s)} | maze.HasSlot(s) && !maze.HasSlot(Facing(s)) ::
      maze.WallAt(s) != InvalidWallId
    ensures var open := WithDoors(maze);
      && open.Valid() && open.rows == maze.rows && open.cols == maze.cols
      && open.WallAt(Slot(0, 0, Top)) == InvalidWallId
      && open.WallAt(Slot(maze.rows - 1, maze.cols - 1, Bottom)) == InvalidWallId
      && (forall s {:trigger open.WallAt(s)} | open.HasSlot(s) && !open.HasSlot(Facing(s))
                       && s != Slot(0, 0, Top) && s != Slot(maze.rows - 1, maze.cols - 1, Bottom) ::
            open.WallAt(s) != InvalidWallId)
      && |open.walls| == |maze.walls| - 2
  {
    var top, bottom := Slot(0, 0, Top), Slot(maze.rows - 1, maze.cols - 1, Bottom);
    var half := maze.RemovedWall(maze.WallAt(top));
    maze.RemovedWallValid(maze.WallAt(top));
    var open := half.RemovedWall(maze.WallAt(bottom));
    assert open == WithDoors(maze);
    OpenDoors(maze, top, bottom, half, open);
  }

  /** Opening the entrance and then the exit only takes walls out: every wall left was
      there before, and every side that was open stays open. */
  lemma DoorsOnlyOpen(maze: Layout)
    requires maze.Valid() && maze.rows >= 1 && maze.cols >= 1
    requires forall s {:trigger maze.WallAt(s)} | maze.HasSlot(s) && !maze.HasSlot(Facing(s)) ::
      maze.WallAt(s) != InvalidWallId
    requires WithDoors(maze).Valid()
    ensures WithDoors(maze).walls.Keys <= maze.walls.Keys
    ensures Opened(maze, WithDoors(maze))
  {
    var top, bottom := Slot(0, 0, Top), Slot(maze.rows - 1, maze.cols - 1, Bottom);
    assert !maze.HasSlot(Facing(top)) && !maze.HasSlot(Facing(bottom));
    var half := maze.RemovedWall(maze.WallAt(top));
    maze.RemovedWallValid(maze.WallAt(top));
    var open := half.RemovedWall(maze.WallAt(bottom));
    assert open == WithDoors(maze);
    OpenDoor(maze, top, half);
    assert half.WallAt(bottom) == maze.WallAt(bottom);
    OpenDoor(half, bottom, open);
    maze.RemovedWallSlots(maze.WallAt(top));
    half.RemovedWallSlots(maze.WallAt(bottom));
    OpenedTwice(maze, half, open);
  }

  /** Opening the entrance and then the exit of the carved maze yields the maze
      Generate promises. */
  lemma Generated(maze: Layout, visited: set<CellId>, carved: set<WallId>, initial: map<WallId, Wall>)
    requires Carved(maze, visited, carved, initial)
    ensures GeneratedMaze(WithDoors(maze), visited, carved, initial, maze.rows, maze.cols)
  {
    DoorsOpened(maze);
    DoorsOnlyOpen(maze);
    DoorsKept(maze, WithDoors(maze));
  }

  class MazeGenerator {
    const maze: Maze
    const rowCount: int
    const colCount: int
    var visited: set<CellId>
    /** The frontier walls (the source's member `walls`). */
    var frontier: set<WallId>
    /** The registry Reset built, and the walls the carving loop removed from it. */
    ghost var initialWalls: map<WallId, Wall>
    ghost var carved: set<WallId>

    constructor (rowCount: int, colCount: int)
      ensures this.rowCount == rowCount && this.colCount == colCount
      ensures fresh(maze) && maze.Valid() && visited == {} && frontier == {}
    {
      maze := new Maze();
      this.rowCount := rowCount;
      this.colCount := colCount;
      visited := {};
      frontier := {};
      initialWalls := map[];
      carved := {};
    }

    function GetMaze(): Maze
    {
      maze
    }

    /** MazeGenerator::VisitCell: puts the walls of `cellId` whose other cell exists and
        is unvisited on the frontier, then marks the cell visited. */
    method VisitCell(cellId: CellId)
      requires maze.Valid() && 0 <= cellId < |maze.cells|
      modifies this`visited, this`frontier
      ensures visited == old(visited) + {cellId}
      ensures frontier == old(frontier) + Exits(maze.Model(), cellId, old(visited))
    {
      ghost var model := maze.Model();
      var cell := maze.cells[cellId];
      var ids := cell.EnumerateWalls();
      OccupiedMembers(cell.walls);
      var i := 0;
      while i < |ids|
        invariant 0 <= i <= |ids|
        invariant visited == old(visited)
        invariant forall w :: w in frontier <==>
          w in old(frontier) || (w in ids[..i] && Opening(model, cellId, visited, w))
      {
        var wallId := ids[i];
        model.CellWallLive(cellId, wallId);
        var wall := maze.walls[wallId];
        var otherCellId := wall.GetOtherCellId(cellId);
        if otherCellId != InvalidCellId && otherCellId !in visited {
          frontier := frontier + {wallId};
        }
        assert ids[..i + 1] == ids[..i] + [wallId];
        i := i + 1;
      }
      assert ids[..i] == ids;
      ExitsCollected(model, cellId, visited, ids, old(frontier), frontier);
      visited := visited + {cellId};
    }

    /** MazeGenerator::SelectRandomWall: some frontier wall, InvalidWallId when the
        frontier is empty. */
    method SelectRandomWall() returns (wallId: WallId)
      ensures frontier == {} ==> wallId == InvalidWallId
      ensures frontier != {} ==> wallId in frontier
    {
      if frontier == {} {
        return InvalidWallId;
      }
      assert exists w :: w in frontier by {
        if forall w :: w !in frontier {
          assert false;
        }
      }
      wallId :| wallId in frontier;
    }

    /** The carving loop of MazeGenerator::Generate: draw frontier walls until none is
        left, removing each one that leads to an unvisited cell and visiting that cell. */
    method Carve()
      requires Carving(maze.Model(), visited, frontier, carved, initialWalls)
      modifies this`visited, this`frontier, this`carved, maze
      ensures maze.rows == old(maze.rows) && maze.cols == old(maze.cols)
      ensures Carving(maze.Model(), visited, frontier, carved, initialWalls) && frontier == {}
    {
      ghost var cellCount := |maze.cells|;
      CellSetSize(visited, cellCount);
      while frontier != {}
        invariant maze.rows == old(maze.rows) && maze.cols == old(maze.cols)
        invariant |maze.cells| == cellCount
        invariant Carving(maze.Model(), visited, frontier, carved, initialWalls)
        invariant |visited| <= cellCount
        decreases cellCount - |visited|, |frontier|
      {
        var wallId := SelectRandomWall();
        var wall := maze.walls[wallId];
        var cellId1 := wall.cellId1;
        var cellId2 := wall.cellId2;
        var cellVisited1 := cellId1 in visited;
        var cellVisited2 := cellId2 in visited;
        ghost var before, visitedBefore, frontierBefore, carvedBefore := maze.Model(), visited, frontier, carved;
        if cellVisited1 != cellVisited2 {
          var newCellId := if cellVisited1 then cellId2 else cellId1;
          CarveTarget(before, visitedBefore, frontierBefore, carvedBefore, initialWalls, wallId);
          maze.RemoveWall(wallId);
          VisitCell(newCellId);
          carved := carved + {wallId};
          frontier := frontier - {wallId};
          CarveStep(before, visitedBefore, frontierBefore, carvedBefore, initialWalls, wallId,
                    maze.Model(), visited, frontier, carved);
          CellSetSize(visited, cellCount);
        } else {
          frontier := frontier - {wallId};
          CarveSkip(before, visitedBefore, frontierBefore, carvedBefore, initialWalls, wallId, frontier);
        }
      }
    }

    /** The end of MazeGenerator::Generate: removes the wall on the Top side of cell
        (0, 0) (the entrance) and the wall on the Bottom side of cell
        (rows - 1, cols - 1) (the exit). */
    method OpenEntranceAndExit()
      requires maze.Valid() && maze.rows >= 1 && maze.cols >= 1
      modifies maze
      ensures maze.Valid() && maze.Model() == WithDoors(old(maze.Model()))
    {
      var entrance := maze.GetWallId(0, 0, Top);
      var exit := maze.GetWallId(maze.rows - 1, maze.cols - 1, Bottom);
      maze.RemoveWall(entrance);
      maze.RemoveWall(exit);
    }

    /** MazeGenerator::Generate: resets the maze to a full grid, carves passages from
        cell 0 until every cell is reached, then opens the entrance and the exit. */
    method Generate() returns (ok: bool)
      requires rowCount >= 1 && colCount >= 1
      modifies this, maze
      ensures ok && frontier == {}
      ensures GeneratedMaze(maze.Model(), visited, carved, initialWalls, rowCount, colCount)
    {
      maze.Reset(rowCount, colCount);
      visited := {};
      frontier := {};
      initialWalls := maze.walls;
      carved := {};
      MulMonotone(1, rowCount, colCount);

      var firstCellId := maze.GetCellId(0, 0);
      VisitCell(firstCellId);
      CarveStart(maze.Model(), visited, frontier, carved, initialWalls);
      Carve();
      Finished(maze.Model(), visited, carved, initialWalls);
      Generated(maze.Model(), visited, carved, initialWalls);
      OpenEntranceAndExit();
      return true;
    }
  }
}
