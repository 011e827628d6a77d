/**
  The geometry emitter of Sources/AddOn/MazeGenerator.cpp: WallCollector and
  Maze::GetWallGeometries.  One collector runs along every horizontal and every
  vertical grid line; it is fed the unit spans of the walls on its line in order,
  keeps a running span while the next span starts where the running one ends, and
  emits the running span as a segment when a gap appears or at the final flush.

  Positions are grid indices: the source scales them by the cell size and compares
  them with a tolerance, which on grid indices is plain equality.
 */
module Geometry {
  import opened Grid
  import opened Topology

  /** WallCollector::Direction. */
  datatype Orientation = Horizontal | Vertical

  /** WallGeometry: a wall segment from (begX, begY) to (endX, endY). */
  datatype Segment = Segment(begX: int, begY: int, endX: int, endY: int)

  /** A stretch [beg, end] along a grid line. */
  datatype Span = Span(beg: int, end: int)

  /** The segment a collector of orientation `o` on the line at `elevation` emits for
      span `s`. */
  function Draw(o: Orientation, elevation: int, s: Span): Segment
  {
    match o
    case Horizontal => Segment(s.beg, elevation, s.end, elevation)
    case Vertical => Segment(elevation, s.beg, elevation, s.end)
  }

  function DrawAll(o: Orientation, elevation: int, spans: seq<Span>): (segments: seq<Segment>)
    ensures |segments| == |spans|
  {
    seq(|spans|, i requires 0 <= i < |spans| => Draw(o, elevation, spans[i]))
  }

  lemma DrawAllAppend(o: Orientation, elevation: int, a: seq<Span>, b: seq<Span>)
    ensures DrawAll(o, elevation, a + b) == DrawAll(o, elevation, a) + DrawAll(o, elevation, b)
  {
    assert forall i | 0 <= i < |a + b| ::
      DrawAll(o, elevation, a + b)[i] == (DrawAll(o, elevation, a) + DrawAll(o, elevation, b))[i];
  }

  /** The collector's running span: none yet, or [beg, end]. */
  datatype Pending = Idle | Open(beg: int, end: int)

  /** The spans a collector has emitted and its running span. */
  datatype Run = Run(done: seq<Span>, pending: Pending)

  /** WallCollector::AddWall on values: a span starting where the running span ends
      extends it; otherwise the running span is emitted and the new span starts a new
      one. */
  function Extend(r: Run, s: Span): Run
  {
    match r.pending
    case Idle => Run(r.done, Open(s.beg, s.end))
    case Open(beg, end) =>
      if end == s.beg then Run(r.done, Open(beg, s.end))
      else Run(r.done + [Span(beg, end)], Open(s.beg, s.end))
  }

  /** The state of a fresh collector after it is fed `spans` in order. */
  function Fold(spans: seq<Span>): Run
  {
    if spans == [] then Run([], Idle) else Extend(Fold(spans[..|spans| - 1]), spans[|spans| - 1])
  }

  /** WallCollector::Flush on values: the emitted spans once the running one is out. */
  function Flushed(r: Run): seq<Span>
  {
    match r.pending
    case Idle => r.done
    case Open(beg, end) => r.done + [Span(beg, end)]
  }

  /** What a collector fed `spans` emits in all. */
  function Merge(spans: seq<Span>): seq<Span>
  {
    Flushed(Fold(spans))
  }

  /** The unit spans [k, k + 1] of a grid line whose k-th unit holds a wall when
      `bits[k]`, in order along the line. */
  function Units(bits: seq<bool>): seq<Span>
  {
    if bits == [] then []
    else Units(bits[..|bits| - 1]) + (if bits[|bits| - 1] then [Span(|bits| - 1, |bits|)] else [])
  }

  /** Some span of `out` covers unit k. */
  predicate Covered(out: seq<Span>, k: int)
  {
    |out| > 0 && ((out[|out| - 1].beg <= k < out[|out| - 1].end) || Covered(out[..|out| - 1], k))
  }

  /** Non-empty spans inside a line of n units, in order with a gap between
      neighbours. */
  predicate Ordered(out: seq<Span>, n: int)
  {
    && (forall j | 0 <= j < |out| :: 0 <= out[j].beg < out[j].end <= n)
    && (forall j | 0 <= j < |out| - 1 :: out[j].end < out[j + 1].beg)
  }

  /** `out` is the sequence of runs of the units set in `bits`: ordered spans
      covering exactly the set units. */
  predicate Runs(out: seq<Span>, bits: seq<bool>)
  {
    && Ordered(out, |bits|)
    && (forall k | 0 <= k < |bits| :: bits[k] <==> Covered(out, k))
  }

  /** Every run is maximal: bounded on each side by an unset unit or an end of the
      line. */
  predicate Maximal(out: seq<Span>, bits: seq<bool>)
    requires Ordered(out, |bits|)
  {
    && (forall j | 0 <= j < |out| :: out[j].beg == 0 || !bits[out[j].beg - 1])
    && (forall j | 0 <= j < |out| :: out[j].end == |bits| || !bits[out[j].end])
  }

  lemma CoveredAppend(out: seq<Span>, s: Span, k: int)
    ensures Covered(out + [s], k) <==> Covered(out, k) || s.beg <= k < s.end
  {
    assert (out + [s])[..|out|] == out;
  }

  /** The span of `out` that covers a covered unit. */
  lemma {:induction false} CoveringSpan(out: seq<Span>, k: int) returns (j: int)
    requires Covered(out, k)
    ensures 0 <= j < |out| && out[j].beg <= k < out[j].end
  {
    var last := |out| - 1;
    if out[last].beg <= k < out[last].end {
      j := last;
    } else {
      j := CoveringSpan(out[..last], k);
    }
  }

  /** In ordered spans, later spans lie further along the line. */
  lemma {:induction false} Ascending(out: seq<Span>, n: int, i: int, j: int)
    requires Ordered(out, n) && 0 <= i < j < |out|
    ensures out[i].end < out[j].beg
    decreases j - i
  {
    if i + 1 < j {
      Ascending(out, n, i + 1, j);
    }
  }

  /** A unit covered by ordered spans lies before the end of the last one. */
  lemma CoveredBefore(out: seq<Span>, n: int, k: int)
    requires Ordered(out, n) && Covered(out, k)
    ensures k < out[|out| - 1].end
  {
    var j := CoveringSpan(out, k);
    if j < |out| - 1 {
      Ascending(out, n, j, |out| - 1);
    }
  }

  /** Runs are maximal: a set unit next to a run would be covered by another span,
      which the gaps rule out. */
  lemma RunsMaximal(out: seq<Span>, bits: seq<bool>)
    requires Runs(out, bits)
    ensures Maximal(out, bits)
  {
    var n := |bits|;
    forall j | 0 <= j < |out| && out[j].beg > 0 && bits[out[j].beg - 1]
      ensures false
    {
      var i := CoveringSpan(out, out[j].beg - 1);
      if i < j {
        Ascending(out, n, i, j);
      } else if j < i {
        Ascending(out, n, j, i);
      }
    }
    forall j | 0 <= j < |out| && out[j].end < n && bits[out[j].end]
      ensures false
    {
      var i := CoveringSpan(out, out[j].end);
      if i < j {
        Ascending(out, n, i, j);
      } else if j < i {
        Ascending(out, n, j, i);
      }
    }
  }

  /** The invariant of a collector fed the units of `bits`: what it would emit if
      flushed now are the maximal runs of `bits`, it is idle only before its first
      span, and its running span reaches the end of the line exactly when the last
      unit is set. */
  ghost predicate Running(r: Run, bits: seq<bool>)
  {
    && Runs(Flushed(r), bits)
    && (r.pending.Idle? ==> r.done == [])
    && (r.pending.Open? ==> (|bits| > 0 && bits[|bits| - 1] <==> r.pending.end == |bits|))
  }

  lemma {:induction false} FoldUnits(bits: seq<bool>)
    ensures Running(Fold(Units(bits)), bits)
  {
    if bits == [] {
      assert Units(bits) == [];
    } else {
      var n := |bits| - 1;
      var prefix := bits[..n];
      assert bits == prefix + [bits[n]];
      FoldUnits(prefix);
      var r := Fold(Units(prefix));
      if bits[n] {
        var u := Span(n, n + 1);
        assert Units(bits) == Units(prefix) + [u];
        assert (Units(prefix) + [u])[..|Units(prefix)|] == Units(prefix);
        assert Fold(Units(bits)) == Extend(r, u);
        ExtendRuns(r, prefix, u);
      } else {
        assert Units(bits) == Units(prefix);
        SkipRuns(Flushed(r), prefix);
        if r.pending.Open? {
          assert Flushed(r)[|Flushed(r)| - 1].end == r.pending.end;
        }
      }
    }
  }

  /** A set unit after the units of `bits` extends the running span or opens a run. */
  lemma ExtendRuns(r: Run, bits: seq<bool>, u: Span)
    requires Running(r, bits) && u == Span(|bits|, |bits| + 1)
    ensures Running(Extend(r, u), bits + [true])
  {
    match r.pending
    case Idle =>
      assert Flushed(Extend(r, u)) == Flushed(r) + [u];
      ExtendGap(Flushed(r), bits);
    case Open(beg, end) =>
      if end == |bits| {
        ExtendMerge(r.done, beg, bits);
      } else {
        assert Flushed(Extend(r, u)) == Flushed(r) + [u];
        ExtendGap(Flushed(r), bits);
      }
  }

  /** A set unit after a gap opens a new run. */
  lemma ExtendGap(out: seq<Span>, bits: seq<bool>)
    requires Runs(out, bits) && (out != [] ==> out[|out| - 1].end < |bits|)
    ensures Runs(out + [Span(|bits|, |bits| + 1)], bits + [true])
  {
    var n := |bits|;
    OrderedAppend(out, Span(n, n + 1), n);
    forall k | 0 <= k < n + 1 ensures (bits + [true])[k] <==> Covered(out + [Span(n, n + 1)], k) {
      CoverGap(out, bits, k);
    }
  }

  lemma OrderedAppend(out: seq<Span>, s: Span, n: int)
    requires Ordered(out, n) && (out != [] ==> out[|out| - 1].end < s.beg) && 0 <= s.beg < s.end <= n + 1
    ensures Ordered(out + [s], n + 1)
  {
    var out' := out + [s];
    forall j | 0 <= j < |out'| - 1 ensures out'[j].end < out'[j + 1].beg {
      if j + 1 < |out| {
        assert out'[j] == out[j] && out'[j + 1] == out[j + 1];
      }
    }
  }

  lemma CoverGap(out: seq<Span>, bits: seq<bool>, k: int)
    requires Runs(out, bits) && 0 <= k <= |bits|
    ensures (bits + [true])[k] <==> Covered(out + [Span(|bits|, |bits| + 1)], k)
  {
    var n := |bits|;
    CoveredAppend(out, Span(n, n + 1), k);
    if k < n {
      assert (bits + [true])[k] == bits[k];
    } else if Covered(out, k) {
      CoveredBefore(out, n, k);
    }
  }

  /** A set unit right after the running span extends it. */
  lemma ExtendMerge(done: seq<Span>, beg: int, bits: seq<bool>)
    requires Runs(done + [Span(beg, |bits|)], bits)
    ensures Runs(done + [Span(beg, |bits| + 1)], bits + [true])
  {
    var n := |bits|;
    OrderedStretch(done, beg, n);
    forall k | 0 <= k < n + 1 ensures (bits + [true])[k] <==> Covered(done + [Span(beg, n + 1)], k) {
      CoverMerge(done, beg, bits, k);
    }
  }

  lemma OrderedStretch(done: seq<Span>, beg: int, n: int)
    requires Ordered(done + [Span(beg, n)], n)
    ensures Ordered(done + [Span(beg, n + 1)], n + 1)
  {
    var out := done + [Span(beg, n)];
    var out' := done + [Span(beg, n + 1)];
    forall j | 0 <= j < |out'| ensures 0 <= out'[j].beg < out'[j].end <= n + 1 {
      assert out'[j].beg == out[j].beg;
    }
    forall j | 0 <= j < |out'| - 1 ensures out'[j].end < out'[j + 1].beg {
      assert out'[j] == out[j] && out'[j + 1].beg == out[j + 1].beg;
    }
  }

  lemma CoverMerge(done: seq<Span>, beg: int, bits: seq<bool>, k: int)
    requires Runs(done + [Span(beg, |bits|)], bits) && 0 <= k <= |bits|
    ensures (bits + [true])[k] <==> Covered(done + [Span(beg, |bits| + 1)], k)
  {
    var n := |bits|;
    CoveredAppend(done, Span(beg, n), k);
    CoveredAppend(done, Span(beg, n + 1), k);
    if k < n {
      assert (bits + [true])[k] == bits[k];
    } else {
      assert (done + [Span(beg, n)])[|done|] == Span(beg, n);
    }
  }

  /** An unset unit closes any run. */
  lemma SkipRuns(out: seq<Span>, bits: seq<bool>)
    requires Runs(out, bits)
    ensures Runs(out, bits + [false])
  {
    var bits' := bits + [false];
    forall k | 0 <= k < |bits'| ensures bits'[k] <==> Covered(out, k) {
      if k < |bits| {
        assert bits'[k] == bits[k];
      } else if Covered(out, k) {
        CoveredBefore(out, |bits|, k);
      }
    }
  }

  /** A collector fed the unit spans of a grid line emits exactly the maximal runs of
      walls on that line, one segment per run. */
  lemma MergeUnits(bits: seq<bool>)
    ensures Runs(Merge(Units(bits)), bits) && Maximal(Merge(Units(bits)), bits)
  {
    FoldUnits(bits);
    RunsMaximal(Merge(Units(bits)), bits);
  }

  lemma FoldAppend(spans: seq<Span>, s: Span)
    ensures Fold(spans + [s]) == Extend(Fold(spans), s)
  {
    assert (spans + [s])[..|spans|] == spans;
  }

  lemma UnitsAppend(bits: seq<bool>, b: bool)
    ensures Units(bits + [b]) == Units(bits) + (if b then [Span(|bits|, |bits| + 1)] else [])
  {
    assert (bits + [b])[..|bits|] == bits;
  }

  /** The vector of wall geometries that all collectors of one call share. */
  class Sink {
    var segments: seq<Segment>

    constructor ()
      ensures segments == []
    {
      segments := [];
    }
  }

  /** WallCollector: the running span of one grid line.  `fed` and `emitted` record
      the spans AddWall received and the spans Flush emitted, in order. */
  class WallCollector {
    const sink: Sink
    const direction: Orientation
    const elevation: int
    var begPosition: int
    var endPosition: int
    var hasWall: bool
    ghost var fed: seq<Span>
    ghost var emitted: seq<Span>

    ghost function State(): Run
      reads this
    {
      Run(emitted, if hasWall then Open(begPosition, endPosition) else Idle)
    }

    /** The collector is where Fold puts a fresh collector fed the same spans. */
    ghost predicate Valid()
      reads this
    {
      State() == Fold(fed)
    }

    constructor (sink: Sink, direction: Orientation, elevation: int)
      ensures Valid() && fed == [] && emitted == []
      ensures this.sink == sink && this.direction == direction && this.elevation == elevation
    {
      this.sink := sink;
      this.direction := direction;
      this.elevation := elevation;
      begPosition := 0;
      endPosition := 0;
      hasWall := false;
      fed := [];
      emitted := [];
    }

    /** WallCollector::AddWall: feeds the span [beg, end]; whatever it emits goes to
        the shared sink, drawn on this collector's line. */
    method AddWall(beg: int, end: int)
      requires Valid()
      modifies this, sink
      ensures Valid() && fed == old(fed) + [Span(beg, end)]
      ensures |emitted| >= |old(emitted)| && emitted[..|old(emitted)|] == old(emitted)
      ensures sink.segments == old(sink.segments) + DrawAll(direction, elevation, emitted[|old(emitted)|..])
    {
      FoldAppend(fed, Span(beg, end));
      if hasWall && endPosition != beg {
        Flush();
      }
      if !hasWall {
        begPosition := beg;
      }
      endPosition := end;
      hasWall := true;
      fed := fed + [Span(beg, end)];
    }

    /** WallCollector::Flush: emits the running span, if any, and goes idle; on a
        valid collector everything emitted is then Merge of what it was fed. */
    method Flush()
      modifies this, sink
      ensures !hasWall && fed == old(fed)
      ensures begPosition == old(begPosition) && endPosition == old(endPosition)
      ensures emitted == Flushed(old(State()))
      ensures old(Valid()) ==> emitted == Merge(fed)
      ensures sink.segments == old(sink.segments) + DrawAll(direction, elevation, emitted[|old(emitted)|..])
    {
      if hasWall {
        if direction == Horizontal {
          sink.segments := sink.segments + [Segment(begPosition, elevation, endPosition, elevation)];
        } else if direction == Vertical {
          sink.segments := sink.segments + [Segment(elevation, begPosition, elevation, endPosition)];
        }
        emitted := emitted + [Span(begPosition, endPosition)];
        hasWall := false;
      }
    }
  }

  /** Whether unit k of horizontal grid line i holds a wall, as GetWallGeometries
      reads it: the Top side of cell (i, k), and on the bottom line the Bottom side
      of the last row. */
  ghost predicate HorizontalWall(m: Layout, i: int, k: int)
    requires m.Shaped() && 0 < m.rows && 0 <= i <= m.rows && 0 <= k < m.cols
  {
    if i < m.rows then m.WallAt(Slot(i, k, Top)) != InvalidWallId
    else m.WallAt(Slot(m.rows - 1, k, Bottom)) != InvalidWallId
  }

  /** Whether unit k of vertical grid line j holds a wall: the Left side of cell
      (k, j), and on the right line the Right side of the last column. */
  ghost predicate VerticalWall(m: Layout, j: int, k: int)
    requires m.Shaped() && 0 < m.cols && 0 <= j <= m.cols && 0 <= k < m.rows
  {
    if j < m.cols then m.WallAt(Slot(k, j, Left)) != InvalidWallId
    else m.WallAt(Slot(k, m.cols - 1, Right)) != InvalidWallId
  }

  /** The first n units of horizontal line i. */
  ghost function HorizontalBits(m: Layout, i: int, n: int): (bits: seq<bool>)
    requires m.Shaped() && 0 <= i <= m.rows && 0 <= n <= m.cols && (n > 0 ==> m.rows > 0)
    ensures |bits| == n
  {
    seq(n, k requires 0 <= k < n => HorizontalWall(m, i, k))
  }

  /** The first n units of vertical line j. */
  ghost function VerticalBits(m: Layout, j: int, n: int): (bits: seq<bool>)
    requires m.Shaped() && 0 <= j <= m.cols && 0 <= n <= m.rows && (n > 0 ==> m.cols > 0)
    ensures |bits| == n
  {
    seq(n, k requires 0 <= k < n => VerticalWall(m, j, k))
  }

  /** How many units of horizontal line i the scan has passed once the cells before
      (row, col) in row-major order are done. */
  function HorizontalDone(rows: int, cols: int, i: int, row: int, col: int): int
  {
    if rows <= 0 then 0
    else
      var r := if i < rows then i else rows - 1;
      if r < row then cols else if r == row then col else 0
  }

  /** How many units of vertical line j the scan has passed. */
  function VerticalDone(rows: int, cols: int, j: int, row: int, col: int): int
  {
    if cols <= 0 then 0
    else
      var c := if j < cols then j else cols - 1;
      row + (if col > c then 1 else 0)
  }

  /** All units of horizontal line i, and of vertical line j. */
  ghost function HorizontalLine(m: Layout, i: int): seq<bool>
    requires m.Shaped() && 0 <= i <= m.rows
  {
    HorizontalBits(m, i, HorizontalDone(m.rows, m.cols, i, m.rows, 0))
  }

  ghost function VerticalLine(m: Layout, j: int): seq<bool>
    requires m.Shaped() && 0 <= j <= m.cols
  {
    VerticalBits(m, j, VerticalDone(m.rows, m.cols, j, m.rows, 0))
  }

  /** The segments drawn for the spans of a family of lines, line i at elevation i. */
  function Drawn(o: Orientation, lines: seq<seq<Span>>): multiset<Segment>
  {
    DrawnBelow(o, lines, |lines|)
  }

  /** The segments drawn for lines 0 .. n-1. */
  function DrawnBelow(o: Orientation, lines: seq<seq<Span>>, n: int): multiset<Segment>
    requires 0 <= n <= |lines|
  {
    if n == 0 then multiset{}
    else DrawnBelow(o, lines, n - 1) + multiset(DrawAll(o, n - 1, lines[n - 1]))
  }

  lemma {:induction false} DrawnBelowUpdate(o: Orientation, lines: seq<seq<Span>>, i: int, extra: seq<Span>, n: int)
    requires 0 <= i < |lines| && 0 <= n <= |lines|
    ensures DrawnBelow(o, lines[i := lines[i] + extra], n) ==
      DrawnBelow(o, lines, n) + (if i < n then multiset(DrawAll(o, i, extra)) else multiset{})
  {
    if n > 0 {
      var lines' := lines[i := lines[i] + extra];
      var add := multiset(DrawAll(o, i, extra));
      var here := multiset(DrawAll(o, n - 1, lines[n - 1]));
      var here' := multiset(DrawAll(o, n - 1, lines'[n - 1]));
      DrawnBelowUpdate(o, lines, i, extra, n - 1);
      assert here' == if n - 1 == i then here + add else here by {
        if n - 1 == i {
          DrawAllAppend(o, i, lines[i], extra);
          assert lines'[n - 1] == lines[i] + extra;
        } else {
          assert lines'[n - 1] == lines[n - 1];
        }
      }
      Regroup(DrawnBelow(o, lines, n - 1), DrawnBelow(o, lines', n - 1), here, here', add, i < n - 1, n - 1 == i);
    }
  }

  /** Multiset bookkeeping for one line of DrawnBelowUpdate. */
  lemma Regroup(prev: multiset<Segment>, prev': multiset<Segment>, here: multiset<Segment>, here': multiset<Segment>,
                add: multiset<Segment>, before: bool, at: bool)
    requires !(before && at)
    requires prev' == prev + (if before then add else multiset{})
    requires here' == if at then here + add else here
    ensures prev' + here' == (prev + here) + (if before || at then add else multiset{})
  {
  }

  /** Appending spans to line i adds exactly their segments at elevation i. */
  lemma DrawnUpdate(o: Orientation, lines: seq<seq<Span>>, i: int, extra: seq<Span>)
    requires 0 <= i < |lines|
    ensures Drawn(o, lines[i := lines[i] + extra]) == Drawn(o, lines) + multiset(DrawAll(o, i, extra))
  {
    DrawnBelowUpdate(o, lines, i, extra, |lines|);
  }

  /** The runs of every horizontal grid line, top to bottom. */
  ghost function HorizontalRuns(m: Layout): (runs: seq<seq<Span>>)
    requires m.Shaped()
    ensures |runs| == m.rows + 1
  {
    seq(m.rows + 1, i requires 0 <= i <= m.rows => Merge(Units(HorizontalLine(m, i))))
  }

  /** The runs of every vertical grid line, left to right. */
  ghost function VerticalRuns(m: Layout): (runs: seq<seq<Span>>)
    requires m.Shaped()
    ensures |runs| == m.cols + 1
  {
    seq(m.cols + 1, j requires 0 <= j <= m.cols => Merge(Units(VerticalLine(m, j))))
  }

  /** The runs of every grid line are the maximal runs of walls on it, in order,
      with a gap between neighbours. */
  lemma LineRuns(m: Layout)
    requires m.Shaped()
    ensures forall i | 0 <= i <= m.rows ::
      Runs(HorizontalRuns(m)[i], HorizontalLine(m, i)) && Maximal(HorizontalRuns(m)[i], HorizontalLine(m, i))
    ensures forall j | 0 <= j <= m.cols ::
      Runs(VerticalRuns(m)[j], VerticalLine(m, j)) && Maximal(VerticalRuns(m)[j], VerticalLine(m, j))
  {
    forall i | 0 <= i <= m.rows
      ensures Runs(HorizontalRuns(m)[i], HorizontalLine(m, i)) && Maximal(HorizontalRuns(m)[i], HorizontalLine(m, i))
    {
      MergeUnits(HorizontalLine(m, i));
    }
    forall j | 0 <= j <= m.cols
      ensures Runs(VerticalRuns(m)[j], VerticalLine(m, j)) && Maximal(VerticalRuns(m)[j], VerticalLine(m, j))
    {
      MergeUnits(VerticalLine(m, j));
    }
  }

  /** The wall geometries of a layout: on every grid line, one segment per maximal
      run of walls (MergeUnits). */
  ghost function WallGeometries(m: Layout): multiset<Segment>
    requires m.Shaped()
  {
    Drawn(Horizontal, HorizontalRuns(m)) + Drawn(Vertical, VerticalRuns(m))
  }

  /** Distinct collectors, one per line. */
  ghost predicate Distinct(hs: seq<WallCollector>, vs: seq<WallCollector>)
  {
    && (forall i, j | 0 <= i < j < |hs| :: hs[i] != hs[j])
    && (forall i, j | 0 <= i < j < |vs| :: vs[i] != vs[j])
    && (forall i, j | 0 <= i < |hs| && 0 <= j < |vs| :: hs[i] != vs[j])
  }

  /** A family of collectors of orientation `o` sharing `sink`, collector i on line i
      having emitted `out[i]`. */
  ghost predicate Family(cs: seq<WallCollector>, o: Orientation, sink: Sink, out: seq<seq<Span>>)
    reads set c | c in cs
  {
    && |out| == |cs|
    && forall i | 0 <= i < |cs| ::
         cs[i].sink == sink && cs[i].direction == o && cs[i].elevation == i && cs[i].emitted == out[i]
  }

  /** The state GetWallGeometries keeps: distinct collectors on a shared sink that
      holds exactly what they emitted; collectors below `hk` (resp. `vk`) are
      flushed, having emitted Merge of their target, and the others are valid and
      have been fed exactly their target in `ht` (resp. `vt`). */
  ghost predicate Collecting(hs: seq<WallCollector>, vs: seq<WallCollector>, sink: Sink,
                             hOut: seq<seq<Span>>, vOut: seq<seq<Span>>,
                             ht: seq<seq<Span>>, vt: seq<seq<Span>>, hk: int, vk: int)
    reads (set c | c in hs), (set c | c in vs), sink
  {
    CollectingBody(hs, vs, sink, hOut, vOut, ht, vt, hk, vk)
  }

  ghost predicate CollectingBody(hs: seq<WallCollector>, vs: seq<WallCollector>, sink: Sink,
                             hOut: seq<seq<Span>>, vOut: seq<seq<Span>>,
                             ht: seq<seq<Span>>, vt: seq<seq<Span>>, hk: int, vk: int)
    reads (set c | c in hs), (set c | c in vs), sink
  {
    && Distinct(hs, vs) && Family(hs, Horizontal, sink, hOut) && Family(vs, Vertical, sink, vOut)
    && |ht| == |hs| && |vt| == |vs| && 0 <= hk <= |hs| && 0 <= vk <= |vs|
    && (forall i | 0 <= i < |hs| ::
          if i < hk then hOut[i] == Merge(ht[i]) else hs[i].Valid() && hs[i].fed == ht[i])
    && (forall j | 0 <= j < |vs| ::
          if j < vk then vOut[j] == Merge(vt[j]) else vs[j].Valid() && vs[j].fed == vt[j])
    && multiset(sink.segments) == Drawn(Horizontal, hOut) + Drawn(Vertical, vOut)
  }

  /** In closed form, what the horizontal collectors have been fed once the cells
      before (row, col) are done: the units of each line so far. */
  ghost function HorizontalUnits(m: Layout, row: int, col: int): (t: seq<seq<Span>>)
    requires m.Shaped() && 0 <= row <= m.rows && 0 <= col <= m.cols && (row == m.rows ==> col == 0)
    ensures |t| == m.rows + 1
  {
    seq(m.rows + 1, i requires 0 <= i <= m.rows =>
      Units(HorizontalBits(m, i, HorizontalDone(m.rows, m.cols, i, row, col))))
  }

  /** In closed form, what the vertical collectors have been fed. */
  ghost function VerticalUnits(m: Layout, row: int, col: int): (t: seq<seq<Span>>)
    requires m.Shaped() && 0 <= row <= m.rows && 0 <= col <= m.cols && (row == m.rows ==> col == 0)
    ensures |t| == m.cols + 1
  {
    seq(m.cols + 1, j requires 0 <= j <= m.cols =>
      Units(VerticalBits(m, j, VerticalDone(m.rows, m.cols, j, row, col))))
  }

  /** Line i of `t` gains the unit `u` when `present`. */
  function Grow(t: seq<seq<Span>>, i: int, u: Span, present: bool): (t': seq<seq<Span>>)
    requires 0 <= i < |t|
    ensures |t'| == |t|
  {
    if present then t[i := t[i] + [u]] else t
  }

  /** Passing cell (row, col) advances horizontal line `row`, and on the last row
      the bottom line, by the unit `col`; every other horizontal line stays. */
  lemma HorizontalAdvance(m: Layout, i: int, row: int, col: int)
    requires m.Shaped() && 0 <= row < m.rows && 0 <= col < m.cols && 0 <= i <= m.rows
    ensures Units(HorizontalBits(m, i, HorizontalDone(m.rows, m.cols, i, row, col + 1))) ==
      if i == row || (i == m.rows && row == m.rows - 1) then
        Units(HorizontalBits(m, i, HorizontalDone(m.rows, m.cols, i, row, col)))
        + (if HorizontalWall(m, i, col) then [Span(col, col + 1)] else [])
      else Units(HorizontalBits(m, i, HorizontalDone(m.rows, m.cols, i, row, col)))
  {
    if i == row || (i == m.rows && row == m.rows - 1) {
      var bits := HorizontalBits(m, i, col);
      assert HorizontalBits(m, i, col + 1) == bits + [HorizontalWall(m, i, col)];
      UnitsAppend(bits, HorizontalWall(m, i, col));
    }
  }

  /** Passing cell (row, col) advances vertical line `col`, and in the last column
      the right line, by the unit `row`; every other vertical line stays. */
  lemma VerticalAdvance(m: Layout, j: int, row: int, col: int)
    requires m.Shaped() && 0 <= row < m.rows && 0 <= col < m.cols && 0 <= j <= m.cols
    ensures Units(VerticalBits(m, j, VerticalDone(m.rows, m.cols, j, row, col + 1))) ==
      if j == col || (j == m.cols && col == m.cols - 1) then
        Units(VerticalBits(m, j, VerticalDone(m.rows, m.cols, j, row, col)))
        + (if VerticalWall(m, j, row) then [Span(row, row + 1)] else [])
      else Units(VerticalBits(m, j, VerticalDone(m.rows, m.cols, j, row, col)))
  {
    if j == col || (j == m.cols && col == m.cols - 1) {
      var bits := VerticalBits(m, j, row);
      assert VerticalBits(m, j, row + 1) == bits + [VerticalWall(m, j, row)];
      UnitsAppend(bits, VerticalWall(m, j, row));
    }
  }

  /** In closed form, passing cell (row, col) grows horizontal line `row` and, on
      the last row, the bottom line by the unit `col` where there is a wall. */
  lemma HorizontalUnitsAdvance(m: Layout, row: int, col: int)
    requires m.Shaped() && 0 <= row < m.rows && 0 <= col < m.cols
    ensures HorizontalUnits(m, row, col + 1) ==
      Grow(Grow(HorizontalUnits(m, row, col), row, Span(col, col + 1), HorizontalWall(m, row, col)),
           row + 1, Span(col, col + 1), row == m.rows - 1 && HorizontalWall(m, m.rows, col))
  {
    var t := HorizontalUnits(m, row, col);
    var t' := Grow(Grow(t, row, Span(col, col + 1), HorizontalWall(m, row, col)),
                   row + 1, Span(col, col + 1), row == m.rows - 1 && HorizontalWall(m, m.rows, col));
    forall i | 0 <= i <= m.rows
      ensures HorizontalUnits(m, row, col + 1)[i] == t'[i]
    {
      HorizontalAdvance(m, i, row, col);
    }
  }

  /** In closed form, passing cell (row, col) grows vertical line `col` and, in the
      last column, the right line by the unit `row` where there is a wall. */
  lemma VerticalUnitsAdvance(m: Layout, row: int, col: int)
    requires m.Shaped() && 0 <= row < m.rows && 0 <= col < m.cols
    ensures VerticalUnits(m, row, col + 1) ==
      Grow(Grow(VerticalUnits(m, row, col), col, Span(row, row + 1), VerticalWall(m, col, row)),
           col + 1, Span(row, row + 1), col == m.cols - 1 && VerticalWall(m, m.cols, row))
  {
    var t := VerticalUnits(m, row, col);
    var t' := Grow(Grow(t, col, Span(row, row + 1), VerticalWall(m, col, row)),
                   col + 1, Span(row, row + 1), col == m.cols - 1 && VerticalWall(m, m.cols, row));
    forall j | 0 <= j <= m.cols
      ensures VerticalUnits(m, row, col + 1)[j] == t'[j]
    {
      VerticalAdvance(m, j, row, col);
    }
  }

  /** The end of a row is the start of the next one. */
  lemma UnitsNextRow(m: Layout, row: int)
    requires m.Shaped() && 0 <= row < m.rows
    ensures HorizontalUnits(m, row, m.cols) == HorizontalUnits(m, row + 1, 0)
    ensures VerticalUnits(m, row, m.cols) == VerticalUnits(m, row + 1, 0)
  {
  }

  /** Before the scan nothing is fed, and after it every line is fed all its units. */
  lemma UnitsEnds(m: Layout)
    requires m.Shaped()
    ensures forall i | 0 <= i <= m.rows :: HorizontalUnits(m, 0, 0)[i] == []
    ensures forall j | 0 <= j <= m.cols :: VerticalUnits(m, 0, 0)[j] == []
    ensures forall i | 0 <= i <= m.rows :: HorizontalUnits(m, m.rows, 0)[i] == Units(HorizontalLine(m, i))
    ensures forall j | 0 <= j <= m.cols :: VerticalUnits(m, m.rows, 0)[j] == Units(VerticalLine(m, j))
  {
  }

  /** What the scan of Maze::GetWallGeometries has fed the horizontal collectors
      once the cells before (row, col), in row-major order, are done: each cell
      grows the line above it by its top side and, on the last row, the line below
      it by its bottom side. */
  ghost function HorizontalFed(m: Layout, row: int, col: int): (t: seq<seq<Span>>)
    requires m.Shaped() && 0 <= row <= m.rows && 0 <= col <= m.cols && (row == m.rows ==> col == 0)
    ensures |t| == m.rows + 1
    decreases row, col
  {
    if col > 0 then
      var cell := m.cells[CellIdIn(m.rows, m.cols, row, col - 1)];
      Grow(Grow(HorizontalFed(m, row, col - 1), row, Span(col - 1, col), cell.HasWall(Top)),
           row + 1, Span(col - 1, col), row == m.rows - 1 && cell.HasWall(Bottom))
    else if row > 0 then HorizontalFed(m, row - 1, m.cols)
    else seq(m.rows + 1, _ => [])
  }

  /** What the scan has fed the vertical collectors: each cell grows the line left
      of it by its left side and, in the last column, the line right of it by its
      right side. */
  ghost function VerticalFed(m: Layout, row: int, col: int): (t: seq<seq<Span>>)
    requires m.Shaped() && 0 <= row <= m.rows && 0 <= col <= m.cols && (row == m.rows ==> col == 0)
    ensures |t| == m.cols + 1
    decreases row, col
  {
    if col > 0 then
      var cell := m.cells[CellIdIn(m.rows, m.cols, row, col - 1)];
      Grow(Grow(VerticalFed(m, row, col - 1), col - 1, Span(row, row + 1), cell.HasWall(Left)),
           col, Span(row, row + 1), col == m.cols && cell.HasWall(Right))
    else if row > 0 then VerticalFed(m, row - 1, m.cols)
    else seq(m.cols + 1, _ => [])
  }

  /** One cell of the scan grows the horizontal lines exactly as one more cell of
      units does. */
  lemma HorizontalFedStep(m: Layout, row: int, col: int)
    requires m.Shaped() && 0 <= row < m.rows && 0 < col <= m.cols
    requires HorizontalFed(m, row, col - 1) == HorizontalUnits(m, row, col - 1)
    ensures HorizontalFed(m, row, col) == HorizontalUnits(m, row, col)
  {
    var u := Span(col - 1, col);
    var top := HorizontalWall(m, row, col - 1);
    var bottom := row == m.rows - 1 && HorizontalWall(m, m.rows, col - 1);
    assert HorizontalFed(m, row, col) == Grow(Grow(HorizontalFed(m, row, col - 1), row, u, top), row + 1, u, bottom) by {
      var cell := m.cells[CellIdIn(m.rows, m.cols, row, col - 1)];
      assert cell.HasWall(Top) == top;
      assert (row == m.rows - 1 && cell.HasWall(Bottom)) == bottom;
    }
    HorizontalUnitsAdvance(m, row, col - 1);
  }

  /** Moving to the next row of cells feeds the horizontal lines nothing. */
  lemma HorizontalFedRow(m: Layout, row: int)
    requires m.Shaped() && 0 < row <= m.rows
    requires HorizontalFed(m, row - 1, m.cols) == HorizontalUnits(m, row - 1, m.cols)
    ensures HorizontalFed(m, row, 0) == HorizontalUnits(m, row, 0)
  {
    assert HorizontalFed(m, row, 0) == HorizontalFed(m, row - 1, m.cols);
    UnitsNextRow(m, row - 1);
  }

  /** Within one row of cells, the scan feeds every horizontal line exactly its units
      so far, given that it did so at the start of the row. */
  lemma {:induction false} HorizontalFedAlongRow(m: Layout, row: int, col: int)
    requires m.Shaped() && 0 <= row < m.rows && 0 <= col <= m.cols
    requires HorizontalFed(m, row, 0) == HorizontalUnits(m, row, 0)
    ensures HorizontalFed(m, row, col) == HorizontalUnits(m, row, col)
  {
    if col > 0 {
      HorizontalFedAlongRow(m, row, col - 1);
      HorizontalFedStep(m, row, col);
    }
  }

  /** The scan feeds every horizontal line exactly its units so far. */
  lemma {:induction false} HorizontalFedUnits(m: Layout, row: int, col: int)
    requires m.Shaped() && 0 <= row <= m.rows && 0 <= col <= m.cols && (row == m.rows ==> col == 0)
    ensures HorizontalFed(m, row, col) == HorizontalUnits(m, row, col)
    decreases row
  {
    if row > 0 {
      HorizontalFedUnits(m, row - 1, 0);
      HorizontalFedAlongRow(m, row - 1, m.cols);
      HorizontalFedRow(m, row);
    } else {
      UnitsEnds(m);
    }
    if col > 0 {
      HorizontalFedAlongRow(m, row, col);
    }
  }

  /** One cell of the scan grows the vertical lines exactly as one more cell of
      units does. */
  lemma VerticalFedStep(m: Layout, row: int, col: int)
    requires m.Shaped() && 0 <= row < m.rows && 0 < col <= m.cols
    requires VerticalFed(m, row, col - 1) == VerticalUnits(m, row, col - 1)
    ensures VerticalFed(m, row, col) == VerticalUnits(m, row, col)
  {
    var u := Span(row, row + 1);
    var left := VerticalWall(m, col - 1, row);
    var right := col - 1 == m.cols - 1 && VerticalWall(m, m.cols, row);
    assert VerticalFed(m, row, col) == Grow(Grow(VerticalFed(m, row, col - 1), col - 1, u, left), col, u, right) by {
      var cell := m.cells[CellIdIn(m.rows, m.cols, row, col - 1)];
      assert cell.HasWall(Left) == left;
      assert (col == m.cols && cell.HasWall(Right)) == right;
    }
    VerticalUnitsAdvance(m, row, col - 1);
  }

  /** Moving to the next row of cells feeds the vertical lines nothing. */
  lemma VerticalFedRow(m: Layout, row: int)
    requires m.Shaped() && 0 < row <= m.rows
    requires VerticalFed(m, row - 1, m.cols) == VerticalUnits(m, row - 1, m.cols)
    ensures VerticalFed(m, row, 0) == VerticalUnits(m, row, 0)
  {
    assert VerticalFed(m, row, 0) == VerticalFed(m, row - 1, m.cols);
    UnitsNextRow(m, row - 1);
  }

  /** Within one row of cells, the scan feeds every vertical line exactly its units
      so far, given that it did so at the start of the row. */
  lemma {:induction false} VerticalFedAlongRow(m: Layout, row: int, col: int)
    requires m.Shaped() && 0 <= row < m.rows && 0 <= col <= m.cols
    requires VerticalFed(m, row, 0) == VerticalUnits(m, row, 0)
    ensures VerticalFed(m, row, col) == VerticalUnits(m, row, col)
  {
    if col > 0 {
      VerticalFedAlongRow(m, row, col - 1);
      VerticalFedStep(m, row, col);
    }
  }

  /** The scan feeds every vertical line exactly its units so far. */
  lemma {:induction false} VerticalFedUnits(m: Layout, row: int, col: int)
    requires m.Shaped() && 0 <= row <= m.rows && 0 <= col <= m.cols && (row == m.rows ==> col == 0)
    ensures VerticalFed(m, row, col) == VerticalUnits(m, row, col)
    decreases row
  {
    if row > 0 {
      VerticalFedUnits(m, row - 1, 0);
      VerticalFedAlongRow(m, row - 1, m.cols);
      VerticalFedRow(m, row);
    } else {
      UnitsEnds(m);
    }
    if col > 0 {
      VerticalFedAlongRow(m, row, col);
    }
  }

  /** Horizontal collector i takes the span [beg, end] when the wall is `present`. */
  method FeedHorizontal(hs: seq<WallCollector>, vs: seq<WallCollector>, sink: Sink, i: int, beg: int, end: int,
                        present: bool, ghost hOut: seq<seq<Span>>, ghost vOut: seq<seq<Span>>,
                        ghost ht: seq<seq<Span>>, ghost vt: seq<seq<Span>>)
    returns (ghost hOut': seq<seq<Span>>)
    requires 0 <= i < |hs| && Collecting(hs, vs, sink, hOut, vOut, ht, vt, 0, 0)
    modifies hs[i], sink
    ensures Collecting(hs, vs, sink, hOut', vOut, Grow(ht, i, Span(beg, end), present), vt, 0, 0)
  {
    hOut' := hOut;
    if !present {
      return;
    }
    ghost var before := hs[i].emitted;
    hs[i].AddWall(beg, end);
    ghost var extra := hs[i].emitted[|before|..];
    assert hs[i].emitted == hOut[i] + extra;
    DrawnUpdate(Horizontal, hOut, i, extra);
    hOut' := hOut[i := hs[i].emitted];
    forall a | 0 <= a < |hs| && a != i
      ensures hs[a] != hs[i]
    {
      if a < i {
        assert hs[a] != hs[i];
      } else {
        assert hs[i] != hs[a];
      }
    }
  }

  /** Vertical collector j takes the span [beg, end] when the wall is `present`. */
  method FeedVertical(hs: seq<WallCollector>, vs: seq<WallCollector>, sink: Sink, j: int, beg: int, end: int,
                      present: bool, ghost hOut: seq<seq<Span>>, ghost vOut: seq<seq<Span>>,
                      ghost ht: seq<seq<Span>>, ghost vt: seq<seq<Span>>)
    returns (ghost vOut': seq<seq<Span>>)
    requires 0 <= j < |vs| && Collecting(hs, vs, sink, hOut, vOut, ht, vt, 0, 0)
    modifies vs[j], sink
    ensures Collecting(hs, vs, sink, hOut, vOut', ht, Grow(vt, j, Span(beg, end), present), 0, 0)
  {
    vOut' := vOut;
    if !present {
      return;
    }
    ghost var before := vs[j].emitted;
    vs[j].AddWall(beg, end);
    ghost var extra := vs[j].emitted[|before|..];
    assert vs[j].emitted == vOut[j] + extra;
    DrawnUpdate(Vertical, vOut, j, extra);
    vOut' := vOut[j := vs[j].emitted];
    forall a | 0 <= a < |vs| && a != j
      ensures vs[a] != vs[j]
    {
      if a < j {
        assert vs[a] != vs[j];
      } else {
        assert vs[j] != vs[a];
      }
    }
  }

  /** Feeds the sides of one cell, in the order the source tests them: its top and
      left sides, then the closing bottom and right sides. */
  method FeedCell(hs: seq<WallCollector>, vs: seq<WallCollector>, sink: Sink, row: int, col: int,
                  top: bool, left: bool, bottom: bool, right: bool,
                  ghost hOut: seq<seq<Span>>, ghost vOut: seq<seq<Span>>,
                  ghost ht: seq<seq<Span>>, ghost vt: seq<seq<Span>>)
    returns (ghost hOut': seq<seq<Span>>, ghost vOut': seq<seq<Span>>)
    requires 0 <= row < |hs| - 1 && 0 <= col < |vs| - 1
    requires Collecting(hs, vs, sink, hOut, vOut, ht, vt, 0, 0)
    modifies (set c | c in hs), (set c | c in vs), sink
    ensures Collecting(hs, vs, sink, hOut', vOut',
                       Grow(Grow(ht, row, Span(col, col + 1), top), row + 1, Span(col, col + 1), bottom),
                       Grow(Grow(vt, col, Span(row, row + 1), left), col + 1, Span(row, row + 1), right), 0, 0)
  {
    ghost var ht', vt' := ht, vt;
    hOut' := FeedHorizontal(hs, vs, sink, row, col, col + 1, top, hOut, vOut, ht', vt');
    ht' := Grow(ht', row, Span(col, col + 1), top);
    vOut' := FeedVertical(hs, vs, sink, col, row, row + 1, left, hOut', vOut, ht', vt');
    vt' := Grow(vt', col, Span(row, row + 1), left);
    hOut' := FeedHorizontal(hs, vs, sink, row + 1, col, col + 1, bottom, hOut', vOut', ht', vt');
    ht' := Grow(ht', row + 1, Span(col, col + 1), bottom);
    vOut' := FeedVertical(hs, vs, sink, col + 1, row, row + 1, right, hOut', vOut', ht', vt');
  }

  /** One pass of the inner loop of Maze::GetWallGeometries: the top and left sides
      of cell (row, col) go to the collectors of its own lines, and on the last row
      and the last column the bottom and right sides to the closing lines. */
  method CollectCell(maze: Maze, ghost m: Layout, row: int, col: int, hs: seq<WallCollector>, vs: seq<WallCollector>, sink: Sink,
                     ghost hOut: seq<seq<Span>>, ghost vOut: seq<seq<Span>>)
    returns (ghost hOut': seq<seq<Span>>, ghost vOut': seq<seq<Span>>)
    requires maze.Model() == m && m.Shaped() && 0 <= row < m.rows && 0 <= col < m.cols
    requires Collecting(hs, vs, sink, hOut, vOut,
                        HorizontalFed(m, row, col), VerticalFed(m, row, col), 0, 0)
    modifies (set c | c in hs), (set c | c in vs), sink
    ensures Collecting(hs, vs, sink, hOut', vOut',
                       HorizontalFed(m, row, col + 1), VerticalFed(m, row, col + 1), 0, 0)
  {
    var cell := maze.cells[maze.GetCellId(row, col)];
    var top, left := cell.HasWall(Top), cell.HasWall(Left);
    var bottom := row == maze.rows - 1 && cell.HasWall(Bottom);
    var right := col == maze.cols - 1 && cell.HasWall(Right);
    hOut', vOut' := FeedCell(hs, vs, sink, row, col, top, left, bottom, right, hOut, vOut,
                             HorizontalFed(m, row, col), VerticalFed(m, row, col));
  }

  /** Horizontal collector k is flushed: it has now emitted Merge of all it was fed. */
  method FlushHorizontal(hs: seq<WallCollector>, vs: seq<WallCollector>, sink: Sink, k: int,
                         ghost hOut: seq<seq<Span>>, ghost vOut: seq<seq<Span>>,
                         ghost ht: seq<seq<Span>>, ghost vt: seq<seq<Span>>)
    returns (ghost hOut': seq<seq<Span>>)
    requires 0 <= k < |hs| && Collecting(hs, vs, sink, hOut, vOut, ht, vt, k, 0)
    modifies hs[k], sink
    ensures Collecting(hs, vs, sink, hOut', vOut, ht, vt, k + 1, 0)
  {
    ghost var before := hs[k].emitted;
    hs[k].Flush();
    ghost var extra := hs[k].emitted[|before|..];
    assert hs[k].emitted == hOut[k] + extra;
    DrawnUpdate(Horizontal, hOut, k, extra);
    hOut' := hOut[k := hs[k].emitted];
    forall a | 0 <= a < |hs| && a != k
      ensures hs[a] != hs[k]
    {
      if a < k {
        assert hs[a] != hs[k];
      } else {
        assert hs[k] != hs[a];
      }
    }
  }

  /** Vertical collector k is flushed, once every horizontal one is. */
  method FlushVertical(hs: seq<WallCollector>, vs: seq<WallCollector>, sink: Sink, k: int,
                       ghost hOut: seq<seq<Span>>, ghost vOut: seq<seq<Span>>,
                       ghost ht: seq<seq<Span>>, ghost vt: seq<seq<Span>>)
    returns (ghost vOut': seq<seq<Span>>)
    requires 0 <= k < |vs| && Collecting(hs, vs, sink, hOut, vOut, ht, vt, |hs|, k)
    modifies vs[k], sink
    ensures Collecting(hs, vs, sink, hOut, vOut', ht, vt, |hs|, k + 1)
  {
    ghost var before := vs[k].emitted;
    vs[k].Flush();
    ghost var extra := vs[k].emitted[|before|..];
    assert vs[k].emitted == vOut[k] + extra;
    DrawnUpdate(Vertical, vOut, k, extra);
    vOut' := vOut[k := vs[k].emitted];
    forall a | 0 <= a < |vs| && a != k
      ensures vs[a] != vs[k]
    {
      if a < k {
        assert vs[a] != vs[k];
      } else {
        assert vs[k] != vs[a];
      }
    }
  }

  /** Lines with no spans draw nothing. */
  lemma {:induction false} DrawnNothing(o: Orientation, lines: seq<seq<Span>>, n: int)
    requires 0 <= n <= |lines| && forall i | 0 <= i < |lines| :: lines[i] == []
    ensures DrawnBelow(o, lines, n) == multiset{}
  {
    if n > 0 {
      DrawnNothing(o, lines, n - 1);
      assert DrawAll(o, n - 1, lines[n - 1]) == [];
    }
  }

  /** Once flushed, the horizontal collectors have emitted the merged runs of
      their lines. */
  lemma HorizontalComplete(m: Layout, hOut: seq<seq<Span>>)
    requires m.Shaped() && |hOut| == m.rows + 1
    requires forall i | 0 <= i <= m.rows :: hOut[i] == Merge(HorizontalFed(m, m.rows, 0)[i])
    ensures hOut == HorizontalRuns(m)
  {
    HorizontalFedUnits(m, m.rows, 0);
    UnitsEnds(m);
  }

  /** Once flushed, the vertical collectors have emitted the merged runs of their
      lines. */
  lemma VerticalComplete(m: Layout, vOut: seq<seq<Span>>)
    requires m.Shaped() && |vOut| == m.cols + 1
    requires forall j | 0 <= j <= m.cols :: vOut[j] == Merge(VerticalFed(m, m.rows, 0)[j])
    ensures vOut == VerticalRuns(m)
  {
    VerticalFedUnits(m, m.rows, 0);
    UnitsEnds(m);
  }

  /** A family of `count` fresh collectors on lines 0 .. count-1, sharing `sink`. */
  method NewCollectors(sink: Sink, o: Orientation, count: int) returns (cs: seq<WallCollector>)
    requires 0 <= count
    ensures |cs| == count && forall c | c in cs :: fresh(c)
    ensures Family(cs, o, sink, seq(count, _ => []))
    ensures forall a, b | 0 <= a < b < |cs| :: cs[a] != cs[b]
    ensures forall i | 0 <= i < |cs| :: cs[i].Valid() && cs[i].fed == []
  {
    cs := [];
    var i := 0;
    while i < count
      invariant 0 <= i <= count && |cs| == i
      invariant forall c | c in cs :: fresh(c)
      invariant forall k | 0 <= k < i ::
        cs[k].sink == sink && cs[k].direction == o && cs[k].elevation == k
        && cs[k].Valid() && cs[k].fed == [] && cs[k].emitted == []
      invariant forall a, b | 0 <= a < b < |cs| :: cs[a] != cs[b]
    {
      var c := new WallCollector(sink, o, i);
      cs := cs + [c];
      i := i + 1;
    }
  }

  /** The start of Maze::GetWallGeometries: one fresh collector per horizontal line
      and per vertical line, sharing an empty sink; nothing is fed yet. */
  method StartScan(maze: Maze, ghost m: Layout)
    returns (sink: Sink, hs: seq<WallCollector>, vs: seq<WallCollector>,
             ghost hOut: seq<seq<Span>>, ghost vOut: seq<seq<Span>>)
    requires maze.Model() == m && m.Shaped()
    ensures fresh(sink) && (forall c | c in hs :: fresh(c)) && (forall c | c in vs :: fresh(c))
    ensures Collecting(hs, vs, sink, hOut, vOut, HorizontalFed(m, 0, 0), VerticalFed(m, 0, 0), 0, 0)
  {
    sink := new Sink();
    hs := NewCollectors(sink, Horizontal, maze.rows + 1);
    vs := NewCollectors(sink, Vertical, maze.cols + 1);
    hOut := seq(|hs|, _ => []);
    vOut := seq(|vs|, _ => []);
    DrawnNothing(Horizontal, hOut, |hOut|);
    DrawnNothing(Vertical, vOut, |vOut|);
  }

  /** The inner loop of Maze::GetWallGeometries over the cells of one row. */
  method ScanRow(maze: Maze, ghost m: Layout, row: int, hs: seq<WallCollector>, vs: seq<WallCollector>, sink: Sink,
                 ghost hOut: seq<seq<Span>>, ghost vOut: seq<seq<Span>>)
    returns (ghost hOut': seq<seq<Span>>, ghost vOut': seq<seq<Span>>)
    requires maze.Model() == m && m.Shaped() && 0 <= row < m.rows
    requires Collecting(hs, vs, sink, hOut, vOut,
                        HorizontalFed(m, row, 0), VerticalFed(m, row, 0), 0, 0)
    modifies (set c | c in hs), (set c | c in vs), sink
    ensures Collecting(hs, vs, sink, hOut', vOut',
                       HorizontalFed(m, row, m.cols), VerticalFed(m, row, m.cols), 0, 0)
  {
    hOut', vOut' := hOut, vOut;
    var col := 0;
    ghost var ht, vt := HorizontalFed(m, row, 0), VerticalFed(m, row, 0);
    while col < maze.cols
      invariant 0 <= col <= m.cols && maze.Model() == m
      invariant ht == HorizontalFed(m, row, col) && vt == VerticalFed(m, row, col)
      invariant Collecting(hs, vs, sink, hOut', vOut', ht, vt, 0, 0)
    {
      hOut', vOut' := CollectCell(maze, m, row, col, hs, vs, sink, hOut', vOut');
      ht, vt := HorizontalFed(m, row, col + 1), VerticalFed(m, row, col + 1);
      col := col + 1;
    }
  }

  /** The closing loops of Maze::GetWallGeometries: every horizontal collector is
      flushed, then every vertical one. */
  method FlushAll(hs: seq<WallCollector>, vs: seq<WallCollector>, sink: Sink,
                  ghost hOut: seq<seq<Span>>, ghost vOut: seq<seq<Span>>,
                  ghost ht: seq<seq<Span>>, ghost vt: seq<seq<Span>>)
    returns (ghost hOut': seq<seq<Span>>, ghost vOut': seq<seq<Span>>)
    requires Collecting(hs, vs, sink, hOut, vOut, ht, vt, 0, 0)
    modifies (set c | c in hs), (set c | c in vs), sink
    ensures Collecting(hs, vs, sink, hOut', vOut', ht, vt, |hs|, |vs|)
  {
    hOut', vOut' := hOut, vOut;
    var k := 0;
    while k < |hs|
      invariant 0 <= k <= |hs|
      invariant Collecting(hs, vs, sink, hOut', vOut', ht, vt, k, 0)
    {
      hOut' := FlushHorizontal(hs, vs, sink, k, hOut', vOut', ht, vt);
      k := k + 1;
    }
    k := 0;
    while k < |vs|
      invariant 0 <= k <= |vs|
      invariant Collecting(hs, vs, sink, hOut', vOut', ht, vt, |hs|, k)
    {
      vOut' := FlushVertical(hs, vs, sink, k, hOut', vOut', ht, vt);
      k := k + 1;
    }
  }

  /** Finishing a row of cells is starting the next one. */
  lemma FedNextRow(m: Layout, row: int)
    requires m.Shaped() && 0 <= row < m.rows
    ensures HorizontalFed(m, row + 1, 0) == HorizontalFed(m, row, m.cols)
    ensures VerticalFed(m, row + 1, 0) == VerticalFed(m, row, m.cols)
  {
  }

  /** The outer loop of Maze::GetWallGeometries over the rows of cells. */
  method ScanRows(maze: Maze, ghost m: Layout, hs: seq<WallCollector>, vs: seq<WallCollector>, sink: Sink,
                  ghost hOut: seq<seq<Span>>, ghost vOut: seq<seq<Span>>)
    returns (ghost hOut': seq<seq<Span>>, ghost vOut': seq<seq<Span>>)
    requires maze.Model() == m && m.Shaped()
    requires Collecting(hs, vs, sink, hOut, vOut, HorizontalFed(m, 0, 0), VerticalFed(m, 0, 0), 0, 0)
    modifies (set c | c in hs), (set c | c in vs), sink
    ensures Collecting(hs, vs, sink, hOut', vOut',
                       HorizontalFed(m, m.rows, 0), VerticalFed(m, m.rows, 0), 0, 0)
  {
    hOut', vOut' := hOut, vOut;
    var row := 0;
    while row < maze.rows
      invariant 0 <= row <= m.rows && maze.Model() == m
      invariant Collecting(hs, vs, sink, hOut', vOut', HorizontalFed(m, row, 0), VerticalFed(m, row, 0), 0, 0)
    {
      hOut', vOut' := ScanRow(maze, m, row, hs, vs, sink, hOut', vOut');
      FedNextRow(m, row);
      row := row + 1;
    }
  }

  /** Maze::GetWallGeometries, with unit cells: one collector per grid line, a
      row-major scan of the cells feeding them, then a flush of every collector.
      The segments are, up to order, one per maximal run of walls on every line. */
  method GetWallGeometries(maze: Maze) returns (segments: seq<Segment>)
    requires maze.Valid()
    ensures multiset(segments) == WallGeometries(maze.Model())
  {
    ghost var m := maze.Model();
    var sink, hs, vs, hOut, vOut := StartScan(maze, m);
    hOut, vOut := ScanRows(maze, m, hs, vs, sink, hOut, vOut);
    hOut, vOut := FlushAll(hs, vs, sink, hOut, vOut, HorizontalFed(m, m.rows, 0), VerticalFed(m, m.rows, 0));
    segments := sink.segments;
    HorizontalComplete(m, hOut);
    VerticalComplete(m, vOut);
  }
}
