/** The part of g6ts_find_contacts that measures one component on the panel:
    fill, palm filter, component mask, and the two feature passes. */
module Measurement {
  import opened Numbers
  import opened Grid
  import opened Candidates
  import opened FloodFill
  import opened Positions
  import opened Detection
  import opened Resegmentation
  import opened Geometry
  import opened Sums
  import Lifecycle

  /** Everything the feature passes promise of an accepted component. */
  ghost predicate WellMeasured(c: Candidate, f: Features, shape: Shape) {
    Nested(c, f) && shape.ratio >= ONE_Q12 && shape.spread >= 0
  }

  /** Both passes looked at these cells: the islands under the three cutoffs, and
      the axes and spread of the weighted moments. */
  ghost predicate Characterized(grid: seq<int>, cells: seq<bool>, c: Candidate, f: Features, shape: Shape) {
    && FeaturesOf(grid, ROWS, COLS, cells, c, f)
    && exists sums :: MomentsOf(grid, cells, sums) && ShapeByMoments(sums, c.pixels, shape)
  }

  ghost predicate MomentsOf(grid: seq<int>, cells: seq<bool>, sums: Sums6) {
    && Frame(grid, ROWS, COLS) && |cells| == |grid|
    && SumsOf(sums, Weights(grid, cells), Columns(|grid|, COLS), RowsOf(|grid|, COLS), |grid|)
  }

  /** The contact's position lies on the panel and every product behind it in 64 bits. */
  ghost predicate Located(c: Candidate) {
    && 0 < c.strength < 0x1_0000_0000
    && 0 <= c.minCol <= c.maxCol < COLS && 0 <= c.minRow <= c.maxRow < ROWS
    && 0 <= LogicalCoordinate(c.weightedX, c.strength, COLS - 1) <= LOGICAL_MAX
    && 0 <= LogicalCoordinate(c.weightedY, c.strength, ROWS - 1) <= LOGICAL_MAX
    && c.minCol * TWO24 <= SensorQ24(c.weightedX, c.strength) <= c.maxCol * TWO24
    && c.minRow * TWO24 <= SensorQ24(c.weightedY, c.strength) <= c.maxRow * TWO24
    && 0 <= c.weightedX * TWO24 <= U64_MAX && 0 <= c.weightedY * TWO24 <= U64_MAX
  }

  lemma ComponentIsLocated(c: Candidate, grid: seq<int>, xs: set<nat>)
    requires Component(c, grid, ROWS, COLS, xs)
    ensures Located(c)
  {
    WeightsInBox(c, grid, ROWS, COLS, xs);
    CentroidInBox(c, grid, ROWS, COLS, xs);
    PositionsFit(c, grid, xs);
  }

  lemma ComponentOfClass(c: Candidate, grid: seq<int>, start: nat)
    requires Frame(grid, ROWS, COLS) && start < |grid|
    requires Describes(c, grid, COLS, Class(ActiveMask(grid), COLS, start))
    ensures Component(c, grid, ROWS, COLS, Class(ActiveMask(grid), COLS, start))
  {
    var mask := ActiveMask(grid);
    forall x | x in Class(mask, COLS, start)
      ensures grid[x] <= ACTIVE_MAX
    {
      var p :| Links(mask, COLS, p, start, x);
      assert mask[p[|p| - 1]];
    }
  }

  lemma MaskSize(component: seq<bool>, xs: set<nat>)
    requires MaskOf(component, xs) && forall x | x in xs :: x < |component|
    ensures Marked(component, |component|) == |xs|
  {
    MarkedIsSize(component, xs, |component|);
    assert (set x | x in xs && x < |component|) == xs;
  }

  /** The two feature passes over the mask of an accepted component. */
  method Characterize(work: Scanner, grid: seq<int>, cells: seq<bool>, c: Candidate, ghost xs: set<nat>)
    returns (f: Features, shape: Shape)
    requires work.Valid() && work.rows == ROWS && work.cols == COLS
    requires Component(c, grid, ROWS, COLS, xs) && |cells| == |grid| && MaskOf(cells, xs) && !Palm(c)
    modifies work.seen, work.queue
    ensures WellMeasured(c, f, shape) && Characterized(grid, cells, c, f, shape)
  {
    f := SecondaryFeatures(work, grid, cells, c);
    PassesNest(grid, ROWS, COLS, cells, c, f);
    MaskSize(cells, xs);
    ghost var sums;
    shape, sums := GeometryFeatures(grid, cells, c.pixels);
    assert MomentsOf(grid, cells, sums) && ShapeByMoments(sums, c.pixels, shape);
  }

  /** Rebuild the component mask from the queue and measure the component. */
  method MarkAndCharacterize(s: Scanner, work: Scanner, grid: seq<int>, tail: nat, component: array<bool>, c: Candidate, ghost xs: set<nat>)
    returns (f: Features, shape: Shape)
    requires s.Valid() && work.Valid() && work.rows == ROWS && work.cols == COLS
    requires component.Length == s.queue.Length == |grid| && tail <= |grid| && component != work.seen
    requires Component(c, grid, ROWS, COLS, xs) && Cells(s.queue[..tail]) == xs && !Palm(c)
    modifies work.seen, work.queue, component
    ensures MaskOf(component[..], xs)
    ensures WellMeasured(c, f, shape) && Characterized(grid, component[..], c, f, shape)
  {
    QueuedCells(s.queue[..tail], xs, |grid|);
    MarkComponent(s, tail, component);
    var cells := component[..];
    f, shape := Characterize(work, grid, cells, c, xs);
    assert component[..] == cells;
  }

  lemma QueuedCells(q: seq<nat>, xs: set<nat>, n: nat)
    requires Cells(q) == xs && forall x | x in xs :: x < n
    ensures forall k | 0 <= k < |q| :: q[k] < n
  {
    assert forall k | 0 <= k < |q| :: q[k] in Cells(q);
  }

  /** One component from its first cell to its features.  The second scanner
      holds the work buffers of the feature passes. */
  method Measure(s: Scanner, work: Scanner, grid: seq<int>, start: nat, component: array<bool>, ghost before: set<nat>)
    returns (c: Candidate, f: Features, shape: Shape)
    requires s.Valid() && s.rows == ROWS && s.cols == COLS && work.Valid() && work.rows == ROWS && work.cols == COLS
    requires s.seen != work.seen && s.queue != work.queue && component != s.seen && component != work.seen
    requires component.Length == ROWS * COLS && Frame(grid, ROWS, COLS)
    requires start < |grid| && ActiveMask(grid)[start] && !s.seen[start]
    requires Settled(ActiveMask(grid), COLS, before, s.seen[..])
    modifies s.seen, s.queue, work.seen, work.queue, component
    ensures Component(c, grid, ROWS, COLS, Class(ActiveMask(grid), COLS, start))
    ensures Settled(ActiveMask(grid), COLS, before + Class(ActiveMask(grid), COLS, start), s.seen[..])
    ensures Located(c)
    ensures !Palm(c) ==> MaskOf(component[..], Class(ActiveMask(grid), COLS, start))
    ensures !Palm(c) ==> WellMeasured(c, f, shape) && Characterized(grid, component[..], c, f, shape)
  {
    ghost var xs := Class(ActiveMask(grid), COLS, start);
    var tail;
    tail, c := s.Fill(ActiveMask(grid), grid, start, before);
    ghost var marks := s.seen[..];
    ComponentOfClass(c, grid, start);
    ComponentIsLocated(c, grid, xs);
    f, shape := Features([], []), Shape(0, 0);
    if !Palm(c) {
      f, shape := MarkAndCharacterize(s, work, grid, tail, component, c, xs);
      assert s.seen[..] == marks;
    }
  }

  // ----- the contact handed to the tracker

  /** Value from which a cell has no weight in the output centroid. */
  const CENTROID_BASELINE: int := 171

  /** How far each component cell lies below the baseline. */
  ghost function BaselineWeights(grid: seq<int>, cells: seq<bool>): (f: seq<int>)
    requires |cells| == |grid|
    ensures |f| == |grid|
    ensures forall i | 0 <= i < |f| :: f[i] == if cells[i] && grid[i] < CENTROID_BASELINE then CENTROID_BASELINE - grid[i] else 0
  {
    seq(|grid|, i requires 0 <= i < |grid| => if cells[i] && grid[i] < CENTROID_BASELINE then CENTROID_BASELINE - grid[i] else 0)
  }

  lemma MeanOnPanel(moment: int, total: int, last: int)
    requires 0 < total && 0 < last && 0 <= moment <= last * total
    ensures total * last > 0
    ensures 0 <= moment * LOGICAL_MAX / (total * last) <= LOGICAL_MAX
  {
    Scale(moment, last * total, LOGICAL_MAX);
    assert (last * total) * LOGICAL_MAX == LOGICAL_MAX * (total * last);
    DivUpper(moment * LOGICAL_MAX, total * last, LOGICAL_MAX);
    DivLower(moment * LOGICAL_MAX, total * last, 0);
  }

  /** g6ts_phase76_output_centroid: the weighted mean, or the logical position
      when no cell has weight. */
  method OutputCentroid(grid: seq<int>, cells: seq<bool>, x: int, y: int) returns (outputX: int, outputY: int)
    requires Frame(grid, ROWS, COLS) && |cells| == |grid|
    requires 0 <= x <= LOGICAL_MAX && 0 <= y <= LOGICAL_MAX
    ensures 0 <= outputX <= LOGICAL_MAX && 0 <= outputY <= LOGICAL_MAX
    ensures var f, n := BaselineWeights(grid, cells), |grid|;
            if Total(f, n) <= 0 then outputX == x && outputY == y
            else outputX == Moment(f, Columns(n, COLS), n) * LOGICAL_MAX / (Total(f, n) * (COLS - 1))
                 && outputY == Moment(f, RowsOf(n, COLS), n) * LOGICAL_MAX / (Total(f, n) * (ROWS - 1))
  {
    var weightedX, weightedY, total := 0, 0, 0;
    ghost var f, xs, ys := BaselineWeights(grid, cells), Columns(|grid|, COLS), RowsOf(|grid|, COLS);
    for index := 0 to |grid|
      invariant total == Total(f, index) && weightedX == Moment(f, xs, index) && weightedY == Moment(f, ys, index)
    {
      if !cells[index] || grid[index] >= CENTROID_BASELINE {
        continue;
      }
      var weight := CENTROID_BASELINE - grid[index];
      RowColDivide(COLS, index);
      total := total + weight;
      weightedX := weightedX + (index % COLS) * weight;
      weightedY := weightedY + (index / COLS) * weight;
    }
    CellsOnPanel(grid);
    MomentRange(f, xs, |grid|, COLS - 1);
    MomentRange(f, ys, |grid|, ROWS - 1);
    outputX, outputY := x, y;
    if total > 0 {
      MeanOnPanel(weightedX, total, COLS - 1);
      MeanOnPanel(weightedY, total, ROWS - 1);
      outputX, outputY := weightedX * LOGICAL_MAX / (total * (COLS - 1)), weightedY * LOGICAL_MAX / (total * (ROWS - 1));
    }
  }

  lemma CellsOnPanel(grid: seq<int>)
    requires Frame(grid, ROWS, COLS)
    ensures forall i: nat | i < |grid| ::
              0 <= Columns(|grid|, COLS)[i] <= COLS - 1 && 0 <= RowsOf(|grid|, COLS)[i] <= ROWS - 1
  {
    forall i: nat | i < |grid|
      ensures 0 <= Columns(|grid|, COLS)[i] <= COLS - 1 && 0 <= RowsOf(|grid|, COLS)[i] <= ROWS - 1
    {
      CellOf(ROWS, COLS, i);
    }
  }

  /** The record of one component as the tracker sees it. */
  ghost function TrackerContact(c: Candidate, outputX: nat, outputY: nat, shapeAllowed: bool): Lifecycle.Contact
    requires Located(c)
  {
    SensorOnPanel(c);
    Lifecycle.Contact(LogicalCoordinate(c.weightedX, c.strength, COLS - 1), LogicalCoordinate(c.weightedY, c.strength, ROWS - 1),
                      outputX, outputY, SensorQ24(c.weightedX, c.strength), SensorQ24(c.weightedY, c.strength),
                      c.strength, c.pixels, shapeAllowed)
  }

  lemma SensorOnPanel(c: Candidate)
    requires Located(c)
    ensures 0 <= SensorQ24(c.weightedX, c.strength) <= (COLS - 1) * TWO24
    ensures 0 <= SensorQ24(c.weightedY, c.strength) <= (ROWS - 1) * TWO24
  {}

  /** What the tracker demands of its contacts holds of every measured component. */
  lemma LocatedIsOnPanel(c: Candidate, outputX: nat, outputY: nat, shapeAllowed: bool)
    requires Located(c) && outputX <= LOGICAL_MAX && outputY <= LOGICAL_MAX
    ensures Lifecycle.OnPanel(TrackerContact(c, outputX, outputY, shapeAllowed))
  {
    SensorOnPanel(c);
  }
}
