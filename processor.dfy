/** `process_data` of src/processor.py: one pass over the events fills a density grid and
    a hesitation grid (both arrays updated in place), collects the path and the clicks, and
    attaches the summary statistics. */
module Processor {
  import opened Events
  import opened Grid
  import opened Stats

  /** What `process_data` returns. */
  datatype Analytics = Analytics(
    heatmap: array2<int>,
    hesitationMap: array2<real>,
    speedData: seq<real>,
    clickPositions: seq<Point>,
    path: seq<Point>,
    stats: SessionStats,
    gridSize: int,
    bounds: Bounds)

  /** The speeds of the events, in order. */
  function Speeds(data: seq<Event>): (speeds: seq<real>)
    ensures |speeds| == |data|
    ensures forall i :: 0 <= i < |data| ==> speeds[i] == data[i].speed
  {
    seq(|data|, i requires 0 <= i < |data| => data[i].speed)
  }

  /** The positions of the first `k` events, in order. */
  function Path(data: seq<Event>, k: nat): seq<Point>
    requires k <= |data|
  {
    if k == 0 then [] else Path(data, k - 1) + [PositionOf(data[k - 1])]
  }

  /** The positions of the click events among the first `k`, in order. */
  function ClickPositions(data: seq<Event>, k: nat): seq<Point>
    requires k <= |data|
  {
    if k == 0 then []
    else ClickPositions(data, k - 1) + (if data[k - 1].click then [PositionOf(data[k - 1])] else [])
  }

  /** The statistics `process_data` attaches: those of `_calculate_stats`, with the number
      of acceleration bursts filled in. */
  function FinalStats(sqrt: real -> real, data: seq<Event>): SessionStats
    requires NonNegativeRoot(sqrt)
  {
    StatsOf(sqrt, data, Speeds(data)).(accelerationBursts := |BurstIndices(data, BurstThreshold, |data|)|)
  }

  /** The path has one position per event: the i-th is the i-th event's. */
  lemma {:induction false} PathShape(data: seq<Event>, k: nat)
    requires k <= |data|
    ensures |Path(data, k)| == k
    ensures forall i :: 0 <= i < k ==> Path(data, k)[i] == PositionOf(data[i])
  {
    if k > 0 {
      PathShape(data, k - 1);
    }
  }

  /** Some of the first `k` events is a click at `p`. */
  ghost predicate ClickedAt(data: seq<Event>, k: nat, p: Point)
    requires k <= |data|
  {
    exists i :: 0 <= i < k && data[i].click && PositionOf(data[i]) == p
  }

  /** There is one click position per click event, each the position of a click event,
      and a list without clicks has none. */
  lemma {:induction false} ClickPositionsShape(data: seq<Event>, k: nat)
    requires k <= |data|
    ensures |ClickPositions(data, k)| == ClickCount(data, k)
    ensures forall j :: 0 <= j < |ClickPositions(data, k)| ==> ClickedAt(data, k, ClickPositions(data, k)[j])
  {
    if k > 0 {
      ClickPositionsShape(data, k - 1);
      var prev := ClickPositions(data, k - 1);
      var cur := ClickPositions(data, k);
      forall j | 0 <= j < |cur|
        ensures ClickedAt(data, k, cur[j])
      {
        if j < |prev| {
          assert cur[j] == prev[j];
          var i :| 0 <= i < k - 1 && data[i].click && PositionOf(data[i]) == prev[j];
          assert 0 <= i < k && data[i].click && PositionOf(data[i]) == cur[j];
        } else {
          assert data[k - 1].click && cur[j] == PositionOf(data[k - 1]);
        }
      }
    }
  }

  // ---------------------------------------------------------------------------
  // Totals of the grids as arrays

  ghost function HeatmapRow(a: array2<int>, row: nat, c: nat): int
    requires row < a.Length0 && c <= a.Length1
    reads a
  {
    if c == 0 then 0 else HeatmapRow(a, row, c - 1) + a[row, c - 1]
  }

  /** The sum of all cells of a density grid. */
  ghost function HeatmapTotal(a: array2<int>, r: nat): int
    requires r <= a.Length0
    reads a
  {
    if r == 0 then 0 else HeatmapTotal(a, r - 1) + HeatmapRow(a, r - 1, a.Length1)
  }

  ghost function HesitationRow(a: array2<real>, row: nat, c: nat): real
    requires row < a.Length0 && c <= a.Length1
    reads a
  {
    if c == 0 then 0.0 else HesitationRow(a, row, c - 1) + a[row, c - 1]
  }

  /** The sum of all cells of a hesitation grid. */
  ghost function HesitationTotal(a: array2<real>, r: nat): real
    requires r <= a.Length0
    reads a
  {
    if r == 0 then 0.0 else HesitationTotal(a, r - 1) + HesitationRow(a, r - 1, a.Length1)
  }

  /** A density grid holding the counts of grid `g` adds up as the counts do. */
  lemma {:induction false} HeatmapTotalIsCount(a: array2<int>, g: GridSpec, data: seq<Event>, r: nat)
    requires WellFormed(g) && a.Length0 == g.rows && a.Length1 == g.columns && r <= g.rows
    requires forall row, col :: 0 <= row < g.rows && 0 <= col < g.columns ==>
      a[row, col] == Count(g, data, |data|, (col, row))
    ensures HeatmapTotal(a, r) == GridCount(g, data, |data|, r)
  {
    if r > 0 {
      HeatmapTotalIsCount(a, g, data, r - 1);
      HeatmapRowIsCount(a, g, data, r - 1, g.columns);
    }
  }

  lemma {:induction false} HeatmapRowIsCount(a: array2<int>, g: GridSpec, data: seq<Event>, row: nat, c: nat)
    requires WellFormed(g) && a.Length0 == g.rows && a.Length1 == g.columns && row < g.rows && c <= g.columns
    requires forall row, col :: 0 <= row < g.rows && 0 <= col < g.columns ==>
      a[row, col] == Count(g, data, |data|, (col, row))
    ensures HeatmapRow(a, row, c) == RowCount(g, data, |data|, row, c)
  {
    if c > 0 {
      HeatmapRowIsCount(a, g, data, row, c - 1);
    }
  }

  /** A hesitation grid holding the dwell of grid `g` adds up as the dwell does. */
  lemma {:induction false} HesitationTotalIsDwell(a: array2<real>, g: GridSpec, data: seq<Event>, r: nat)
    requires WellFormed(g) && a.Length0 == g.rows && a.Length1 == g.columns && r <= g.rows
    requires forall row, col :: 0 <= row < g.rows && 0 <= col < g.columns ==>
      a[row, col] == Dwell(g, data, |data|, (col, row))
    ensures HesitationTotal(a, r) == GridDwell(g, data, |data|, r)
  {
    if r > 0 {
      HesitationTotalIsDwell(a, g, data, r - 1);
      HesitationRowIsDwell(a, g, data, r - 1, g.columns);
    }
  }

  lemma {:induction false} HesitationRowIsDwell(a: array2<real>, g: GridSpec, data: seq<Event>, row: nat, c: nat)
    requires WellFormed(g) && a.Length0 == g.rows && a.Length1 == g.columns && row < g.rows && c <= g.columns
    requires forall row, col :: 0 <= row < g.rows && 0 <= col < g.columns ==>
      a[row, col] == Dwell(g, data, |data|, (col, row))
    ensures HesitationRow(a, row, c) == RowDwell(g, data, |data|, row, c)
  {
    if c > 0 {
      HesitationRowIsDwell(a, g, data, row, c - 1);
    }
  }

  /** Every cell of `heatmap` holds the count of the first `k` events in it. */
  ghost predicate HoldsCounts(g: GridSpec, data: seq<Event>, k: nat, heatmap: array2<int>)
    requires WellFormed(g) && k <= |data|
    reads heatmap
  {
    forall row, col :: 0 <= row < heatmap.Length0 && 0 <= col < heatmap.Length1 ==>
      heatmap[row, col] == Count(g, data, k, (col, row))
  }

  /** Every cell of `hesitationMap` holds the dwell of the first `k` events in it. */
  ghost predicate HoldsDwell(g: GridSpec, data: seq<Event>, k: nat, hesitationMap: array2<real>)
    requires WellFormed(g) && k <= |data|
    reads hesitationMap
  {
    forall row, col :: 0 <= row < hesitationMap.Length0 && 0 <= col < hesitationMap.Length1 ==>
      hesitationMap[row, col] == Dwell(g, data, k, (col, row))
  }

  /** The arrays have the shape of `g` and hold, cell by cell, the counts and the dwell
      of all the events. */
  ghost predicate HoldsGrid(g: GridSpec, data: seq<Event>, heatmap: array2<int>, hesitationMap: array2<real>)
    reads heatmap, hesitationMap
  {
    && WellFormed(g)
    && heatmap.Length0 == hesitationMap.Length0 == g.rows
    && heatmap.Length1 == hesitationMap.Length1 == g.columns
    && forall row, col :: 0 <= row < g.rows && 0 <= col < g.columns ==>
         heatmap[row, col] == Count(g, data, |data|, (col, row)) &&
         hesitationMap[row, col] == Dwell(g, data, |data|, (col, row))
  }

  ghost predicate NonNegativeGrid(a: array2<real>)
    reads a
  {
    forall row, col :: 0 <= row < a.Length0 && 0 <= col < a.Length1 ==> 0.0 <= a[row, col]
  }

  /** The totals and the sign of grids that hold the counts and the dwell of `g`. */
  lemma GridTotals(g: GridSpec, data: seq<Event>, heatmap: array2<int>, hesitationMap: array2<real>)
    requires HoldsGrid(g, data, heatmap, hesitationMap)
    ensures HeatmapTotal(heatmap, heatmap.Length0) == |data|
    ensures HesitationTotal(hesitationMap, hesitationMap.Length0) == SlowGaps(data, |data|)
    ensures NonDecreasingTimes(data) ==> NonNegativeGrid(hesitationMap)
  {
    HeatmapTotalIsCount(heatmap, g, data, g.rows);
    DensityConservation(g, data, |data|);
    HesitationTotalIsDwell(hesitationMap, g, data, g.rows);
    DwellConservation(g, data, |data|);
    if NonDecreasingTimes(data) {
      forall row, col | 0 <= row < g.rows && 0 <= col < g.columns
        ensures 0.0 <= hesitationMap[row, col]
      {
        DwellNonNegative(g, data, |data|, (col, row));
      }
    }
  }

  // ---------------------------------------------------------------------------
  // process_data

  /** The loop of `process_data`: every event adds one to the count of its cell and, when
      it is slow and not the first, the time since the previous event to the dwell of its
      cell; clicks and positions are collected in order. */
  method ProcessEvents(g: GridSpec, data: seq<Event>, heatmap: array2<int>, hesitationMap: array2<real>)
    returns (clickPositions: seq<Point>, path: seq<Point>)
    requires WellFormed(g)
    requires heatmap.Length0 == hesitationMap.Length0 == g.rows
    requires heatmap.Length1 == hesitationMap.Length1 == g.columns
    requires forall row, col :: 0 <= row < g.rows && 0 <= col < g.columns ==>
      heatmap[row, col] == 0 && hesitationMap[row, col] == 0.0
    modifies heatmap, hesitationMap
    ensures HoldsGrid(g, data, heatmap, hesitationMap)
    ensures clickPositions == ClickPositions(data, |data|)
    ensures path == Path(data, |data|)
  {
    var minX, minY := g.bounds.minX, g.bounds.minY;
    var gridWidth, gridHeight, gridSize := g.columns, g.rows, g.cellSize;
    clickPositions, path := [], [];
    var prevTimestamp: Option<real> := None;

    for i := 0 to |data|
      invariant prevTimestamp == if i == 0 then None else Some(data[i - 1].timestamp)
      invariant HoldsCounts(g, data, i, heatmap)
      invariant HoldsDwell(g, data, i, hesitationMap)
      invariant clickPositions == ClickPositions(data, i)
      invariant path == Path(data, i)
    {
      var event := data[i];
      var x, y := event.x, event.y;
      var gridX := TruncDiv(x - minX, gridSize);
      var gridY := TruncDiv(y - minY, gridSize);
      gridX := Max(0, Min(gridX, gridWidth - 1));
      gridY := Max(0, Min(gridY, gridHeight - 1));
      assert (gridX, gridY) == CellOf(g, event);

      CountEvent(g, data, i, heatmap, gridX, gridY);

      if prevTimestamp.Some? {
        var dwell := event.timestamp - prevTimestamp.value;
        if event.speed < HesitationSpeed {
          AddDwell(g, data, i, hesitationMap, gridX, gridY, dwell);
        }
      }
      prevTimestamp := Some(event.timestamp);

      if event.click {
        clickPositions := clickPositions + [(x, y)];
      }
      path := path + [(x, y)];
    }
  }

  /** One step of the density loop: event `i` adds one to its own cell. */
  method CountEvent(g: GridSpec, data: seq<Event>, i: nat, heatmap: array2<int>, gridX: int, gridY: int)
    requires WellFormed(g) && i < |data| && (gridX, gridY) == CellOf(g, data[i])
    requires heatmap.Length0 == g.rows && heatmap.Length1 == g.columns
    requires HoldsCounts(g, data, i, heatmap)
    modifies heatmap
    ensures HoldsCounts(g, data, i + 1, heatmap)
  {
    heatmap[gridY, gridX] := heatmap[gridY, gridX] + 1;
  }

  /** One step of the hesitation loop: a slow event `i`, not the first, adds the time since
      the previous event to its own cell. */
  method AddDwell(g: GridSpec, data: seq<Event>, i: nat, hesitationMap: array2<real>,
                  gridX: int, gridY: int, dwell: real)
    requires WellFormed(g) && 1 <= i < |data| && (gridX, gridY) == CellOf(g, data[i])
    requires data[i].speed < HesitationSpeed && dwell == data[i].timestamp - data[i - 1].timestamp
    requires hesitationMap.Length0 == g.rows && hesitationMap.Length1 == g.columns
    requires HoldsDwell(g, data, i, hesitationMap)
    modifies hesitationMap
    ensures HoldsDwell(g, data, i + 1, hesitationMap)
  {
    hesitationMap[gridY, gridX] := hesitationMap[gridY, gridX] + dwell;
  }

  /** The statistics of a non-empty session, with the burst count filled in. */
  method SessionStatsOf(sqrt: real -> real, data: seq<Event>) returns (stats: SessionStats)
    requires NonNegativeRoot(sqrt) && |data| > 0
    ensures stats == FinalStats(sqrt, data)
  {
    stats := CalculateStats(sqrt, data, Speeds(data));
    var accelerationEvents := DetectAcceleration(data, BurstThreshold);
    stats := stats.(accelerationBursts := |accelerationEvents|);
  }

  /** The analysis of a non-empty event list: pad the bounds, lay the grid, fill the arrays
      in place, and attach the statistics. */
  method ProcessEventList(sqrt: real -> real, data: seq<Event>, gridSize: int) returns (r: Analytics)
    requires NonNegativeRoot(sqrt) && gridSize > 0 && |data| > 0
    ensures fresh(r.heatmap) && fresh(r.hesitationMap)
    ensures r.gridSize == gridSize && r.speedData == Speeds(data)
    ensures r.path == Path(data, |data|) && r.clickPositions == ClickPositions(data, |data|)
    ensures r.stats == FinalStats(sqrt, data)
    ensures r.bounds == SpecFor(data, gridSize).bounds
    ensures HoldsGrid(SpecFor(data, gridSize), data, r.heatmap, r.hesitationMap)
  {
    var speeds := Speeds(data);
    var bounds := PaddedBounds(data);
    var gridWidth := Cells(bounds.minX, bounds.maxX, gridSize);
    var gridHeight := Cells(bounds.minY, bounds.maxY, gridSize);
    var g := GridSpec(bounds, gridSize, gridWidth, gridHeight);
    assert g == SpecFor(data, gridSize);

    var heatmap := new int[gridHeight, gridWidth]((_, _) => 0);
    var hesitationMap := new real[gridHeight, gridWidth]((_, _) => 0.0);
    var clickPositions, path := ProcessEvents(g, data, heatmap, hesitationMap);
    var stats := SessionStatsOf(sqrt, data);
    r := Analytics(heatmap, hesitationMap, speeds, clickPositions, path, stats, gridSize, bounds);
  }

  /** `process_data(data, grid_size)`. */
  method ProcessData(sqrt: real -> real, data: seq<Event>, gridSize: int) returns (r: Analytics)
    requires NonNegativeRoot(sqrt) && (|data| == 0 || gridSize > 0)
    ensures fresh(r.heatmap) && fresh(r.hesitationMap)
    ensures r.gridSize == gridSize
    ensures r.speedData == Speeds(data)
    ensures r.path == Path(data, |data|) && r.clickPositions == ClickPositions(data, |data|)
    ensures r.stats == FinalStats(sqrt, data)
    ensures |data| == 0 ==> r.stats == EmptyStats()
    ensures |data| == 0 ==>
      && r.heatmap.Length0 == r.heatmap.Length1 == r.hesitationMap.Length0 == r.hesitationMap.Length1 == 0
      && r.bounds == DefaultBounds
    ensures |data| > 0 ==>
      var g := SpecFor(data, gridSize);
      && r.bounds == g.bounds
      && r.heatmap.Length0 == r.hesitationMap.Length0 == g.rows
      && r.heatmap.Length1 == r.hesitationMap.Length1 == g.columns
      && HoldsGrid(g, data, r.heatmap, r.hesitationMap)
    ensures HeatmapTotal(r.heatmap, r.heatmap.Length0) == |data|
    ensures HesitationTotal(r.hesitationMap, r.hesitationMap.Length0) == SlowGaps(data, |data|)
    ensures NonDecreasingTimes(data) ==> NonNegativeGrid(r.hesitationMap)
  {
    if |data| == 0 {
      var heatmap := new int[0, 0];
      var hesitationMap := new real[0, 0];
      assert FinalStats(sqrt, data) == EmptyStats();
      assert HeatmapTotal(heatmap, 0) == 0 && HesitationTotal(hesitationMap, 0) == SlowGaps(data, 0);
      return Analytics(heatmap, hesitationMap, [], [], [], EmptyStats(), gridSize, DefaultBounds);
    }
    r := ProcessEventList(sqrt, data, gridSize);
    GridTotals(SpecFor(data, gridSize), data, r.heatmap, r.hesitationMap);
  }

  /** A single event: no duration, no distance, no burst, no dwell. */
  lemma SingleEventAnalytics(sqrt: real -> real, e: Event, gridSize: int, p: Point)
    requires NonNegativeRoot(sqrt) && gridSize > 0
    ensures var s := FinalStats(sqrt, [e]);
      s.totalEvents == 1 && s.duration == 0.0 && s.distanceTraveled == 0.0 && s.accelerationBursts == 0
    ensures Dwell(SpecFor([e], gridSize), [e], 1, p) == 0.0
    ensures Count(SpecFor([e], gridSize), [e], 1, p) == (if p == CellOf(SpecFor([e], gridSize), e) then 1 else 0)
  {
    BurstsInRange([e], BurstThreshold, 1);
  }

  /** Example events: (0,0), (100,0), (100,0), the last a click. */
  function ThreeEvents(): seq<Event> {
    [Event(0, 0, 0.0, false, 0.0), Event(100, 0, 100.0, false, 1.0), Event(100, 0, 0.0, true, 1.01)]
  }

  lemma ThreeEventCoordinates()
    ensures Xs(ThreeEvents()) == [0, 100, 100] && Ys(ThreeEvents()) == [0, 0, 0]
  {
  }

  lemma ThreeEventXRange(xs: seq<int>)
    requires xs == [0, 100, 100]
    ensures SeqMin(xs) == 0 && SeqMax(xs) == 100
  {
  }

  lemma ThreeEventYRange(ys: seq<int>)
    requires ys == [0, 0, 0]
    ensures SeqMin(ys) == 0 && SeqMax(ys) == 0
  {
  }

  /** The padded bounds of the example events. */
  lemma ThreeEventBounds()
    ensures PaddedBounds(ThreeEvents()) == Bounds(0, 0, 150, 50)
  {
    ThreeEventCoordinates();
    ThreeEventXRange(Xs(ThreeEvents()));
    ThreeEventYRange(Ys(ThreeEvents()));
  }

  /** With cells of 50 the example events lie in a 4 x 2 grid from the origin. */
  lemma ThreeEventGrid()
    ensures SpecFor(ThreeEvents(), 50) == GridSpec(Bounds(0, 0, 150, 50), 50, 4, 2)
  {
    ThreeEventBounds();
    assert TruncDiv(150, 50) == 3 && TruncDiv(50, 50) == 1;
  }

  /** The cells of the three events in the example grid. */
  lemma ThreeEventCells()
    ensures var data := ThreeEvents();
      var g := GridSpec(Bounds(0, 0, 150, 50), 50, 4, 2);
      CellOf(g, data[0]) == (0, 0) && CellOf(g, data[1]) == (2, 0) && CellOf(g, data[2]) == (2, 0)
  {
    assert TruncDiv(0, 50) == 0 && TruncDiv(100, 50) == 2;
  }

  /** With cells of 50 the example events fill a 4 x 2 grid: they touch two distinct
      columns, and one of them is a click. */
  lemma ThreeEventExample()
    ensures var data := ThreeEvents();
      var g := SpecFor(data, 50);
      && g.columns == 4 && g.rows == 2
      && Count(g, data, 3, (0, 0)) == 1 && Count(g, data, 3, (2, 0)) == 2
      && ClickCount(data, 3) == 1
  {
    ThreeEventGrid();
    ThreeEventCounts();
  }

  /** The counts of ThreeEventExample, on the grid ThreeEventGrid names. */
  lemma ThreeEventCounts()
    ensures var data := ThreeEvents();
      var g := GridSpec(Bounds(0, 0, 150, 50), 50, 4, 2);
      && Count(g, data, 3, (0, 0)) == 1 && Count(g, data, 3, (2, 0)) == 2
      && ClickCount(data, 3) == 1
  {
    ThreeEventCells();
  }
}
