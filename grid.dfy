/** The grid arithmetic of src/processor.py (`process_data`): padded bounds, grid
    dimensions, the cell of an event, and the per-cell density and dwell values that the
    processing loop accumulates, with their conservation laws. */
module Grid {
  import opened Events

  /** Extra room added around the bounding box of the events. */
  const Padding: int := 50
  /** Below this speed (pixels per second) the time since the previous event counts as dwell. */
  const HesitationSpeed: real := 100.0

  datatype Bounds = Bounds(minX: int, minY: int, maxX: int, maxY: int)

  /** The bounds reported for an empty event list (a 1920 x 1080 screen). */
  const DefaultBounds: Bounds := Bounds(0, 0, 1920, 1080)

  function Min(a: int, b: int): int { if a <= b then a else b }
  function Max(a: int, b: int): int { if a >= b then a else b }

  /** Python's `int(a / b)` for a positive divisor: the quotient truncated toward zero. */
  function TruncDiv(a: int, b: int): (q: int)
    requires b > 0
    ensures 0 <= a ==> q * b <= a < q * b + b
    ensures a < 0 ==> q * b - b < a <= q * b
  {
    if a >= 0 then a / b else -((-a) / b)
  }

  /** `max(0, min(v, hi))`. */
  function Clamp(v: int, hi: int): (r: int)
    requires 0 <= hi
    ensures 0 <= r <= hi
    ensures 0 <= v <= hi ==> r == v
    ensures v < 0 ==> r == 0
    ensures hi < v ==> r == hi
  {
    Max(0, Min(v, hi))
  }

  /** The smallest element of a non-empty list (Python's `min`). */
  function SeqMin(xs: seq<int>): (m: int)
    requires |xs| > 0
    ensures forall i :: 0 <= i < |xs| ==> m <= xs[i]
    ensures exists i :: 0 <= i < |xs| && xs[i] == m
  {
    if |xs| == 1 then xs[0]
    else
      var rest := SeqMin(xs[1..]);
      assert forall i :: 1 <= i < |xs| ==> xs[i] == xs[1..][i - 1];
      if xs[0] <= rest then xs[0] else rest
  }

  /** The largest element of a non-empty list (Python's `max`). */
  function SeqMax(xs: seq<int>): (m: int)
    requires |xs| > 0
    ensures forall i :: 0 <= i < |xs| ==> xs[i] <= m
    ensures exists i :: 0 <= i < |xs| && xs[i] == m
  {
    if |xs| == 1 then xs[0]
    else
      var rest := SeqMax(xs[1..]);
      assert forall i :: 1 <= i < |xs| ==> xs[i] == xs[1..][i - 1];
      if xs[0] >= rest then xs[0] else rest
  }

  function Xs(data: seq<Event>): (xs: seq<int>)
    ensures |xs| == |data|
  {
    seq(|data|, i requires 0 <= i < |data| => data[i].x)
  }

  function Ys(data: seq<Event>): (ys: seq<int>)
    ensures |ys| == |data|
  {
    seq(|data|, i requires 0 <= i < |data| => data[i].y)
  }

  /** The bounding box of the events padded by `Padding`: the minimum side is clamped at 0,
      the maximum side is not. */
  function PaddedBounds(data: seq<Event>): Bounds
    requires |data| > 0
  {
    Bounds(Max(0, SeqMin(Xs(data)) - Padding), Max(0, SeqMin(Ys(data)) - Padding),
           SeqMax(Xs(data)) + Padding, SeqMax(Ys(data)) + Padding)
  }

  /** The number of cells along one axis from `lo` to `hi`: `max(1, int((hi - lo) / size) + 1)`. */
  function Cells(lo: int, hi: int, size: int): int
    requires size > 0
  {
    Max(1, TruncDiv(hi - lo, size) + 1)
  }

  /** The grid of one aggregation: its origin and extent, cell size and dimensions. */
  datatype GridSpec = GridSpec(bounds: Bounds, cellSize: int, columns: int, rows: int)

  ghost predicate WellFormed(g: GridSpec) {
    g.cellSize > 0 && g.columns >= 1 && g.rows >= 1
  }

  /** The grid that `process_data` lays over a non-empty event list. */
  function SpecFor(data: seq<Event>, cellSize: int): (g: GridSpec)
    requires |data| > 0 && cellSize > 0
    ensures WellFormed(g)
  {
    var b := PaddedBounds(data);
    GridSpec(b, cellSize, Cells(b.minX, b.maxX, cellSize), Cells(b.minY, b.maxY, cellSize))
  }

  /** The (column, row) cell an event falls in, clamped into the grid. */
  function CellOf(g: GridSpec, e: Event): Point
    requires WellFormed(g)
  {
    (Clamp(TruncDiv(e.x - g.bounds.minX, g.cellSize), g.columns - 1),
     Clamp(TruncDiv(e.y - g.bounds.minY, g.cellSize), g.rows - 1))
  }

  ghost predicate InGrid(g: GridSpec, p: Point) {
    0 <= p.0 < g.columns && 0 <= p.1 < g.rows
  }

  /** The number of the first `k` events that fall in cell `p`. */
  function Count(g: GridSpec, data: seq<Event>, k: nat, p: Point): nat
    requires WellFormed(g) && k <= |data|
  {
    if k == 0 then 0
    else Count(g, data, k - 1, p) + (if CellOf(g, data[k - 1]) == p then 1 else 0)
  }

  /** What event `i` (not the first) contributes to the dwell of cell `p`: the time since
      the previous event, when event `i` is slow and lands in `p`. */
  function Gain(g: GridSpec, data: seq<Event>, i: nat, p: Point): real
    requires WellFormed(g) && 1 <= i < |data|
  {
    if data[i].speed < HesitationSpeed && CellOf(g, data[i]) == p
    then data[i].timestamp - data[i - 1].timestamp
    else 0.0
  }

  /** The dwell time that the first `k` events accumulate in cell `p`. */
  function Dwell(g: GridSpec, data: seq<Event>, k: nat, p: Point): real
    requires WellFormed(g) && k <= |data|
  {
    if k <= 1 then 0.0 else Dwell(g, data, k - 1, p) + Gain(g, data, k - 1, p)
  }

  /** The sum of the gaps before each slow event among the first `k`, the first excluded. */
  function SlowGaps(data: seq<Event>, k: nat): real
    requires k <= |data|
  {
    if k <= 1 then 0.0
    else
      var gap := if data[k - 1].speed < HesitationSpeed then data[k - 1].timestamp - data[k - 2].timestamp else 0.0;
      SlowGaps(data, k - 1) + gap
  }

  ghost predicate NonDecreasingTimes(data: seq<Event>) {
    forall i :: 1 <= i < |data| ==> data[i - 1].timestamp <= data[i].timestamp
  }

  // ---------------------------------------------------------------------------
  // Bounds and cells

  /** The padded minimum is non-negative, never exceeds a non-negative coordinate and never
      exceeds any coordinate less the padding (clamped at 0); the padded maximum is at least
      every coordinate plus the padding. PaddedBoundsAttained adds that both are reached. */
  lemma PaddedBoundsShape(data: seq<Event>)
    requires |data| > 0
    ensures 0 <= PaddedBounds(data).minX && 0 <= PaddedBounds(data).minY
    ensures forall i :: 0 <= i < |data| ==>
      && (0 <= data[i].x ==> PaddedBounds(data).minX <= data[i].x)
      && (0 <= data[i].y ==> PaddedBounds(data).minY <= data[i].y)
      && PaddedBounds(data).minX <= Max(0, data[i].x - Padding)
      && PaddedBounds(data).minY <= Max(0, data[i].y - Padding)
      && data[i].x + Padding <= PaddedBounds(data).maxX
      && data[i].y + Padding <= PaddedBounds(data).maxY
  {
    var xs, ys := Xs(data), Ys(data);
    var b := PaddedBounds(data);
    PaddedAxis(xs);
    PaddedAxis(ys);
    forall i | 0 <= i < |data|
      ensures && (0 <= data[i].x ==> b.minX <= data[i].x) && (0 <= data[i].y ==> b.minY <= data[i].y)
        && b.minX <= Max(0, data[i].x - Padding) && b.minY <= Max(0, data[i].y - Padding)
        && data[i].x + Padding <= b.maxX && data[i].y + Padding <= b.maxY
    {
      assert xs[i] == data[i].x && ys[i] == data[i].y;
    }
  }

  /** Each padded bound is reached by some event: the minimum is its coordinate less the
      padding, clamped at 0, the maximum its coordinate plus the padding. With
      PaddedBoundsShape the minimum is the smallest such value and the maximum the largest. */
  lemma PaddedBoundsAttained(data: seq<Event>)
    requires |data| > 0
    ensures exists i :: 0 <= i < |data| && PaddedBounds(data).minX == Max(0, data[i].x - Padding)
    ensures exists i :: 0 <= i < |data| && PaddedBounds(data).minY == Max(0, data[i].y - Padding)
    ensures exists i :: 0 <= i < |data| && PaddedBounds(data).maxX == data[i].x + Padding
    ensures exists i :: 0 <= i < |data| && PaddedBounds(data).maxY == data[i].y + Padding
  {
    var xs, ys := Xs(data), Ys(data);
    var ix0 :| 0 <= ix0 < |xs| && xs[ix0] == SeqMin(xs);
    var ix1 :| 0 <= ix1 < |xs| && xs[ix1] == SeqMax(xs);
    var iy0 :| 0 <= iy0 < |ys| && ys[iy0] == SeqMin(ys);
    var iy1 :| 0 <= iy1 < |ys| && ys[iy1] == SeqMax(ys);
    assert xs[ix0] == data[ix0].x && xs[ix1] == data[ix1].x;
    assert ys[iy0] == data[iy0].y && ys[iy1] == data[iy1].y;
  }

  /** One axis of PaddedBoundsShape, on the list of coordinates. */
  lemma PaddedAxis(vs: seq<int>)
    requires |vs| > 0
    ensures 0 <= Max(0, SeqMin(vs) - Padding)
    ensures forall i :: 0 <= i < |vs| && 0 <= vs[i] ==> Max(0, SeqMin(vs) - Padding) <= vs[i]
    ensures forall i :: 0 <= i < |vs| ==> Max(0, SeqMin(vs) - Padding) <= Max(0, vs[i] - Padding)
    ensures forall i :: 0 <= i < |vs| ==> vs[i] + Padding <= SeqMax(vs) + Padding
  {
    var lo, hi := SeqMin(vs), SeqMax(vs);
    forall i | 0 <= i < |vs|
      ensures Max(0, lo - Padding) <= Max(0, vs[i] - Padding) && vs[i] + Padding <= hi + Padding
    {
      assert lo <= vs[i] <= hi;
    }
  }

  /** Every event's cell lies inside the grid. */
  lemma CellInGrid(g: GridSpec, e: Event)
    requires WellFormed(g)
    ensures InGrid(g, CellOf(g, e))
  {
  }

  /** Truncating and flooring the quotient give the same cell index once the result is
      clamped into the grid, and the same grid dimension once it is raised to at least 1. */
  lemma TruncFloorAgree(a: int, size: int, hi: int)
    requires size > 0 && 0 <= hi
    ensures Clamp(TruncDiv(a, size), hi) == Clamp(a / size, hi)
    ensures Max(1, TruncDiv(a, size) + 1) == Max(1, a / size + 1)
  {
    if a < 0 {
      assert a / size < 0;
    }
  }

  /** When no coordinate is negative, the clamps never act: each event lies inside its
      cell, `cellSize` wide and tall from the padded origin. */
  lemma {:induction false} EventInsideItsCell(data: seq<Event>, cellSize: int, i: nat)
    requires |data| > 0 && cellSize > 0 && i < |data|
    requires forall j :: 0 <= j < |data| ==> 0 <= data[j].x && 0 <= data[j].y
    ensures var g := SpecFor(data, cellSize); var c := CellOf(g, data[i]);
      && g.bounds.minX + c.0 * cellSize <= data[i].x < g.bounds.minX + c.0 * cellSize + cellSize
      && g.bounds.minY + c.1 * cellSize <= data[i].y < g.bounds.minY + c.1 * cellSize + cellSize
  {
    var g := SpecFor(data, cellSize);
    var b := g.bounds;
    PaddedBoundsShape(data);
    AxisInsideCell(data[i].x, b.minX, b.maxX, cellSize);
    AxisInsideCell(data[i].y, b.minY, b.maxY, cellSize);
  }

  /** One axis of EventInsideItsCell: a coordinate in `[lo, hi]` lands unclamped. */
  lemma AxisInsideCell(v: int, lo: int, hi: int, size: int)
    requires size > 0 && lo <= v <= hi
    ensures var q := TruncDiv(v - lo, size);
      && Clamp(q, Cells(lo, hi, size) - 1) == q
      && lo + q * size <= v < lo + q * size + size
  {
    var q := TruncDiv(v - lo, size);
    var top := TruncDiv(hi - lo, size);
    assert q * size <= v - lo < q * size + size;
    assert top * size <= hi - lo < top * size + size;
    if q > top {
      MulMonotone(top + 1, q, size);
      assert false;
    }
    if q < 0 {
      MulMonotone(q, -1, size);
      assert false;
    }
  }

  lemma MulMonotone(a: int, b: int, c: int)
    requires a <= b && 0 <= c
    ensures a * c <= b * c
  {
    assert b * c - a * c == (b - a) * c;
  }

  /** Events left of or above the screen origin fall into the first column or row. */
  lemma NegativeCoordinateInFirstCell(g: GridSpec, e: Event)
    requires WellFormed(g) && 0 <= g.bounds.minX && 0 <= g.bounds.minY
    ensures e.x < 0 ==> CellOf(g, e).0 == 0
    ensures e.y < 0 ==> CellOf(g, e).1 == 0
  {
  }

  // ---------------------------------------------------------------------------
  // Density: one count per event

  /** The counts of cells (0, row) .. (c - 1, row). */
  function RowCount(g: GridSpec, data: seq<Event>, k: nat, row: int, c: nat): nat
    requires WellFormed(g) && k <= |data|
  {
    if c == 0 then 0 else RowCount(g, data, k, row, c - 1) + Count(g, data, k, (c - 1, row))
  }

  /** The counts of all cells in rows 0 .. r - 1. */
  function GridCount(g: GridSpec, data: seq<Event>, k: nat, r: nat): nat
    requires WellFormed(g) && k <= |data|
  {
    if r == 0 then 0 else GridCount(g, data, k, r - 1) + RowCount(g, data, k, r - 1, g.columns)
  }

  lemma {:induction false} RowCountStep(g: GridSpec, data: seq<Event>, k: nat, row: int, c: nat)
    requires WellFormed(g) && 1 <= k <= |data|
    ensures var p := CellOf(g, data[k - 1]);
      RowCount(g, data, k, row, c) ==
      RowCount(g, data, k - 1, row, c) + (if p.1 == row && p.0 < c then 1 else 0)
  {
    if c > 0 {
      RowCountStep(g, data, k, row, c - 1);
    }
  }

  lemma {:induction false} GridCountStep(g: GridSpec, data: seq<Event>, k: nat, r: nat)
    requires WellFormed(g) && 1 <= k <= |data|
    ensures GridCount(g, data, k, r) ==
      GridCount(g, data, k - 1, r) + (if CellOf(g, data[k - 1]).1 < r then 1 else 0)
  {
    if r > 0 {
      GridCountStep(g, data, k, r - 1);
      RowCountStep(g, data, k, r - 1, g.columns);
    }
  }

  /** Conservation of events: the counts over the whole grid add up to the number of events. */
  lemma {:induction false} DensityConservation(g: GridSpec, data: seq<Event>, k: nat)
    requires WellFormed(g) && k <= |data|
    ensures GridCount(g, data, k, g.rows) == k
  {
    if k == 0 {
      GridCountOfNone(g, data, g.rows);
    } else {
      DensityConservation(g, data, k - 1);
      GridCountStep(g, data, k, g.rows);
      CellInGrid(g, data[k - 1]);
    }
  }

  lemma {:induction false} GridCountOfNone(g: GridSpec, data: seq<Event>, r: nat)
    requires WellFormed(g)
    ensures GridCount(g, data, 0, r) == 0
  {
    if r > 0 {
      GridCountOfNone(g, data, r - 1);
      RowCountOfNone(g, data, r - 1, g.columns);
    }
  }

  lemma {:induction false} RowCountOfNone(g: GridSpec, data: seq<Event>, row: int, c: nat)
    requires WellFormed(g)
    ensures RowCount(g, data, 0, row, c) == 0
  {
    if c > 0 {
      RowCountOfNone(g, data, row, c - 1);
    }
  }

  // ---------------------------------------------------------------------------
  // Hesitation: dwell time attributed to the arrival cell

  /** The dwell of cells (0, row) .. (c - 1, row). */
  function RowDwell(g: GridSpec, data: seq<Event>, k: nat, row: int, c: nat): real
    requires WellFormed(g) && k <= |data|
  {
    if c == 0 then 0.0 else RowDwell(g, data, k, row, c - 1) + Dwell(g, data, k, (c - 1, row))
  }

  /** The dwell of all cells in rows 0 .. r - 1. */
  function GridDwell(g: GridSpec, data: seq<Event>, k: nat, r: nat): real
    requires WellFormed(g) && k <= |data|
  {
    if r == 0 then 0.0 else GridDwell(g, data, k, r - 1) + RowDwell(g, data, k, r - 1, g.columns)
  }

  lemma {:induction false} RowDwellStep(g: GridSpec, data: seq<Event>, k: nat, row: int, c: nat)
    requires WellFormed(g) && 2 <= k <= |data|
    ensures var p := CellOf(g, data[k - 1]);
      RowDwell(g, data, k, row, c) ==
      RowDwell(g, data, k - 1, row, c) + (if p.1 == row && p.0 < c then Gain(g, data, k - 1, p) else 0.0)
  {
    if c > 0 {
      RowDwellStep(g, data, k, row, c - 1);
    }
  }

  lemma {:induction false} GridDwellStep(g: GridSpec, data: seq<Event>, k: nat, r: nat)
    requires WellFormed(g) && 2 <= k <= |data|
    ensures var p := CellOf(g, data[k - 1]);
      GridDwell(g, data, k, r) == GridDwell(g, data, k - 1, r) + (if p.1 < r then Gain(g, data, k - 1, p) else 0.0)
  {
    if r > 0 {
      GridDwellStep(g, data, k, r - 1);
      RowDwellStep(g, data, k, r - 1, g.columns);
    }
  }

  lemma {:induction false} GridDwellOfOneEvent(g: GridSpec, data: seq<Event>, k: nat, r: nat)
    requires WellFormed(g) && k <= 1 && k <= |data|
    ensures GridDwell(g, data, k, r) == 0.0
  {
    if r > 0 {
      GridDwellOfOneEvent(g, data, k, r - 1);
      RowDwellOfOneEvent(g, data, k, r - 1, g.columns);
    }
  }

  lemma {:induction false} RowDwellOfOneEvent(g: GridSpec, data: seq<Event>, k: nat, row: int, c: nat)
    requires WellFormed(g) && k <= 1 && k <= |data|
    ensures RowDwell(g, data, k, row, c) == 0.0
  {
    if c > 0 {
      RowDwellOfOneEvent(g, data, k, row, c - 1);
    }
  }

  /** The dwell over the whole grid is the sum of the gaps before the slow events. */
  lemma {:induction false} DwellConservation(g: GridSpec, data: seq<Event>, k: nat)
    requires WellFormed(g) && k <= |data|
    ensures GridDwell(g, data, k, g.rows) == SlowGaps(data, k)
  {
    if k <= 1 {
      GridDwellOfOneEvent(g, data, k, g.rows);
    } else {
      DwellConservation(g, data, k - 1);
      GridDwellStep(g, data, k, g.rows);
      CellInGrid(g, data[k - 1]);
    }
  }

  /** With non-decreasing timestamps no cell accumulates a negative dwell. */
  lemma {:induction false} DwellNonNegative(g: GridSpec, data: seq<Event>, k: nat, p: Point)
    requires WellFormed(g) && k <= |data| && NonDecreasingTimes(data)
    ensures 0.0 <= Dwell(g, data, k, p)
  {
    if k > 1 {
      DwellNonNegative(g, data, k - 1, p);
    }
  }

  /** Cells outside the grid never receive a count or a dwell. */
  lemma {:induction false} OutsideGridIsEmpty(g: GridSpec, data: seq<Event>, k: nat, p: Point)
    requires WellFormed(g) && k <= |data| && !InGrid(g, p)
    ensures Count(g, data, k, p) == 0 && Dwell(g, data, k, p) == 0.0
  {
    if k > 0 {
      OutsideGridIsEmpty(g, data, k - 1, p);
    }
  }
}
