# SnapPosition core in Dafny

SnapPosition records mouse movements and clicks, turns them into analytics and draws a
profile of how the user moves. This project models the three parts of that pipeline
that hold logic, and proves properties of the model:

- **The logger** (`src/logger.py`, class `MouseLogger`). It computes the speed of a new
  position from the last recorded one. It drops move samples that arrive sooner than the
  sample rate allows, and records every button press. It also starts, stops, copies and
  clears its event list. The Dafny class `Logger.MouseLogger` keeps the same fields and
  updates them in place.
- **The processor** (`src/processor.py`). `process_data` lays a padded grid over the
  events. In one pass it fills a density grid (events per cell) and a hesitation grid (the
  time since the previous event, added to the cell of each slow event), both as 2-D
  arrays updated in place. It then attaches the session statistics (`_calculate_stats`,
  `_empty_stats`) and the acceleration bursts (`_detect_acceleration`).
  `get_hesitation_zones` reports the grid cells with the most dwell.
- **The personality classifier** (`_calculate_personality_traits` in
  `src/visualizer.py`). It maps five statistics to four labels through fixed thresholds: the click ratio is computed from two of them.

Modules, one concept each:

| file | module | contents |
|---|---|---|
| `events.dfy` | `Events` | the event record, `Option`, the square root parameter |
| `logger.dfy` | `Logger` | `round(v, 2)` and the `MouseLogger` class |
| `grid.dfy` | `Grid` | bounds, padding, the truncating division, cell assignment; counts and dwell per cell as functions, with conservation lemmas |
| `stats.dfy` | `Stats` | the statistics record, `_calculate_stats` (loop method plus specification function), `_detect_acceleration` |
| `processor.dfy` | `Processor` | `process_data`: the in-place loop over the arrays and the assembled result |
| `zones.dfy` | `Zones` | `get_hesitation_zones`: flatten, argsort, reverse, slice, filter |
| `traits.dfy` | `Traits` | the four threshold chains |

Modelling decisions:

- Numbers are exact: coordinates are `int` and times and speeds are `real`.
- `math.sqrt` / `np.sqrt` is a parameter `sqrt: real -> real`. The only thing assumed
  about it is that it maps non-negative numbers to non-negative numbers.
- `round(v, 2)` is round-half-even on the exact value.
- `int(a / b)` is division truncated toward zero (`Grid.TruncDiv`). Lemma
  `Grid.TruncFloorAgree` shows that, once the index is clamped into the grid, truncation
  and Dafny's floor division pick the same cell.
- Wall-clock time (`time.time()`) becomes a `now` parameter of the listener callbacks.
- The statistics dictionary is a datatype `Stats.SessionStats`. `Stats.ToDict` gives it
  the key names the rest of the application reads. The classifier takes a
  `map<string, real>`, so a missing key falls back to its default.

## Model

| member | source | states |
|---|---|---|
| Events.Hypot | src/logger.py:41-43 | the distance between two positions is never negative |
| Logger.RoundHalfEven | src/logger.py:60 | the rounded integer is within one half of the value, and non-negative for a non-negative value |
| Logger.Round2 | src/logger.py:60 | `round(speed, 2)` lies within 0.005 of the speed and keeps a non-negative speed non-negative |
| Logger.MouseLogger.constructor | src/logger.py:16-30 | a new logger has no events, no listener, is not running, and its last sample time, timestamp and position are 0 |
| Logger.MouseLogger.CalculateSpeed | src/logger.py:32-45 | the speed is 0 before any event or when no time has passed; otherwise speed times elapsed time is the distance from the last position; never negative |
| Logger.MouseLogger.OnMove | src/logger.py:47-70 | a move sooner than the sample rate after the last sample changes nothing; otherwise exactly one non-click event with the rounded speed is appended and the last position, timestamp and sample time become the new ones |
| Logger.MouseLogger.OnClick | src/logger.py:72-92 | a release changes nothing; a press appends exactly one click event with the rounded speed, updates the last position and timestamp, and leaves the sample time alone |
| Logger.MouseLogger.Start | src/logger.py:94-107 | a no-op while running; otherwise running with a listener, last timestamp and sample time reset to 0, events and last position kept |
| Logger.MouseLogger.Stop | src/logger.py:109-117 | a no-op while stopped; otherwise not running and no listener, everything else kept |
| Logger.MouseLogger.GetData | src/logger.py:119-122 | returns exactly the captured events, all with non-negative speed |
| Logger.MouseLogger.ClearData | src/logger.py:124-129 | empties the events and resets the last timestamp and position, nothing else |
| Logger.MouseLogger.IsRunning | src/logger.py:131-133 | reports whether the logger runs |
| Logger.MouseLogger.EventCount | src/logger.py:135-139 | returns the number of captured events |
| Logger.MouseLogger.MoveTwiceWithinSampleRate | src/logger.py:51-53 | two moves closer together than the sample rate add at most one event and keep the earlier events; when the first is due it is recorded, when only the second is due it is recorded, and when neither is due nothing changes |
| Grid.TruncDiv | src/processor.py:64-65 | `int(a / b)` truncates toward zero: the quotient brackets `a` from below for `a >= 0` and from above for `a < 0` |
| Grid.Clamp | src/processor.py:68-69 | `max(0, min(v, hi))` lies in `[0, hi]`, is `v` inside that range, 0 below it and `hi` above it |
| Grid.SeqMin | src/processor.py:39-40 | `min` is a lower bound that occurs in the list |
| Grid.SeqMax | src/processor.py:39-40 | `max` is an upper bound that occurs in the list |
| Grid.SpecFor | src/processor.py:39-51 | the grid laid over a non-empty event list has at least one row and one column and a positive cell size |
| Grid.PaddedBoundsShape | src/processor.py:39-47 | the padded minimum is non-negative, no larger than any non-negative coordinate and no larger than any coordinate less 50 clamped at 0; the padded maximum is at least every coordinate plus 50 |
| Grid.PaddedBoundsAttained | src/processor.py:39-47 | some event's coordinate less 50, clamped at 0, is the padded minimum and some event's coordinate plus 50 the padded maximum; with Grid.PaddedBoundsShape, the smallest and the largest such values |
| Grid.CellInGrid | src/processor.py:64-69 | every event is assigned to a cell inside the grid |
| Grid.TruncFloorAgree | src/processor.py:50-51 | after clamping, truncating and flooring division choose the same cell and the same grid size |
| Grid.EventInsideItsCell | src/processor.py:44-69 | with no negative coordinate, each event lies inside its cell, `grid_size` wide and tall from the padded origin |
| Grid.AxisInsideCell | src/processor.py:64-69 | a coordinate between the padded bounds lands in a cell index that needs no clamping |
| Grid.NegativeCoordinateInFirstCell | src/processor.py:64-69 | events left of or above the screen origin fall into the first column or row |
| Grid.RowCountStep | src/processor.py:72 | one more event adds one to the row count of its own row and nothing to other rows |
| Grid.GridCountStep | src/processor.py:72 | one more event adds one to the count of the whole grid |
| Grid.DensityConservation | src/processor.py:62-72 | the density grid sums to the number of events |
| Grid.GridCountOfNone | src/processor.py:53 | before any event the density grid sums to 0 |
| Grid.RowCountOfNone | src/processor.py:53 | before any event each row of the density grid sums to 0 |
| Grid.RowDwellStep | src/processor.py:75-79 | one more event adds its gain to the dwell of its own row only |
| Grid.GridDwellStep | src/processor.py:75-79 | one more event adds its gain to the dwell of the whole grid |
| Grid.GridDwellOfOneEvent | src/processor.py:75 | the first event adds no dwell |
| Grid.RowDwellOfOneEvent | src/processor.py:75 | the first event adds no dwell to any row |
| Grid.DwellConservation | src/processor.py:74-81 | the hesitation grid sums to the gaps before the events slower than 100 px/s, the first event excluded |
| Grid.DwellNonNegative | src/processor.py:74-81 | with non-decreasing timestamps no cell has negative dwell |
| Grid.OutsideGridIsEmpty | src/processor.py:64-79 | no cell outside the grid receives a count or dwell |
| Stats.EmptyStatsShape | src/processor.py:109-121 | `_empty_stats()` has exactly the keys of any statistics record, each mapped to 0 |
| Stats.ClickCount | src/processor.py:130 | there are no more clicks than events |
| Stats.ClickCountBounds | src/processor.py:130 | every event is a click exactly when the count is the number of events, and none is exactly when the count is 0 |
| Stats.MaxOf | src/processor.py:149 | `np.max` is an upper bound that occurs in the list |
| Stats.MinOf | src/processor.py:150 | `np.min` is a lower bound that occurs in the list |
| Stats.SquaredDeviation | src/processor.py:151 | the squared deviations add up to a non-negative number |
| Stats.StdDev | src/processor.py:151 | `np.std` is non-negative |
| Stats.PathLength | src/processor.py:133-137 | the distance travelled is non-negative, and 0 for fewer than two events |
| Stats.CalculateStats | src/processor.py:124-155 | the loop accumulating the distance computes exactly the statistics function `StatsOf` |
| Stats.SumAtLeast | src/processor.py:148 | a lower bound of every speed, times their number, bounds the sum from below |
| Stats.SumAtMost | src/processor.py:148 | an upper bound of every speed, times their number, bounds the sum from above |
| Stats.MeanWithin | src/processor.py:148 | bounds on every speed bound the mean |
| Stats.MeanBetween | src/processor.py:148-150 | the average speed lies between the minimum and the maximum speed |
| Stats.StatsShape | src/processor.py:124-155 | the statistics count every event, no more clicks than events, min <= avg <= max, a non-negative deviation and distance, a duration from first to last timestamp (0 for one event), all speed figures 0 without speeds, and 0 bursts |
| Stats.NonNegativeSpeedFigures | src/processor.py:148-150 | with non-negative speeds, the average, maximum and minimum are non-negative |
| Stats.BurstIndicesShape | src/processor.py:158-176 | the burst indices increase strictly, lie in `[1, n-1]`, and contain an index exactly when the speed changes by more than the threshold there |
| Stats.BurstsInRange | src/processor.py:171-174 | every burst index lies in `[1, k-1]`, so there are at most `k-1` of them |
| Stats.BurstsIncreasing | src/processor.py:171-174 | the burst indices are appended in increasing order |
| Stats.BurstsExactly | src/processor.py:171-174 | an index is a burst exactly when the speed changes by more than the threshold there |
| Stats.DetectAcceleration | src/processor.py:158-176 | the loop returns the increasing list of exactly the indices whose speed change exceeds the threshold, empty for fewer than two events |
| Stats.OneBurstExample | src/processor.py:158-176 | speeds 100 then 700 give one burst, at index 1 |
| Processor.Speeds | src/processor.py:37 | the speed list has one entry per event, in order |
| Processor.PathShape | src/processor.py:87-88 | the path has one position per event, the i-th event's at position i |
| Processor.ClickPositionsShape | src/processor.py:83-85 | there is one click position per click event, each the position of a click |
| Processor.HeatmapTotalIsCount | src/processor.py:72 | the sum of the density array is the grid count of the cells it holds |
| Processor.HeatmapRowIsCount | src/processor.py:72 | the sum of one density row is the row count of its cells |
| Processor.HesitationTotalIsDwell | src/processor.py:79 | the sum of the hesitation array is the grid dwell of the cells it holds |
| Processor.HesitationRowIsDwell | src/processor.py:79 | the sum of one hesitation row is the row dwell of its cells |
| Processor.GridTotals | src/processor.py:53-81 | arrays holding the per-cell counts and dwell sum to the number of events and to the slow gaps; with non-decreasing timestamps every dwell is non-negative |
| Processor.ProcessEvents | src/processor.py:58-88 | the in-place loop leaves every cell holding its event count and its dwell, and returns the click positions and the path in event order |
| Processor.CountEvent | src/processor.py:72 | adding one to the event's own cell takes the density array from the counts of the first i events to those of the first i+1 |
| Processor.AddDwell | src/processor.py:74-79 | adding the gap to a slow event's own cell takes the hesitation array from the dwell of the first i events to that of the first i+1 |
| Processor.ProcessEventList | src/processor.py:34-106 | for a non-empty list and a positive `grid_size`: the padded bounds, fresh arrays of the grid's dimensions holding every cell's count and dwell, and the speeds, path, clicks and statistics |
| Processor.SessionStatsOf | src/processor.py:91-95 | the statistics with the number of bursts filled in |
| Processor.ProcessData | src/processor.py:11-121 | no events, with any `grid_size`: empty arrays, empty lists, the statistics of `_empty_stats()` (every figure 0) and bounds (0, 0, 1920, 1080). Otherwise, for a positive `grid_size`: the padded bounds, the grid dimensions, every heatmap cell is its event count and every hesitation cell its dwell, the heatmap sums to the number of events and the hesitation map to the slow gaps, cells are non-negative under non-decreasing timestamps, and speeds, path, clicks and statistics are as specified |
| Processor.SingleEventAnalytics | src/processor.py:62-95 | a single event has no duration, distance, burst or dwell, and counts 1 in its own cell only |
| Processor.ThreeEventExample | src/processor.py:39-72 | events at (0,0), (100,0), (100,0) with cells of 50: the grid `process_data` lays over them has 4 columns and 2 rows, counts 1 and 2 in columns 0 and 2 of row 0, and one click |
| Zones.Insert | src/processor.py:195 | inserting an index adds exactly that index to the sorted list |
| Zones.ArgSort | src/processor.py:195 | `argsort` returns one valid index per value |
| Zones.ArgSortShape | src/processor.py:195 | `argsort` orders the indices by ascending value and is a permutation of all indices |
| Zones.InsertAscending | src/processor.py:195 | insertion keeps the list ordered by value |
| Zones.InsertDistinct | src/processor.py:195 | inserting a new index keeps the list free of repeats |
| Zones.Reverse | src/processor.py:195 | `[::-1]` puts the last element first |
| Zones.ReverseShape | src/processor.py:195 | reversing an ascending permutation gives a descending one with the same indices |
| Zones.SliceLength | src/processor.py:195 | `[:top_n]` keeps `min(top_n, n)` elements, and for a negative `top_n` all but the last `-top_n` |
| Zones.TopIndices | src/processor.py:195 | the visited flat indices are valid and as many as the slice keeps |
| Zones.TopIndicesShape | src/processor.py:195 | the visited indices are distinct, by decreasing value, and no index left out has a larger value than a visited one |
| Zones.Kept | src/processor.py:197-202 | no more indices are kept than visited |
| Zones.KeptMembers | src/processor.py:197-202 | an index is kept exactly when it was visited and its dwell is positive |
| Zones.KeptDescending | src/processor.py:197-202 | filtering keeps the decreasing order and the distinctness |
| Zones.KeptAll | src/processor.py:197-202 | when every visited dwell is positive, every visited index is kept |
| Zones.ZonesOf | src/processor.py:197-202 | one zone per kept index |
| Zones.UnravelInGrid | src/processor.py:198 | `unravel_index` of a flat index gives a row and a column inside the grid |
| Zones.Ravel | src/processor.py:195-198 | cell (row, col) has flat index `row * cols + col`, and unravelling returns the cell |
| Zones.DivUnique | src/processor.py:198 | quotient and remainder are unique |
| Zones.Flatten | src/processor.py:195 | `flatten` has one entry per cell |
| Zones.FlattenCell | src/processor.py:195 | `flatten` holds every cell at its row-major index |
| Zones.HesitationZones | src/processor.py:179-204 | the loop returns exactly the zones of the visited indices with positive dwell, in visiting order, and `[]` for an empty grid |
| Zones.VisitedFacts | src/processor.py:195-202 | the visited and the kept indices are distinct and by decreasing value; an index is kept exactly when visited and positive; no left-out index beats a visited one |
| Zones.ZoneAtInjective | src/processor.py:198 | distinct flat indices lie in distinct cells |
| Zones.FlatZonesOrdered | src/processor.py:195-202 | on the flat grid, zones come by decreasing dwell and no cell comes twice |
| Zones.FlatZonesAreTheTop | src/processor.py:195-202 | on the flat grid, an unreported positive cell has no more dwell than any reported one, and every positive cell is reported when fewer zones come back than were visited |
| Zones.ZonesInGrid | src/processor.py:179-204 | at most `top_n` zones under slice semantics, each a cell of the grid whose dwell is the zone's and positive |
| Zones.ZonesOrdered | src/processor.py:179-204 | zones come by decreasing dwell and no cell is reported twice |
| Zones.ZonesAreTheTop | src/processor.py:179-204 | no unreported cell has more dwell than a reported one, and when fewer zones come back than the slice allows, every positive cell is reported |
| Traits.StyleOf | src/visualizer.py:320-325 | fast and direct exactly above 800, balanced exactly in (400, 800], deliberate exactly at or below 400 |
| Traits.PrecisionOf | src/visualizer.py:328-333 | high exactly below 200, medium exactly in [200, 500), variable exactly from 500 |
| Traits.ClickRatio | src/visualizer.py:336 | the ratio times the event count gives the clicks, and it is 0 when the count is not positive |
| Traits.DecisivenessOf | src/visualizer.py:337-342 | quick exactly above 0.1, thoughtful exactly in (0.05, 0.1], observer exactly at or below 0.05 |
| Traits.EnergyOf | src/visualizer.py:345-350 | high exactly above 10 bursts, moderate exactly in (5, 10], calm exactly at or below 5 |
| Traits.RatioThreshold | src/visualizer.py:336-342 | for a positive event count, the click ratio exceeds a threshold exactly when the clicks exceed the threshold times the events |
| Traits.PersonalityTraits | src/visualizer.py:310-357 | a missing average speed gives deliberate, a missing deviation steady, a missing burst count calm; a non-positive event count gives observer; otherwise fast and deliberate, steady and variable, high energy and calm each hold exactly on their side of the thresholds of the dictionary's figure, and quick and observer exactly when the clicks exceed 0.1 times the events, or sit at or below 0.05 times them (the events count 1 when missing) |
| Traits.LabelsMonotone | src/visualizer.py:320-350 | every label moves up its scale as its figure grows |
| Traits.ClickRatioMonotone | src/visualizer.py:336-342 | more clicks never lower the ratio or the decisiveness |
| Traits.NoEventsIsObserver | src/visualizer.py:336-342 | a non-positive event count classifies as observer |
| Traits.EmptyDictProfile | src/visualizer.py:313-350 | a dictionary without keys gives deliberate, steady, observer, calm |
| Traits.StyleExamples | src/visualizer.py:320-325 | 900 is fast and direct and 300 deliberate |
| Traits.SessionProfile | src/visualizer.py:313-350 | on a processed statistics record each label reads the record's own field, and no clicks means observer |
| Traits.EmptySessionProfile | src/visualizer.py:313-350 | the statistics of an empty session give deliberate, steady, observer, calm |

## Left out

- Floating point: all arithmetic is exact. Rounding of `/`, of `np.mean`, of `np.std` and of the sums is not modelled, nor is the double behind `round(v, 2)`.
- `math.sqrt` and `np.sqrt` are a parameter, assumed only to be non-negative on non-negative inputs; `np.std` is modelled as the square root of the population variance through it.
- The thread lock, the background `pynput` listener and the concurrency between callbacks and readers: the model is sequential, and the listener is a flag. A listener that fails to start is not modelled: `start` sets `_is_running` before it creates and starts the listener, so a failing listener would leave the logger marked running.
- The `button` argument of `_on_click` is never read and is not a parameter.
- `get_logger` (the process-wide singleton) is not modelled; it only constructs one `MouseLogger`.
- `time.time()` is the `now` parameter of `OnMove` and `OnClick`.
- `dwell_times` in `process_data` is written but never read, so it is not modelled.
- Processor.ProcessData: for a non-empty event list `grid_size` must be positive. There the source raises `ZeroDivisionError` for 0, and negative sizes are not modelled. An empty list is accepted with any `grid_size`, as in the source, which returns the empty result before it divides.
- Processor.ProcessData: the empty result's `np.array([])` is one-dimensional; the model uses 0 x 0 arrays, which also have size 0. The density grid holds integers where numpy holds floats.
- Zones.ArgSort: numpy's default sort does not fix the order among equal values. The model inserts each new index in front of the first index of equal value, so `argsort` lists equal values by descending index and, after `[::-1]`, ties are visited by ascending flat index; the lemmas state only what holds for every order of ties.
- The plotting functions of `src/visualizer.py`, `fig_to_bytes` and the Streamlit application `app.py` are not part of this model.
- Logger.MouseLogger.Start: `start` resets only the last timestamp and the last sample time. The last position is kept but never read: with the timestamp at 0 the first speed after a restart is 0, and recording that event overwrites the position.
