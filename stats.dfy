/** The summary statistics of src/processor.py: `_empty_stats`, `_calculate_stats` and
    `_detect_acceleration`. Speeds and timestamps are exact reals; the square root is a
    parameter (see Events.NonNegativeRoot). */
module Stats {
  import opened Events

  /** The speed change between consecutive events that counts as an acceleration burst. */
  const BurstThreshold: real := 500.0

  datatype SessionStats = SessionStats(
    totalEvents: nat,
    totalClicks: nat,
    avgSpeed: real,
    maxSpeed: real,
    minSpeed: real,
    speedStd: real,
    duration: real,
    distanceTraveled: real,
    accelerationBursts: nat)

  /** The statistics of an empty session: every figure 0. */
  function EmptyStats(): SessionStats {
    SessionStats(0, 0, 0.0, 0.0, 0.0, 0.0, 0.0, 0.0, 0)
  }

  /** The record as the dictionary that the rest of the application reads. */
  function ToDict(s: SessionStats): map<string, real> {
    map[
      "total_events" := s.totalEvents as real,
      "total_clicks" := s.totalClicks as real,
      "avg_speed" := s.avgSpeed,
      "max_speed" := s.maxSpeed,
      "min_speed" := s.minSpeed,
      "speed_std" := s.speedStd,
      "duration" := s.duration,
      "distance_traveled" := s.distanceTraveled,
      "acceleration_bursts" := s.accelerationBursts as real]
  }

  /** `_empty_stats()` has the keys of every statistics record, each mapped to 0. */
  lemma EmptyStatsShape(s: SessionStats)
    ensures ToDict(EmptyStats()).Keys == ToDict(s).Keys
    ensures forall key :: key in ToDict(EmptyStats()) ==> ToDict(EmptyStats())[key] == 0.0
  {
  }

  function Abs(v: real): real { if v < 0.0 then -v else v }

  /** The number of click events among the first `k`. */
  function ClickCount(data: seq<Event>, k: nat): (n: nat)
    requires k <= |data|
    ensures n <= k
  {
    if k == 0 then 0 else ClickCount(data, k - 1) + (if data[k - 1].click then 1 else 0)
  }

  function Sum(xs: seq<real>): real {
    if |xs| == 0 then 0.0 else xs[0] + Sum(xs[1..])
  }

  // MaxOf and MinOf are Grid.SeqMax and Grid.SeqMin over speeds: Dafny's type parameters
  // carry no ordering, so the integer coordinates and the real speeds each get their own.

  /** The largest element of a non-empty list (`np.max`). */
  function MaxOf(xs: seq<real>): (m: real)
    requires |xs| > 0
    ensures forall i :: 0 <= i < |xs| ==> xs[i] <= m
    ensures exists i :: 0 <= i < |xs| && xs[i] == m
  {
    if |xs| == 1 then xs[0]
    else
      var rest := MaxOf(xs[1..]);
      assert forall i :: 1 <= i < |xs| ==> xs[i] == xs[1..][i - 1];
      if xs[0] >= rest then xs[0] else rest
  }

  /** The smallest element of a non-empty list (`np.min`). */
  function MinOf(xs: seq<real>): (m: real)
    requires |xs| > 0
    ensures forall i :: 0 <= i < |xs| ==> m <= xs[i]
    ensures exists i :: 0 <= i < |xs| && xs[i] == m
  {
    if |xs| == 1 then xs[0]
    else
      var rest := MinOf(xs[1..]);
      assert forall i :: 1 <= i < |xs| ==> xs[i] == xs[1..][i - 1];
      if xs[0] <= rest then xs[0] else rest
  }

  /** The arithmetic mean of a non-empty list (`np.mean`). */
  function Mean(xs: seq<real>): real
    requires |xs| > 0
  {
    Sum(xs) / |xs| as real
  }

  /** The sum of squared deviations from `m`. */
  function SquaredDeviation(xs: seq<real>, m: real): (d: real)
    ensures 0.0 <= d
  {
    if |xs| == 0 then 0.0
    else
      var dev := xs[0] - m;
      assert 0.0 <= dev * dev by { SquareNonNegative(dev); }
      dev * dev + SquaredDeviation(xs[1..], m)
  }

  lemma SquareNonNegative(v: real)
    ensures 0.0 <= v * v
  {
    if v < 0.0 {
      assert v * v == (-v) * (-v);
    }
  }

  /** The population standard deviation of a non-empty list (`np.std`). */
  function StdDev(sqrt: real -> real, xs: seq<real>): (s: real)
    requires NonNegativeRoot(sqrt) && |xs| > 0
    ensures 0.0 <= s
  {
    sqrt(SquaredDeviation(xs, Mean(xs)) / |xs| as real)
  }

  /** The straight-line distance covered by the first `k` events, pair by pair. */
  function PathLength(sqrt: real -> real, data: seq<Event>, k: nat): (d: real)
    requires NonNegativeRoot(sqrt) && k <= |data|
    ensures 0.0 <= d
    ensures k <= 1 ==> d == 0.0
  {
    if k <= 1 then 0.0
    else PathLength(sqrt, data, k - 1) + Hypot(sqrt, data[k - 1].x - data[k - 2].x, data[k - 1].y - data[k - 2].y)
  }

  /** What `_calculate_stats(data, speeds)` returns. */
  function StatsOf(sqrt: real -> real, data: seq<Event>, speeds: seq<real>): SessionStats
    requires NonNegativeRoot(sqrt)
  {
    if |data| == 0 then EmptyStats()
    else
      var n := |speeds|;
      SessionStats(
        |data|,
        ClickCount(data, |data|),
        if n > 0 then Mean(speeds) else 0.0,
        if n > 0 then MaxOf(speeds) else 0.0,
        if n > 0 then MinOf(speeds) else 0.0,
        if n > 0 then StdDev(sqrt, speeds) else 0.0,
        if |data| >= 2 then data[|data| - 1].timestamp - data[0].timestamp else 0.0,
        PathLength(sqrt, data, |data|),
        0)
  }

  /** `_calculate_stats`: the distance is accumulated pair by pair. */
  method CalculateStats(sqrt: real -> real, data: seq<Event>, speeds: seq<real>) returns (s: SessionStats)
    requires NonNegativeRoot(sqrt)
    ensures s == StatsOf(sqrt, data, speeds)
  {
    if |data| == 0 {
      return EmptyStats();
    }
    var totalClicks := ClickCount(data, |data|);
    var totalDistance := 0.0;
    var i := 1;
    while i < |data|
      invariant 1 <= i <= |data|
      invariant totalDistance == PathLength(sqrt, data, i)
    {
      var dx := data[i].x - data[i - 1].x;
      var dy := data[i].y - data[i - 1].y;
      totalDistance := totalDistance + Hypot(sqrt, dx, dy);
      i := i + 1;
    }
    var duration := if |data| >= 2 then data[|data| - 1].timestamp - data[0].timestamp else 0.0;
    var n := |speeds|;
    s := SessionStats(
      |data|,
      totalClicks,
      if n > 0 then Mean(speeds) else 0.0,
      if n > 0 then MaxOf(speeds) else 0.0,
      if n > 0 then MinOf(speeds) else 0.0,
      if n > 0 then StdDev(sqrt, speeds) else 0.0,
      duration,
      totalDistance,
      0);
  }

  /** A lower bound of every element, times the length, is a lower bound of the sum. */
  lemma {:induction false} SumAtLeast(xs: seq<real>, m: real)
    requires forall i :: 0 <= i < |xs| ==> m <= xs[i]
    ensures |xs| as real * m <= Sum(xs)
  {
    if |xs| > 0 {
      var rest := xs[1..];
      assert forall i :: 0 <= i < |rest| ==> rest[i] == xs[i + 1];
      SumAtLeast(rest, m);
      assert |xs| as real * m == |rest| as real * m + m;
    }
  }

  /** An upper bound of every element, times the length, is an upper bound of the sum. */
  lemma {:induction false} SumAtMost(xs: seq<real>, m: real)
    requires forall i :: 0 <= i < |xs| ==> xs[i] <= m
    ensures Sum(xs) <= |xs| as real * m
  {
    if |xs| > 0 {
      var rest := xs[1..];
      assert forall i :: 0 <= i < |rest| ==> rest[i] == xs[i + 1];
      SumAtMost(rest, m);
      assert |xs| as real * m == |rest| as real * m + m;
    }
  }

  /** The minimum and the maximum bracket the mean. */
  lemma MeanBetween(xs: seq<real>)
    requires |xs| > 0
    ensures MinOf(xs) <= Mean(xs) <= MaxOf(xs)
  {
    MeanWithin(xs, MinOf(xs), MaxOf(xs));
  }

  /** Bounds on every element are bounds on the mean. */
  lemma MeanWithin(xs: seq<real>, lo: real, hi: real)
    requires |xs| > 0
    requires forall i :: 0 <= i < |xs| ==> lo <= xs[i] <= hi
    ensures lo <= Mean(xs) <= hi
  {
    SumAtLeast(xs, lo);
    SumAtMost(xs, hi);
    DivBetween(Sum(xs), |xs| as real, lo, hi);
  }

  lemma DivBetween(total: real, n: real, lo: real, hi: real)
    requires 0.0 < n && n * lo <= total <= n * hi
    ensures lo <= total / n <= hi
  {
  }

  /** What `_calculate_stats` promises of its result. */
  lemma StatsShape(sqrt: real -> real, data: seq<Event>, speeds: seq<real>)
    requires NonNegativeRoot(sqrt)
    ensures var s := StatsOf(sqrt, data, speeds);
      && s.totalEvents == |data|
      && s.totalClicks <= s.totalEvents
      && s.minSpeed <= s.avgSpeed <= s.maxSpeed
      && 0.0 <= s.speedStd && 0.0 <= s.distanceTraveled
      && (|data| >= 2 ==> s.duration == data[|data| - 1].timestamp - data[0].timestamp)
      && (|data| <= 1 ==> s.duration == 0.0 && s.distanceTraveled == 0.0)
      && (|speeds| == 0 ==> s.avgSpeed == s.maxSpeed == s.minSpeed == s.speedStd == 0.0)
      && s.accelerationBursts == 0
  {
    if |data| > 0 && |speeds| > 0 {
      MeanBetween(speeds);
    }
  }

  /** With non-negative speeds every speed figure is non-negative. */
  lemma NonNegativeSpeedFigures(sqrt: real -> real, data: seq<Event>, speeds: seq<real>)
    requires NonNegativeRoot(sqrt)
    requires forall i :: 0 <= i < |speeds| ==> 0.0 <= speeds[i]
    ensures var s := StatsOf(sqrt, data, speeds);
      0.0 <= s.minSpeed && 0.0 <= s.avgSpeed && 0.0 <= s.maxSpeed
  {
    if |data| > 0 && |speeds| > 0 {
      MeanBetween(speeds);
    }
  }

  /** The click count counts exactly the events marked as clicks. */
  lemma {:induction false} ClickCountBounds(data: seq<Event>, k: nat)
    requires k <= |data|
    ensures ClickCount(data, k) == k <==> forall i :: 0 <= i < k ==> data[i].click
    ensures ClickCount(data, k) == 0 <==> forall i :: 0 <= i < k ==> !data[i].click
  {
    if k > 0 {
      ClickCountBounds(data, k - 1);
    }
  }

  // ---------------------------------------------------------------------------
  // Acceleration bursts

  /** The indices among the first `k` events whose speed differs from the previous event's
      by more than `threshold`, in increasing order. */
  function BurstIndices(data: seq<Event>, threshold: real, k: nat): seq<nat>
    requires k <= |data|
  {
    if k <= 1 then []
    else
      var more := if Abs(data[k - 1].speed - data[k - 2].speed) > threshold then [k - 1] else [];
      BurstIndices(data, threshold, k - 1) + more
  }

  ghost predicate IsBurst(data: seq<Event>, threshold: real, i: int)
    requires 1 <= i < |data|
  {
    Abs(data[i].speed - data[i - 1].speed) > threshold
  }

  /** The burst indices are strictly increasing, lie in [1, k - 1], and contain an index
      exactly when the speed jumps there; hence there are at most k - 1 of them. */
  lemma BurstIndicesShape(data: seq<Event>, threshold: real, k: nat)
    requires k <= |data|
    ensures var b := BurstIndices(data, threshold, k);
      && (forall j :: 0 <= j < |b| ==> 1 <= b[j] < k)
      && (forall i, j :: 0 <= i < j < |b| ==> b[i] < b[j])
      && (forall i :: 1 <= i < k ==> (i in b <==> IsBurst(data, threshold, i)))
      && (k <= 1 ==> |b| == 0)
      && (k >= 1 ==> |b| <= k - 1)
  {
    BurstsInRange(data, threshold, k);
    BurstsIncreasing(data, threshold, k);
    BurstsExactly(data, threshold, k);
  }

  lemma {:induction false} BurstsInRange(data: seq<Event>, threshold: real, k: nat)
    requires k <= |data|
    ensures var b := BurstIndices(data, threshold, k);
      && (forall j :: 0 <= j < |b| ==> 1 <= b[j] < k)
      && (k <= 1 ==> |b| == 0)
      && (k >= 1 ==> |b| <= k - 1)
  {
    if k > 1 {
      BurstsInRange(data, threshold, k - 1);
    }
  }

  lemma {:induction false} BurstsIncreasing(data: seq<Event>, threshold: real, k: nat)
    requires k <= |data|
    ensures var b := BurstIndices(data, threshold, k);
      forall i, j :: 0 <= i < j < |b| ==> b[i] < b[j]
  {
    if k > 1 {
      BurstsIncreasing(data, threshold, k - 1);
      BurstsInRange(data, threshold, k - 1);
    }
  }

  lemma {:induction false} BurstsExactly(data: seq<Event>, threshold: real, k: nat)
    requires k <= |data|
    ensures var b := BurstIndices(data, threshold, k);
      forall i :: 1 <= i < k ==> (i in b <==> IsBurst(data, threshold, i))
  {
    if k > 1 {
      BurstsExactly(data, threshold, k - 1);
      BurstsInRange(data, threshold, k - 1);
      var prev := BurstIndices(data, threshold, k - 1);
      assert k - 1 !in prev;
    }
  }

  /** `_detect_acceleration(data, threshold)`. */
  method DetectAcceleration(data: seq<Event>, threshold: real) returns (bursts: seq<nat>)
    ensures bursts == BurstIndices(data, threshold, |data|)
    ensures forall i :: 1 <= i < |data| ==> (i in bursts <==> IsBurst(data, threshold, i))
    ensures forall i, j :: 0 <= i < j < |bursts| ==> bursts[i] < bursts[j]
    ensures forall j :: 0 <= j < |bursts| ==> 1 <= bursts[j] < |data|
    ensures |data| <= 1 ==> bursts == []
  {
    bursts := [];
    if |data| <= 1 {
      // `range(1, len(data))` is empty: no pair of consecutive events.
      return;
    }
    var i := 1;
    while i < |data|
      invariant 1 <= i <= |data|
      invariant bursts == BurstIndices(data, threshold, i)
    {
      var speedChange := Abs(data[i].speed - data[i - 1].speed);
      if speedChange > threshold {
        bursts := bursts + [i];
      }
      i := i + 1;
    }
    BurstIndicesShape(data, threshold, |data|);
  }

  /** Example: speeds 100 then 700 make one burst. */
  lemma OneBurstExample(e0: Event, e1: Event)
    requires e0.speed == 100.0 && e1.speed == 700.0
    ensures BurstIndices([e0, e1], BurstThreshold, 2) == [1]
  {
  }
}
