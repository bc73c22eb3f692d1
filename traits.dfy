/** The personality classifier of src/visualizer.py (`_calculate_personality_traits`):
    four fixed threshold chains over a statistics record. */
module Traits {
  import opened Stats

  datatype Style = FastDirect | Balanced | Deliberate {
    /** Position on the scale slow..fast. */
    function Rank(): nat {
      match this
      case Deliberate => 0
      case Balanced => 1
      case FastDirect => 2
    }
  }

  datatype Precision = HighSteady | Medium | Variable {
    /** Position on the scale steady..variable. */
    function Rank(): nat {
      match this
      case HighSteady => 0
      case Medium => 1
      case Variable => 2
    }
  }

  datatype Decisiveness = QuickDecider | Thoughtful | Observer {
    /** Position on the scale observing..quick. */
    function Rank(): nat {
      match this
      case Observer => 0
      case Thoughtful => 1
      case QuickDecider => 2
    }
  }

  datatype Energy = HighEnergy | Moderate | Calm {
    /** Position on the scale calm..high. */
    function Rank(): nat {
      match this
      case Calm => 0
      case Moderate => 1
      case HighEnergy => 2
    }
  }

  /** The four labels of a profile (the dictionary keys style, precision, decisiveness, energy). */
  datatype Profile = Profile(style: Style, precision: Precision, decisiveness: Decisiveness, energy: Energy)

  /** The statistics record as the classifier sees it: a dictionary from key to number. */
  type StatsDict = map<string, real>

  /** `stats.get(key, default)`. */
  function Get(stats: StatsDict, key: string, default: real): real {
    if key in stats then stats[key] else default
  }

  function StyleOf(avgSpeed: real): (s: Style)
    ensures s == FastDirect <==> avgSpeed > 800.0
    ensures s == Balanced <==> 400.0 < avgSpeed <= 800.0
    ensures s == Deliberate <==> avgSpeed <= 400.0
  {
    if avgSpeed > 800.0 then FastDirect
    else if avgSpeed > 400.0 then Balanced
    else Deliberate
  }

  function PrecisionOf(speedStd: real): (p: Precision)
    ensures p == HighSteady <==> speedStd < 200.0
    ensures p == Medium <==> 200.0 <= speedStd < 500.0
    ensures p == Variable <==> 500.0 <= speedStd
  {
    if speedStd < 200.0 then HighSteady
    else if speedStd < 500.0 then Medium
    else Variable
  }

  /** Clicks per event, 0 when the event count is not positive. */
  function ClickRatio(clicks: real, events: real): (ratio: real)
    ensures events <= 0.0 ==> ratio == 0.0
    ensures events > 0.0 ==> ratio * events == clicks
  {
    if events > 0.0 then clicks / events else 0.0
  }

  function DecisivenessOf(clickRatio: real): (d: Decisiveness)
    ensures d == QuickDecider <==> clickRatio > 0.1
    ensures d == Thoughtful <==> 0.05 < clickRatio <= 0.1
    ensures d == Observer <==> clickRatio <= 0.05
  {
    if clickRatio > 0.1 then QuickDecider
    else if clickRatio > 0.05 then Thoughtful
    else Observer
  }

  function EnergyOf(bursts: real): (e: Energy)
    ensures e == HighEnergy <==> bursts > 10.0
    ensures e == Moderate <==> 5.0 < bursts <= 10.0
    ensures e == Calm <==> bursts <= 5.0
  {
    if bursts > 10.0 then HighEnergy
    else if bursts > 5.0 then Moderate
    else Calm
  }

  /** For a positive event count, the click ratio exceeds `t` exactly when the clicks exceed
      `t` times the events. */
  lemma RatioThreshold(clicks: real, events: real, t: real)
    ensures events > 0.0 ==> (ClickRatio(clicks, events) > t <==> clicks > t * events)
  {
    if events > 0.0 {
      var r := clicks / events;
      assert r * events == clicks;
      assert (r - t) * events == clicks - t * events;
      if r > t {
        assert (r - t) * events > 0.0;
      } else {
        assert (t - r) * events >= 0.0;
      }
    }
  }

  /** `_calculate_personality_traits(stats, speeds)`; the speed list is not consulted. A
      missing figure classifies at the bottom of its scale, except that a missing event count
      makes the click count itself the ratio. The middle label of each scale is what the two
      outer ones leave. */
  function PersonalityTraits(stats: StatsDict, speeds: seq<real>): (p: Profile)
    ensures "avg_speed" !in stats ==> p.style == Deliberate
    ensures "avg_speed" in stats ==>
      && (p.style == FastDirect <==> stats["avg_speed"] > 800.0)
      && (p.style == Deliberate <==> stats["avg_speed"] <= 400.0)
    ensures "speed_std" !in stats ==> p.precision == HighSteady
    ensures "speed_std" in stats ==>
      && (p.precision == HighSteady <==> stats["speed_std"] < 200.0)
      && (p.precision == Variable <==> stats["speed_std"] >= 500.0)
    ensures "acceleration_bursts" !in stats ==> p.energy == Calm
    ensures "acceleration_bursts" in stats ==>
      && (p.energy == HighEnergy <==> stats["acceleration_bursts"] > 10.0)
      && (p.energy == Calm <==> stats["acceleration_bursts"] <= 5.0)
    ensures Get(stats, "total_events", 1.0) <= 0.0 ==> p.decisiveness == Observer
    ensures "total_events" !in stats ==>
      && (p.decisiveness == QuickDecider <==> Get(stats, "total_clicks", 0.0) > 0.1)
      && (p.decisiveness == Observer <==> Get(stats, "total_clicks", 0.0) <= 0.05)
    ensures "total_events" in stats && stats["total_events"] > 0.0 ==>
      && (p.decisiveness == QuickDecider <==> Get(stats, "total_clicks", 0.0) > 0.1 * stats["total_events"])
      && (p.decisiveness == Observer <==> Get(stats, "total_clicks", 0.0) <= 0.05 * stats["total_events"])
  {
    var avgSpeed := Get(stats, "avg_speed", 0.0);
    var speedStd := Get(stats, "speed_std", 0.0);
    var clicks := Get(stats, "total_clicks", 0.0);
    var events := Get(stats, "total_events", 1.0);
    var bursts := Get(stats, "acceleration_bursts", 0.0);
    RatioThreshold(clicks, events, 0.1);
    RatioThreshold(clicks, events, 0.05);
    Profile(StyleOf(avgSpeed), PrecisionOf(speedStd), DecisivenessOf(ClickRatio(clicks, events)), EnergyOf(bursts))
  }

  /** Each label moves up its scale as its input grows. */
  lemma LabelsMonotone(a: real, b: real)
    requires a <= b
    ensures StyleOf(a).Rank() <= StyleOf(b).Rank()
    ensures PrecisionOf(a).Rank() <= PrecisionOf(b).Rank()
    ensures DecisivenessOf(a).Rank() <= DecisivenessOf(b).Rank()
    ensures EnergyOf(a).Rank() <= EnergyOf(b).Rank()
  {
  }

  /** With a positive event count, more clicks never make a profile less decisive. */
  lemma ClickRatioMonotone(c1: real, c2: real, events: real)
    requires c1 <= c2
    ensures ClickRatio(c1, events) <= ClickRatio(c2, events)
    ensures DecisivenessOf(ClickRatio(c1, events)).Rank() <= DecisivenessOf(ClickRatio(c2, events)).Rank()
  {
    if events > 0.0 {
      assert c1 / events <= c2 / events by {
        assert c2 / events - c1 / events == (c2 - c1) / events;
      }
    }
    LabelsMonotone(ClickRatio(c1, events), ClickRatio(c2, events));
  }

  /** A session with no events (or a negative count) is always classified as an observer. */
  lemma NoEventsIsObserver(stats: StatsDict, speeds: seq<real>)
    requires "total_events" in stats && stats["total_events"] <= 0.0
    ensures PersonalityTraits(stats, speeds).decisiveness == Observer
  {
  }

  /** A record with none of the keys classifies as deliberate, steady, observer and calm;
      the missing event count defaults to 1, so the click ratio is 0. */
  lemma EmptyDictProfile(speeds: seq<real>)
    ensures PersonalityTraits(map[], speeds) == Profile(Deliberate, HighSteady, Observer, Calm)
  {
  }

  /** Example: an average speed of 900 is fast and direct, one of 300 deliberate. */
  lemma StyleExamples()
    ensures StyleOf(900.0) == FastDirect && StyleOf(300.0) == Deliberate
  {
  }

  /** Given the dictionary of a statistics record, every key is present, so the profile
      reads the record's own fields; a session with no clicks is an observer. */
  lemma SessionProfile(s: SessionStats, speeds: seq<real>)
    ensures var p := PersonalityTraits(ToDict(s), speeds);
      && p.style == StyleOf(s.avgSpeed) && p.precision == PrecisionOf(s.speedStd)
      && p.decisiveness == DecisivenessOf(ClickRatio(s.totalClicks as real, s.totalEvents as real))
      && p.energy == EnergyOf(s.accelerationBursts as real)
    ensures s.totalClicks == 0 ==> PersonalityTraits(ToDict(s), speeds).decisiveness == Observer
  {
    var d := ToDict(s);
    assert d["avg_speed"] == s.avgSpeed && d["speed_std"] == s.speedStd;
    assert d["total_clicks"] == s.totalClicks as real && d["total_events"] == s.totalEvents as real;
    assert d["acceleration_bursts"] == s.accelerationBursts as real;
  }

  /** The statistics of an empty session classify as deliberate, steady, observer and calm. */
  lemma EmptySessionProfile(speeds: seq<real>)
    ensures PersonalityTraits(ToDict(EmptyStats()), speeds) == Profile(Deliberate, HighSteady, Observer, Calm)
  {
    SessionProfile(EmptyStats(), speeds);
  }
}
