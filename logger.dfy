/** The event logger of src/logger.py: a sequential model of `MouseLogger`.
    The platform listener's callbacks are ordinary methods that receive the current
    time as a parameter; the listener itself is a flag saying whether one is installed. */
module Logger {
  import opened Events

  /** Rounding of a real to the nearest integer, ties to the even neighbour, as Python's
      `round` treats the exact value it is given. */
  function RoundHalfEven(v: real): (n: int)
    ensures v - 0.5 <= n as real <= v + 0.5
    ensures 0.0 <= v ==> 0 <= n
  {
    var f := v.Floor;
    var d := v - f as real;
    if d > 0.5 then f + 1
    else if d < 0.5 then f
    else if f % 2 == 0 then f else f + 1
  }

  /** `round(v, 2)`: the nearest multiple of 0.01, ties to an even number of hundredths. */
  function Round2(v: real): (r: real)
    ensures v - 0.005 <= r <= v + 0.005
    ensures 0.0 <= v ==> 0.0 <= r
  {
    RoundHalfEven(v * 100.0) as real / 100.0
  }

  class MouseLogger {
    /** The captured events, oldest first (`_data`). */
    var data: seq<Event>
    /** Whether a platform listener is installed (`_listener is not None`). */
    var hasListener: bool
    var isRunning: bool
    /** Minimum time between two accepted move samples, in seconds. */
    const sampleRate: real
    /** The square root used for distances. */
    const sqrt: real -> real
    var lastSampleTime: real
    var lastPosition: Point
    var lastTimestamp: real

    /** Every recorded speed is non-negative. */
    ghost predicate Valid()
      reads this
    {
      NonNegativeRoot(sqrt) &&
      forall i :: 0 <= i < |data| ==> 0.0 <= data[i].speed
    }

    constructor (sampleRate: real, sqrt: real -> real)
      requires NonNegativeRoot(sqrt)
      ensures Valid()
      ensures this.sampleRate == sampleRate && this.sqrt == sqrt
      ensures data == [] && !hasListener && !isRunning
      ensures lastSampleTime == 0.0 && lastPosition == (0, 0) && lastTimestamp == 0.0
    {
      this.sampleRate := sampleRate;
      this.sqrt := sqrt;
      data := [];
      hasListener := false;
      isRunning := false;
      lastSampleTime := 0.0;
      lastPosition := (0, 0);
      lastTimestamp := 0.0;
    }

    /** Speed in pixels per second from the last recorded position and time to (x, y) at
        `timestamp`; 0 when nothing has been recorded yet or no time has passed. */
    function CalculateSpeed(x: int, y: int, timestamp: real): (speed: real)
      requires Valid()
      reads this
      ensures 0.0 <= speed
      ensures lastTimestamp == 0.0 || timestamp - lastTimestamp <= 0.0 ==> speed == 0.0
      ensures lastTimestamp != 0.0 && timestamp - lastTimestamp > 0.0 ==>
        speed * (timestamp - lastTimestamp) == Hypot(sqrt, x - lastPosition.0, y - lastPosition.1)
    {
      if lastTimestamp == 0.0 then 0.0
      else
        var timeDelta := timestamp - lastTimestamp;
        if timeDelta <= 0.0 then 0.0
        else Hypot(sqrt, x - lastPosition.0, y - lastPosition.1) / timeDelta
    }

    /** A move notification at `now`: dropped when it comes sooner than `sampleRate` after
        the last accepted move sample, otherwise recorded as a non-click event. */
    method OnMove(x: int, y: int, now: real)
      requires Valid()
      modifies this
      ensures Valid()
      ensures unchanged(this`isRunning, this`hasListener)
      ensures now - old(lastSampleTime) < sampleRate ==>
        unchanged(this`data, this`lastPosition, this`lastTimestamp, this`lastSampleTime)
      ensures now - old(lastSampleTime) >= sampleRate ==>
        && data == old(data) + [Event(x, y, Round2(old(CalculateSpeed(x, y, now))), false, now)]
        && lastPosition == (x, y) && lastTimestamp == now && lastSampleTime == now
    {
      if now - lastSampleTime < sampleRate {
        return;
      }
      var speed := CalculateSpeed(x, y, now);
      var event := Event(x, y, Round2(speed), false, now);
      data := data + [event];
      lastPosition := (x, y);
      lastTimestamp := now;
      lastSampleTime := now;
    }

    /** A button notification at `now`: releases are ignored; every press is recorded as a
        click event, without rate limiting and without moving the sample time. */
    method OnClick(x: int, y: int, pressed: bool, now: real)
      requires Valid()
      modifies this
      ensures Valid()
      ensures unchanged(this`isRunning, this`hasListener, this`lastSampleTime)
      ensures !pressed ==> unchanged(this`data, this`lastPosition, this`lastTimestamp)
      ensures pressed ==>
        && data == old(data) + [Event(x, y, Round2(old(CalculateSpeed(x, y, now))), true, now)]
        && lastPosition == (x, y) && lastTimestamp == now
    {
      if !pressed {
        return;
      }
      var speed := CalculateSpeed(x, y, now);
      var event := Event(x, y, Round2(speed), true, now);
      data := data + [event];
      lastPosition := (x, y);
      lastTimestamp := now;
    }

    /** Starts capturing; a no-op while already running. */
    method Start()
      requires Valid()
      modifies this
      ensures Valid()
      ensures unchanged(this`data, this`lastPosition)
      ensures old(isRunning) ==> unchanged(this)
      ensures !old(isRunning) ==>
        isRunning && hasListener && lastTimestamp == 0.0 && lastSampleTime == 0.0
    {
      if isRunning {
        return;
      }
      isRunning := true;
      lastTimestamp := 0.0;
      lastSampleTime := 0.0;
      hasListener := true;
    }

    /** Stops capturing; a no-op while not running. */
    method Stop()
      requires Valid()
      modifies this
      ensures Valid()
      ensures unchanged(this`data, this`lastPosition, this`lastTimestamp, this`lastSampleTime)
      ensures !old(isRunning) ==> unchanged(this)
      ensures old(isRunning) ==> !isRunning && !hasListener
    {
      if !isRunning {
        return;
      }
      isRunning := false;
      if hasListener {
        hasListener := false;
      }
    }

    /** A copy of the captured events. */
    method GetData() returns (snapshot: seq<Event>)
      requires Valid()
      ensures snapshot == data
      ensures forall i :: 0 <= i < |snapshot| ==> 0.0 <= snapshot[i].speed
    {
      snapshot := data;
    }

    /** Discards the captured events and the speed reference point. */
    method ClearData()
      requires Valid()
      modifies this
      ensures Valid()
      ensures data == [] && lastTimestamp == 0.0 && lastPosition == (0, 0)
      ensures unchanged(this`isRunning, this`hasListener, this`lastSampleTime)
    {
      data := [];
      lastTimestamp := 0.0;
      lastPosition := (0, 0);
    }

    method IsRunning() returns (running: bool)
      ensures running == isRunning
    {
      running := isRunning;
    }

    method EventCount() returns (count: nat)
      ensures count == |data|
    {
      count := |data|;
    }

    /** Two move notifications less than `sampleRate` apart record at most one event: the
        first one when it is due, otherwise the second one when it is due, and when neither
        is due nothing changes. */
    method MoveTwiceWithinSampleRate(x1: int, y1: int, t1: real, x2: int, y2: int, t2: real)
      requires Valid()
      requires 0.0 <= t2 - t1 < sampleRate
      modifies this
      ensures Valid()
      ensures unchanged(this`isRunning, this`hasListener)
      ensures |old(data)| <= |data| <= |old(data)| + 1
      ensures data[..|old(data)|] == old(data)
      ensures t1 - old(lastSampleTime) >= sampleRate ==>
        |data| == |old(data)| + 1 && data[|old(data)|].x == x1 && data[|old(data)|].y == y1
      ensures t1 - old(lastSampleTime) < sampleRate && t2 - old(lastSampleTime) >= sampleRate ==>
        |data| == |old(data)| + 1 && data[|old(data)|].x == x2 && data[|old(data)|].y == y2
      ensures t2 - old(lastSampleTime) < sampleRate ==>
        unchanged(this`data, this`lastPosition, this`lastTimestamp, this`lastSampleTime)
    {
      OnMove(x1, y1, t1);
      OnMove(x2, y2, t2);
    }
  }
}
