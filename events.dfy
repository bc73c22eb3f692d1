/** The normalized pointer event that the logger records and the processor consumes,
    and the one numeric primitive both of them use without defining it. */
module Events {

  datatype Option<T> = None | Some(value: T)

  /** A screen position in pixels. */
  type Point = (int, int)

  /** One recorded pointer event: position, speed in pixels per second, whether it was
      a button press, and the wall-clock time in seconds at which it was recorded. */
  datatype Event = Event(x: int, y: int, speed: real, click: bool, timestamp: real)

  /** The position of an event. */
  function PositionOf(e: Event): Point {
    (e.x, e.y)
  }

  /** The floating-point square root is not modelled; the model only relies on the
      square root of a non-negative number being non-negative. */
  ghost predicate NonNegativeRoot(sqrt: real -> real) {
    forall v: real :: 0.0 <= v ==> 0.0 <= sqrt(v)
  }

  /** The length of the vector (dx, dy), as `sqrt(dx*dx + dy*dy)` computes it. */
  function Hypot(sqrt: real -> real, dx: int, dy: int): (d: real)
    requires NonNegativeRoot(sqrt)
    ensures 0.0 <= d
  {
    sqrt((dx * dx + dy * dy) as real)
  }
}
