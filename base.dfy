/** Values shared by every component: optional values, results with an error, and time.

    Time is an integer count of seconds (the model's stand-in for `DateTime.UtcNow`); every
    operation that reads the clock receives the instant as a parameter.
 */
module Base {

  /** A value that may be absent: C#'s `null` or `Nullable<T>` without a value. */
  datatype Option<+T> = None | Some(value: T) {
    function GetOr(default: T): T {
      match this
      case Some(v) => v
      case None => default
    }
  }

  /** The outcome of an operation that either yields a value or fails with an error
      (the model of a thrown exception). */
  datatype Result<+T, +E> = Success(value: T) | Failure(error: E)

  /** Seconds since an arbitrary epoch. */
  type Instant = int

  /** `TimeSpan.FromMinutes(m)` in seconds. */
  function Minutes(m: int): int { 60 * m }

  /** `Math.Clamp(value, min, max)`: the value forced into `[min, max]`. */
  function Clamp(value: int, min: int, max: int): (r: int)
    requires min <= max
    ensures min <= r <= max
    ensures min <= value <= max ==> r == value
    ensures value < min ==> r == min
    ensures max < value ==> r == max
  {
    if value < min then min else if max < value then max else value
  }
}
