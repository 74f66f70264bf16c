/**
 * `DateTime` in whole seconds. `DateTime.MinValue` and `DateTime.MaxValue` are
 * kept as the two symbolic ends: a field left at its default compares below
 * every clock reading, and `MaxValue` above every one.
 */
module Clock {

  type Time = int

  datatype Instant = MinValue | At(seconds: Time) | MaxValue

  /** `now >= i` for a clock reading `now`. */
  predicate Reached(now: Time, i: Instant) {
    match i
    case MinValue => true
    case At(t) => now >= t
    case MaxValue => false
  }

  /** `now > i` for a clock reading `now`. */
  predicate Passed(now: Time, i: Instant) {
    match i
    case MinValue => true
    case At(t) => now > t
    case MaxValue => false
  }
}
