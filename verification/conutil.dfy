/**
 Ordering helpers over instants and durations. Instants are whole seconds
 relative to the Unix epoch and durations are whole seconds, so `After`,
 `Before` and `>` on Go's time types all become integer comparisons.
 */
module ConUtil {

  /** Go's zero `time.Time` (0001-01-01T00:00:00Z) in seconds relative to the Unix epoch. */
  const ZeroTime: int := -62135596800

  /** The larger of two durations; the second one on a tie. */
  function MaxDuration(a: int, b: int): (r: int)
    ensures r >= a && r >= b
    ensures r == a || r == b
    ensures a <= b ==> r == b
  {
    if a > b then a else b
  }

  /** The later of two instants; `a` only when it is strictly after `b`. */
  function MaxDate(a: int, b: int): (r: int)
    ensures r >= a && r >= b
    ensures r == a || r == b
    ensures a <= b ==> r == b
  {
    if a > b then a else b
  }

  /** The earlier of two instants; `a` only when it is strictly before `b`. */
  function MinDate(a: int, b: int): (r: int)
    ensures r <= a && r <= b
    ensures r == a || r == b
    ensures a >= b ==> r == b
  {
    if a < b then a else b
  }
}
