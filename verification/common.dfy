/** Shared value types: an optional value, standing for JavaScript's `null`/`undefined`, and a
    result that is either a value or an error. */
module Common {

  datatype Option<+T> = None | Some(value: T)
  {
    function GetOr(default: T): T
    {
      if Some? then value else default
    }
  }

  datatype Result<+T, +E> = Ok(value: T) | Err(error: E)

  /** Durations in milliseconds, the unit of every clock in the system. */
  const MinuteMs: nat := 60 * 1000
  const HourMs: nat := 60 * MinuteMs
  const DayMs: nat := 24 * HourMs

  function Min(a: int, b: int): int
  {
    if a <= b then a else b
  }
}
