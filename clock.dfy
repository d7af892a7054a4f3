/** Foundation's clock, calendar and date formatting, over integer seconds
    since the epoch. They are not interpreted: a logger is handed a
    `Calendar` value and reads the clock once per rotation check, so every
    instant is a parameter of the operation that uses it. */
module Clock {

  /** `startOfDay(t)` is `Calendar.current.startOfDay(for: t)`;
      `format(pattern, t)` is what a `DateFormatter` with that `dateFormat`
      renders for `t`. */
  datatype Calendar = Calendar(startOfDay: int -> int, format: (string, int) -> string)

  /** `pattern` renders different instants differently. */
  ghost predicate FormatInjective(cal: Calendar, pattern: string) {
    forall a, b :: cal.format(pattern, a) == cal.format(pattern, b) ==> a == b
  }
}
