/** Calendar-day windows on epoch milliseconds, as the loan routes build them from
    the current instant with `Date.UTC(...)` and `setUTCHours(...)`. */
module DayWindow {

  const DayMs: int := 86_400_000

  /** Offset of 23:59:59.000 from midnight (`Date.UTC(y, m, d, 23, 59, 59)`). */
  const CheckoutDayEnd: int := 23 * 3_600_000 + 59 * 60_000 + 59 * 1_000

  /** Offset of 23:59:59.999 from midnight (`setUTCHours(23, 59, 59, 999)`). */
  const ContextDayEnd: int := CheckoutDayEnd + 999

  /** UTC midnight of the day holding `now`: the start of that day. Dafny's `%`
      rounds toward minus infinity for a positive divisor, as the calendar does
      for instants before 1970. */
  function DayStart(now: int): (r: int)
    ensures r <= now < r + DayMs
    ensures r % DayMs == 0
  {
    now - now % DayMs
  }

  /** Every instant of a day has that day's midnight as its start. */
  lemma DayStartOfSameDay(d: int, t: int)
    requires d % DayMs == 0
    requires d <= t < d + DayMs
    ensures DayStart(t) == d
  {
  }

  /** The window of the checkout route: [00:00:00.000, 23:59:59.000] UTC. */
  predicate InCheckoutWindow(now: int, t: int)
  {
    DayStart(now) <= t <= DayStart(now) + CheckoutDayEnd
  }

  /** The window of the reservation-context route: [00:00:00.000, 23:59:59.999] UTC. */
  predicate InContextWindow(now: int, t: int)
  {
    DayStart(now) <= t <= DayStart(now) + ContextDayEnd
  }

  /** The context window is exactly the UTC calendar day of `now`. */
  lemma ContextWindowIsUtcDay(now: int, t: int)
    ensures InContextWindow(now, t) <==> DayStart(t) == DayStart(now)
  {
    if InContextWindow(now, t) {
      DayStartOfSameDay(DayStart(now), t);
    }
  }

  /** The checkout window is the UTC calendar day of `now` without its last
      999 milliseconds. */
  lemma CheckoutWindowIsUtcDayToLastSecond(now: int, t: int)
    ensures InCheckoutWindow(now, t) <==>
            DayStart(t) == DayStart(now) && t - DayStart(t) <= CheckoutDayEnd
  {
    if InCheckoutWindow(now, t) {
      DayStartOfSameDay(DayStart(now), t);
    }
  }

  /** The two windows differ exactly by the final 999 ms of the day. */
  lemma WindowsDifferInLastSecond(now: int, t: int)
    ensures InCheckoutWindow(now, t) ==> InContextWindow(now, t)
    ensures InContextWindow(now, t) && !InCheckoutWindow(now, t) <==>
            DayStart(now) + CheckoutDayEnd < t <= DayStart(now) + ContextDayEnd
  {
  }
}
