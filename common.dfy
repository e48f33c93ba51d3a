/** Shared vocabulary of the appointment engine: optional values, calendar
    dates, times of day and the two configuration constants. */
module Common {

  datatype Option<T> = None | Some(value: T)

  /** A calendar date, as its proleptic Gregorian ordinal (0001-01-01 is day 1,
      a Monday), which is what Python's `date.toordinal()` returns. */
  type Date = int

  /** A time of day, in minutes since midnight. Every time the engine handles is
      a whole number of minutes. */
  type Time = int

  /** Minutes between two consecutive slots (PASO_MIN). */
  const PasoMin: int := 30

  /** Days of lead time before the earliest self-service booking
      (BLOQUEO_DIAS_MIN): today and tomorrow are blocked. */
  const BloqueoDiasMin: int := 2

  /** The time of day `h:m`. */
  function Hm(h: int, m: int): Time
  {
    h * 60 + m
  }

  /** Python's `date.weekday()`: Monday is 0, Sunday is 6. */
  function Weekday(d: Date): (wd: int)
    ensures 0 <= wd < 7
  {
    (d + 6) % 7
  }

  /** The weekday repeats every seven days. */
  lemma WeekdayPeriodic(d: Date, k: int)
    ensures Weekday(d + 7 * k) == Weekday(d)
  {
  }

  /** `is_fecha_permitida`: the date is at least BloqueoDiasMin days after today. */
  predicate IsFechaPermitida(fecha: Date, today: Date)
  {
    fecha >= today + BloqueoDiasMin
  }

  /** Lead-time boundary: with today = T, T + 1 is refused and T + 2 is the
      first date allowed; every later date is allowed too. */
  lemma {:induction false} LeadTimeBoundary(today: Date, fecha: Date)
    ensures !IsFechaPermitida(today + 1, today) && IsFechaPermitida(today + 2, today)
    ensures IsFechaPermitida(fecha, today) <==> fecha - today >= 2
    ensures IsFechaPermitida(fecha, today) ==> IsFechaPermitida(fecha + 1, today)
  {
  }
}
