/** Calendar dates as the SQL queries see them, and instants as the
    JavaScript `Date` arithmetic sees them. */
module Dates {

  /** A SQL `date`: year, month (1..12) and day of month. */
  datatype Date = Date(year: int, month: int, day: int)

  /** A SQL `timestamp`: a date and the milliseconds elapsed since its midnight. */
  datatype Timestamp = Timestamp(date: Date, msOfDay: int)

  /** A JavaScript instant in local time: a day ordinal (days since some
      fixed origin) and the milliseconds elapsed since that day's midnight. */
  datatype Instant = Instant(day: int, msOfDay: int)

  const MsPerHour: int := 3_600_000
  const MsPerDay: int := 86_400_000

  predicate IsLeapYear(y: int) {
    y % 4 == 0 && (y % 100 != 0 || y % 400 == 0)
  }

  function DaysInMonth(y: int, m: int): (n: int)
    requires 1 <= m <= 12
    ensures 28 <= n <= 31
    ensures n == 31 <==> m in {1, 3, 5, 7, 8, 10, 12}
    ensures m == 2 ==> (n == 29 <==> IsLeapYear(y))
    ensures m == 2 && !IsLeapYear(y) ==> n == 28
    ensures m in {4, 6, 9, 11} ==> n == 30
  {
    if m == 2 then (if IsLeapYear(y) then 29 else 28)
    else if m in {4, 6, 9, 11} then 30
    else 31
  }

  predicate ValidDate(d: Date) {
    1 <= d.month <= 12 && 1 <= d.day <= DaysInMonth(d.year, d.month)
  }

  /** The milliseconds of the day lie within that day. */
  predicate ValidInstant(t: Instant) {
    0 <= t.msOfDay < MsPerDay
  }

  /** Strict chronological order of dates. */
  predicate Before(a: Date, b: Date) {
    a.year < b.year
    || (a.year == b.year && a.month < b.month)
    || (a.year == b.year && a.month == b.month && a.day < b.day)
  }

  predicate NotAfter(a: Date, b: Date) {
    !Before(b, a)
  }

  /** `EXTRACT(YEAR FROM d) = y AND EXTRACT(MONTH FROM d) = m`. */
  predicate InMonth(d: Date, y: int, m: int) {
    d.year == y && d.month == m
  }

  /** `make_date(y, m, 1)`. */
  function FirstDay(y: int, m: int): (d: Date)
    requires 1 <= m <= 12
    ensures ValidDate(d) && InMonth(d, y, m)
    ensures forall e: Date :: InMonth(e, y, m) && ValidDate(e) ==> NotAfter(d, e)
  {
    Date(y, m, 1)
  }

  /** `make_date(y, m, 1) + interval '1 month - 1 day'`. */
  function LastDay(y: int, m: int): (d: Date)
    requires 1 <= m <= 12
    ensures ValidDate(d) && InMonth(d, y, m)
    ensures forall e: Date :: InMonth(e, y, m) && ValidDate(e) ==> NotAfter(e, d)
  {
    Date(y, m, DaysInMonth(y, m))
  }

  /** `ts >= d::date`: at or after the midnight that starts `d`. */
  predicate AtOrAfterMidnight(ts: Timestamp, d: Date) {
    NotAfter(d, ts.date)
  }

  /** `ts <= d::date`: at or before the midnight that starts `d`. */
  predicate AtOrBeforeMidnight(ts: Timestamp, d: Date) {
    Before(ts.date, d) || (ts.date == d && ts.msOfDay <= 0)
  }

  /** `new Date(end) - new Date(start)` in milliseconds. */
  function ElapsedMs(start: Instant, end: Instant): int {
    (end.day - start.day) * MsPerDay + (end.msOfDay - start.msOfDay)
  }
}
