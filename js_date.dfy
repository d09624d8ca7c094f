/**
 * The part of JavaScript's `Date` the core uses, over a zone-free local
 * calendar: a time value is an integer count of milliseconds since
 * 1970-01-01T00:00 local time, with no daylight-saving shifts.
 */
module JsDate {

  const MsPerSecond: int := 1000
  const MsPerMinute: int := 60 * MsPerSecond
  const MsPerHour: int := 60 * MsPerMinute
  const MsPerDay: int := 24 * MsPerHour

  /** Days from 1970-01-01 to the proleptic Gregorian date y-m-d (d may lie outside the month). */
  function DaysFromCivil(y: int, m: int, d: int): int
    requires 1 <= m <= 12
  {
    var y' := if m <= 2 then y - 1 else y;
    var era := y' / 400;
    var yoe := y' - era * 400;
    var mp := if m > 2 then m - 3 else m + 9;
    var doy := (153 * mp + 2) / 5 + d - 1;
    var doe := yoe * 365 + yoe / 4 - yoe / 100 + doy;
    era * 146097 + doe - 719468
  }

  /** ECMAScript MakeDay: a month index outside 0..11 carries into the year, and the
      day of the month is added as a number of days (so 2024-13-45 is a real day). */
  function MakeDay(year: int, monthIndex: int, date: int): int {
    DaysFromCivil(year + monthIndex / 12, monthIndex % 12 + 1, 1) + date - 1
  }

  /** `new Date(year, monthIndex, date, hours, minutes, seconds, ms).getTime()`: years 0..99
      mean 1900..1999, and every field may overflow into the next larger one. */
  function MakeLocalDate(year: int, monthIndex: int, date: int, hours: int, minutes: int, seconds: int, ms: int): int {
    var fullYear := if 0 <= year <= 99 then 1900 + year else year;
    MakeDay(fullYear, monthIndex, date) * MsPerDay
      + hours * MsPerHour + minutes * MsPerMinute + seconds * MsPerSecond + ms
  }

  /** The local day a time value falls on, counted from 1970-01-01. */
  function DayNumber(t: int): int {
    t / MsPerDay
  }

  /** `new Date(t).getHours()`. */
  function GetHours(t: int): (h: int)
    ensures 0 <= h < 24
  {
    (t / MsPerHour) % 24
  }

  lemma DivOfSum(q: int, m: int, r: int)
    requires m > 0 && 0 <= r < m
    ensures (q * m + r) / m == q && (q * m + r) % m == r
  {
    var d, e := (q * m + r) / m, (q * m + r) % m;
    assert (q - d) * m == e - r;
    MulAwayFromZero(q - d, m);
  }

  lemma MulAwayFromZero(x: int, m: int)
    requires m > 0
    ensures x >= 1 ==> x * m >= m
    ensures x <= -1 ==> x * m <= -m
  {
  }

  /** A time value built from a day and a wall-clock time within that day falls on that
      day, at that hour. */
  lemma WallClock(day: int, hours: int, minutes: int)
    requires 0 <= hours < 24 && 0 <= minutes < 60
    ensures DayNumber(day * MsPerDay + hours * MsPerHour + minutes * MsPerMinute) == day
    ensures GetHours(day * MsPerDay + hours * MsPerHour + minutes * MsPerMinute) == hours
  {
    var r := hours * MsPerHour + minutes * MsPerMinute;
    assert 0 <= r < MsPerDay;
    DivOfSum(day, MsPerDay, r);
    var t := day * MsPerDay + r;
    assert t == (day * 24 + hours) * MsPerHour + minutes * MsPerMinute;
    DivOfSum(day * 24 + hours, MsPerHour, minutes * MsPerMinute);
    DivOfSum(day, 24, hours);
  }
}
