/** Calendar values of java.time (LocalDate, LocalTime, LocalDateTime) on the
    proleptic Gregorian calendar, and the date arithmetic the reports use. */
module Calendar {

  /** The largest year LocalDate supports. */
  const MaxYear := 999_999_999

  datatype Date = Date(year: int, month: int, day: int)

  /** A LocalTime: LocalDateTime.now() fills in the nanoseconds, the text formats drop them. */
  datatype Time = Time(hour: int, minute: int, second: int, nano: int)

  datatype DateTime = DateTime(date: Date, time: Time)

  /** Year.isLeap; Euclidean and truncated remainders agree on being zero. */
  predicate IsLeapYear(y: int)
  {
    y % 4 == 0 && (y % 100 != 0 || y % 400 == 0)
  }

  function DaysInMonth(y: int, m: int): (n: int)
    requires 1 <= m <= 12
    ensures 28 <= n <= 31
  {
    if m == 2 then (if IsLeapYear(y) then 29 else 28)
    else if m == 4 || m == 6 || m == 9 || m == 11 then 30
    else 31
  }

  function DaysBeforeMonth(y: int, m: int): int
    requires 1 <= m <= 13
    decreases m
  {
    if m == 1 then 0 else DaysBeforeMonth(y, m - 1) + DaysInMonth(y, m - 1)
  }

  /** The month lengths add up to Year.length: 366 days in a leap year, 365 otherwise. */
  lemma YearLength(y: int)
    ensures DaysBeforeMonth(y, 13) == if IsLeapYear(y) then 366 else 365
  {
    var feb := DaysInMonth(y, 2);
    assert DaysBeforeMonth(y, 3) == 31 + feb;
    assert DaysBeforeMonth(y, 7) == 31 + feb + 31 + 30 + 31 + 30;
    assert DaysBeforeMonth(y, 13) == 31 + feb + 31 + 30 + 31 + 30 + 31 + 31 + 30 + 31 + 30 + 31;
  }

  predicate ValidDate(d: Date)
  {
    1 <= d.month <= 12 && 1 <= d.day <= DaysInMonth(d.year, d.month)
  }

  predicate ValidTime(t: Time)
  {
    0 <= t.hour < 24 && 0 <= t.minute < 60 && 0 <= t.second < 60 && 0 <= t.nano < 1_000_000_000
  }

  predicate ValidDateTime(dt: DateTime)
  {
    ValidDate(dt.date) && ValidTime(dt.time)
  }

  // ------------------------------------------------------------ ordering

  /** LocalDate.isBefore: year, then month, then day. */
  predicate DateBefore(a: Date, b: Date)
  {
    a.year < b.year || (a.year == b.year && (a.month < b.month || (a.month == b.month && a.day < b.day)))
  }

  predicate DateAtMost(a: Date, b: Date)
  {
    !DateBefore(b, a)
  }

  /** LocalTime.isBefore: hour, minute, second, then nanosecond. */
  predicate TimeBefore(a: Time, b: Time)
  {
    a.hour < b.hour || (a.hour == b.hour && (a.minute < b.minute || (a.minute == b.minute &&
      (a.second < b.second || (a.second == b.second && a.nano < b.nano)))))
  }

  /** The order of Comparator.comparing(getDate).thenComparing(getTime). */
  predicate DateTimeBefore(a: DateTime, b: DateTime)
  {
    DateBefore(a.date, b.date) || (a.date == b.date && TimeBefore(a.time, b.time))
  }

  // ------------------------------------------------------------ LocalDate arithmetic

  function Min(a: int, b: int): int { if a <= b then a else b }

  /** withDayOfMonth(1). */
  function FirstDayOfMonth(d: Date): (r: Date)
    requires ValidDate(d)
    ensures ValidDate(r) && r.year == d.year && r.month == d.month && r.day == 1
  {
    Date(d.year, d.month, 1)
  }

  /** with(TemporalAdjusters.lastDayOfMonth()). */
  function LastDayOfMonth(d: Date): (r: Date)
    requires ValidDate(d)
    ensures ValidDate(r) && r.year == d.year && r.month == d.month
    ensures forall e: Date :: ValidDate(e) && e.year == d.year && e.month == d.month ==> e.day <= r.day
  {
    Date(d.year, d.month, DaysInMonth(d.year, d.month))
  }

  /** withDayOfYear(1). */
  function FirstDayOfYear(d: Date): (r: Date)
    ensures ValidDate(r) && r.year == d.year && r.month == 1 && r.day == 1
  {
    Date(d.year, 1, 1)
  }

  /** with(TemporalAdjusters.lastDayOfYear()). */
  function LastDayOfYear(d: Date): (r: Date)
    ensures ValidDate(r) && r.year == d.year
    ensures forall e: Date :: ValidDate(e) && e.year == d.year ==> DateAtMost(e, r)
  {
    Date(d.year, 12, 31)
  }

  /** minusMonths(n), which is plusMonths(-n): count months from year 0 with
      floor division, then clamp the day to the new month's length. */
  function MinusMonths(d: Date, n: nat): (r: Date)
    requires ValidDate(d)
    ensures ValidDate(r)
    ensures r.year * 12 + r.month == d.year * 12 + d.month - n
    ensures r.day == Min(d.day, DaysInMonth(r.year, r.month))
  {
    var count := d.year * 12 + (d.month - 1) - n;
    var y := count / 12;
    var m := count % 12 + 1;
    Date(y, m, Min(d.day, DaysInMonth(y, m)))
  }

  /** minusYears(n): same month, day clamped (February 29 becomes February 28). */
  function MinusYears(d: Date, n: nat): (r: Date)
    requires ValidDate(d)
    ensures ValidDate(r) && r.year == d.year - n && r.month == d.month
    ensures r.day == d.day || (d.month == 2 && d.day == 29 && r.day == 28 && !IsLeapYear(r.year))
  {
    var y := d.year - n;
    Date(y, d.month, Min(d.day, DaysInMonth(y, d.month)))
  }

  /** plusDays(1). */
  function NextDay(d: Date): (r: Date)
    requires ValidDate(d)
    ensures ValidDate(r) && DateBefore(d, r)
    ensures forall e: Date :: ValidDate(e) ==> !(DateBefore(d, e) && DateBefore(e, r))
  {
    if d.day < DaysInMonth(d.year, d.month) then Date(d.year, d.month, d.day + 1)
    else if d.month < 12 then Date(d.year, d.month + 1, 1)
    else Date(d.year + 1, 1, 1)
  }
}
