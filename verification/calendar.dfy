/** The proleptic Gregorian calendar that pandas timestamps live in, reduced to
    what resampling needs: validity of a civil timestamp, an ordinal number for
    each hour, day and month, the bucket label pandas gives each ordinal, and
    the round trips between the two. */
module Calendar {

  datatype Date = Date(year: int, month: int, day: int)

  datatype Timestamp = Timestamp(date: Date, hour: int, minute: int, second: int)

  predicate IsLeapYear(y: int) {
    y % 4 == 0 && (y % 100 != 0 || y % 400 == 0)
  }

  function DaysInYear(y: int): int {
    if IsLeapYear(y) then 366 else 365
  }

  function DaysInMonth(y: int, m: int): int
    requires 1 <= m <= 12
  {
    if m == 2 then (if IsLeapYear(y) then 29 else 28)
    else if m == 4 || m == 6 || m == 9 || m == 11 then 30
    else 31
  }

  /** Days of year `y` that lie before the first of month `m`; month 13 stands
      for the end of the year. */
  function DaysBeforeMonth(y: int, m: int): int
    requires 1 <= m <= 13
  {
    var leap := if IsLeapYear(y) && m > 2 then 1 else 0;
    leap +
    if m == 1 then 0 else if m == 2 then 31 else if m == 3 then 59
    else if m == 4 then 90 else if m == 5 then 120 else if m == 6 then 151
    else if m == 7 then 181 else if m == 8 then 212 else if m == 9 then 243
    else if m == 10 then 273 else if m == 11 then 304 else if m == 12 then 334
    else 365
  }

  /** Days from 0001-01-01 to the first of January of year `y`. */
  function DaysBeforeYear(y: int): nat
    requires y >= 1
    decreases y
  {
    if y == 1 then 0 else DaysBeforeYear(y - 1) + DaysInYear(y - 1)
  }

  predicate ValidDate(d: Date) {
    && d.year >= 1
    && 1 <= d.month <= 12
    && 1 <= d.day <= DaysInMonth(d.year, d.month)
  }

  predicate ValidTimestamp(t: Timestamp) {
    && ValidDate(t.date)
    && 0 <= t.hour < 24
    && 0 <= t.minute < 60
    && 0 <= t.second < 60
  }

  /** `t` is not earlier than the civil time y-mo-d h:mi:s. */
  predicate NotBefore(t: Timestamp, y: int, mo: int, d: int, h: int, mi: int, s: int) {
    if t.date.year != y then t.date.year > y
    else if t.date.month != mo then t.date.month > mo
    else if t.date.day != d then t.date.day > d
    else if t.hour != h then t.hour > h
    else if t.minute != mi then t.minute > mi
    else t.second >= s
  }

  /** `t` is not later than the civil time y-mo-d h:mi:s. */
  predicate NotAfter(t: Timestamp, y: int, mo: int, d: int, h: int, mi: int, s: int) {
    if t.date.year != y then t.date.year < y
    else if t.date.month != mo then t.date.month < mo
    else if t.date.day != d then t.date.day < d
    else if t.hour != h then t.hour < h
    else if t.minute != mi then t.minute < mi
    else t.second <= s
  }

  /** pandas keeps a timestamp as signed 64-bit nanoseconds since 1970, so it
      represents 1677-09-21 00:12:43.145224193 up to 2262-04-11
      23:47:16.854775807; for whole seconds that is 00:12:44 on the first day
      up to 23:47:16 on the last. */
  predicate InNanosecondRange(t: Timestamp) {
    NotBefore(t, 1677, 9, 21, 0, 12, 44) && NotAfter(t, 2262, 4, 11, 23, 47, 16)
  }

  /** Ordinal of a date: the number of days since 0001-01-01. */
  function DayOrd(d: Date): int
    requires ValidDate(d)
  {
    DaysBeforeYear(d.year) + DaysBeforeMonth(d.year, d.month) + d.day - 1
  }

  lemma MonthStep(y: int, m: int)
    requires 1 <= m <= 12
    ensures DaysBeforeMonth(y, m + 1) == DaysBeforeMonth(y, m) + DaysInMonth(y, m)
  {
  }

  lemma YearIsTwelveMonths(y: int)
    ensures DaysBeforeMonth(y, 13) == DaysInYear(y)
  {
  }

  lemma {:induction false} MonthsMonotone(y: int, m: int, m': int)
    requires 1 <= m < m' <= 13
    ensures DaysBeforeMonth(y, m) + DaysInMonth(y, m) <= DaysBeforeMonth(y, m')
    decreases m' - m
  {
    MonthStep(y, m);
    if m + 1 < m' {
      MonthsMonotone(y, m + 1, m');
    }
  }

  lemma {:induction false} YearsMonotone(y: int, y': int)
    requires 1 <= y < y'
    ensures DaysBeforeYear(y) + DaysInYear(y) <= DaysBeforeYear(y')
    decreases y' - y
  {
    if y + 1 < y' {
      YearsMonotone(y + 1, y');
    }
  }

  /** A valid date's ordinal lies inside its own year. */
  lemma DayOrdWithinYear(d: Date)
    requires ValidDate(d)
    ensures DaysBeforeYear(d.year) <= DayOrd(d) < DaysBeforeYear(d.year) + DaysInYear(d.year)
  {
    MonthsMonotone(d.year, d.month, 13);
  }

  /** Two valid dates with the same ordinal are the same date. */
  lemma DayOrdInjective(d: Date, d': Date)
    requires ValidDate(d) && ValidDate(d')
    requires DayOrd(d) == DayOrd(d')
    ensures d == d'
  {
    DayOrdWithinYear(d);
    DayOrdWithinYear(d');
    if d.year < d'.year {
      YearsMonotone(d.year, d'.year);
    } else if d'.year < d.year {
      YearsMonotone(d'.year, d.year);
    }
    assert d.year == d'.year;
    if d.month < d'.month {
      MonthsMonotone(d.year, d.month, d'.month);
    } else if d'.month < d.month {
      MonthsMonotone(d.year, d'.month, d.month);
    }
  }

  /** Walks forward year by year from `y`, `n` days into the count. */
  function YearOfOrd(y: int, n: int): (r: (int, int))
    requires y >= 1 && n >= 0
    ensures r.0 >= y && 0 <= r.1 < DaysInYear(r.0)
    ensures DaysBeforeYear(r.0) + r.1 == DaysBeforeYear(y) + n
    decreases n
  {
    if n < DaysInYear(y) then (y, n) else YearOfOrd(y + 1, n - DaysInYear(y))
  }

  /** Walks forward month by month from `m` to the month holding day-of-year `r`. */
  function MonthOfDayOfYear(y: int, m: int, r: int): (res: (int, int))
    requires 1 <= m <= 12
    requires DaysBeforeMonth(y, m) <= r < DaysInYear(y)
    ensures 1 <= res.0 <= 12 && 0 <= res.1 < DaysInMonth(y, res.0)
    ensures DaysBeforeMonth(y, res.0) + res.1 == r
    decreases 12 - m
  {
    MonthStep(y, m);
    YearIsTwelveMonths(y);
    if r < DaysBeforeMonth(y, m) + DaysInMonth(y, m) then (m, r - DaysBeforeMonth(y, m))
    else MonthOfDayOfYear(y, m + 1, r)
  }

  /** The date with ordinal `n`: the inverse of DayOrd. */
  function DateOfDayOrd(n: int): (d: Date)
    requires n >= 0
    ensures ValidDate(d) && DayOrd(d) == n
  {
    var (y, r) := YearOfOrd(1, n);
    var (m, k) := MonthOfDayOfYear(y, 1, r);
    Date(y, m, k + 1)
  }

  lemma DateOfDayOrdInverse(d: Date)
    requires ValidDate(d)
    ensures DayOrd(d) >= 0 && DateOfDayOrd(DayOrd(d)) == d
  {
    DayOrdInjective(DateOfDayOrd(DayOrd(d)), d);
  }

  /** The resampling rules of the dashboard: "h" (hourly), "D" (daily) and
      "M" (monthly, labelled by the month's last day). */
  datatype Unit = Hourly | Daily | Monthly

  /** The ordinal of the bucket of unit `u` that holds `t`. */
  function Key(t: Timestamp, u: Unit): (k: int)
    requires ValidTimestamp(t)
    ensures k >= 0
  {
    match u
    case Hourly => DayOrd(t.date) * 24 + t.hour
    case Daily => DayOrd(t.date)
    case Monthly => (t.date.year - 1) * 12 + t.date.month - 1
  }

  /** The last day of month `m` of year `y`: the label pandas' "M" rule gives. */
  function MonthEnd(y: int, m: int): Date
    requires 1 <= m <= 12
  {
    Date(y, m, DaysInMonth(y, m))
  }

  /** The label pandas attaches to the bucket of unit `u` holding `t`. */
  function Floor(t: Timestamp, u: Unit): Timestamp
    requires ValidTimestamp(t)
  {
    match u
    case Hourly => Timestamp(t.date, t.hour, 0, 0)
    case Daily => Timestamp(t.date, 0, 0, 0)
    case Monthly => Timestamp(MonthEnd(t.date.year, t.date.month), 0, 0, 0)
  }

  /** The label of the bucket with ordinal `k`; it is a valid timestamp whose
      own key is `k` again. */
  function Label(k: int, u: Unit): (t: Timestamp)
    requires k >= 0
    ensures ValidTimestamp(t) && Key(t, u) == k
  {
    match u
    case Hourly => Timestamp(DateOfDayOrd(k / 24), k % 24, 0, 0)
    case Daily => Timestamp(DateOfDayOrd(k), 0, 0, 0)
    case Monthly => Timestamp(MonthEnd(k / 12 + 1, k % 12 + 1), 0, 0, 0)
  }

  /** Labelling the key of a timestamp gives its pandas floor. */
  lemma LabelOfKey(t: Timestamp, u: Unit)
    requires ValidTimestamp(t)
    ensures Label(Key(t, u), u) == Floor(t, u)
  {
    DateOfDayOrdInverse(t.date);
    match u
    case Hourly =>
      var k := Key(t, u);
      assert k / 24 == DayOrd(t.date) && k % 24 == t.hour;
    case Daily =>
    case Monthly =>
  }

  /** Two valid timestamps fall in the same bucket exactly when pandas gives
      them the same label. */
  lemma SameBucket(t: Timestamp, t': Timestamp, u: Unit)
    requires ValidTimestamp(t) && ValidTimestamp(t')
    ensures Key(t, u) == Key(t', u) <==> Floor(t, u) == Floor(t', u)
  {
    LabelOfKey(t, u);
    LabelOfKey(t', u);
    if Floor(t, u) == Floor(t', u) {
      match u
      case Hourly =>
        assert t.date == t'.date && t.hour == t'.hour;
      case Daily =>
        assert t.date == t'.date;
      case Monthly =>
        assert t.date.year == t'.date.year && t.date.month == t'.date.month;
    }
  }
}
