/** The period query of the dashboard callbacks: a granularity tag (D, M or Y)
    with the three optional picker values, resolved into a calendar period,
    and the slice of the raw or hourly table that falls in it. */
module Periods {
  import opened Wrappers
  import opened Calendar
  import opened Readings
  import opened Hourly

  /** The value of the granularity dropdown. */
  datatype Granularity = D | M | Y

  /** The inputs every view callback receives: the dropdown tag, the day
      picker's date, the month picker's date and the year dropdown's value;
      each picker value may be None, and a date need not parse (`Parses`). */
  datatype Selector = Selector(agg: Granularity, day: Option<Date>, month: Option<Date>, year: Option<int>)

  /** A calendar period a timestamp can fall in. */
  datatype Period = OnDay(date: Date) | InMonth(year: int, month: int) | InYear(year: int)

  /** What a callback raises instead of producing its figure. */
  datatype Fault =
    | MissingReference  // the active reference is None and is dereferenced
    | UnboundFigure     // a branch returns a figure variable it never bound
    | UnknownArgument   // a plotting call is passed a keyword it does not take
    | Unparsable        // `pd.to_datetime` is given a reference that is no date in pandas' range

  /** The views that filter the hourly table; they differ in the guard of
      their year branch. */
  datatype Consumer = WindRose | SolarMap | HumidityGauge

  /** `pd.to_datetime` of a date picker's value parses: midnight of a real
      calendar date inside pandas' nanosecond range. Anything else raises. */
  predicate Parses(d: Date) {
    ValidDate(d) && InNanosecondRange(Timestamp(d, 0, 0, 0))
  }

  /** `pd.to_datetime` of the year dropdown's value, a year string, parses
      to January 1 of that year. */
  predicate YearParses(y: int) {
    Parses(Date(y, 1, 1))
  }

  /** The years a year string may name: those whose January 1 is inside
      pandas' range. */
  lemma YearParsesIff(y: int)
    ensures YearParses(y) <==> 1678 <= y <= 2262
  {
  }

  /** The dates a picker value may name: a day that exists in the civil
      calendar, from 1677-09-22 to 2262-04-11. */
  lemma ParsesEdges()
    ensures !Parses(Date(2024, 2, 30)) && Parses(Date(2024, 2, 29)) && !Parses(Date(2023, 2, 29))
    ensures !Parses(Date(1677, 9, 21)) && Parses(Date(1677, 9, 22))
    ensures Parses(Date(2262, 4, 11)) && !Parses(Date(2262, 4, 12))
  {
  }

  predicate InPeriod(t: Timestamp, p: Period) {
    match p
    case OnDay(d) => t.date == d
    case InMonth(y, m) => t.date.year == y && t.date.month == m
    case InYear(y) => t.date.year == y
  }

  /** `p` is one of the periods that contain `q`'s days: the day in its month
      or year, the month in its year, or the period itself. */
  predicate Within(q: Period, p: Period) {
    match q
    case OnDay(d) => p == q || p == InMonth(d.year, d.month) || p == InYear(d.year)
    case InMonth(y, _) => p == q || p == InYear(y)
    case InYear(_) => p == q
  }

  lemma WithinContains(t: Timestamp, q: Period, p: Period)
    requires Within(q, p) && InPeriod(t, q)
    ensures InPeriod(t, p)
  {
  }

  /** The period the temperature view filters the raw table by. There is no
      None guard: a missing reference of the active tag raises, and so does
      a day or month date that does not parse; the year is taken by `int`. */
  function RawPeriod(sel: Selector): (r: Result<Period, Fault>)
    ensures r.Err? <==> match sel.agg
      case D => sel.day.None? || !Parses(sel.day.value)
      case M => sel.month.None? || !Parses(sel.month.value)
      case Y => sel.year.None?
    ensures r == Err(MissingReference) <==> match sel.agg
      case D => sel.day.None?
      case M => sel.month.None?
      case Y => sel.year.None?
    ensures r.Ok? ==> match sel.agg
      case D => r.value == OnDay(sel.day.value)
      case M => r.value == InMonth(sel.month.value.year, sel.month.value.month)
      case Y => r.value == InYear(sel.year.value)
  {
    match sel.agg
    case D =>
      if sel.day.None? then Err(MissingReference)
      else if !Parses(sel.day.value) then Err(Unparsable)
      else Ok(OnDay(sel.day.value))
    case M =>
      if sel.month.None? then Err(MissingReference)
      else if !Parses(sel.month.value) then Err(Unparsable)
      else Ok(InMonth(sel.month.value.year, sel.month.value.month))
    case Y => if sel.year.None? then Err(MissingReference) else Ok(InYear(sel.year.value))
  }

  /** The reference each hourly view tests before filtering for tag Y: the
      rose and the solar map test the month picker, the humidity gauge the
      year dropdown. */
  function YearGuard(sel: Selector, c: Consumer): bool {
    if c == HumidityGauge then sel.year.Some? else sel.month.Some?
  }

  /** The period an hourly view filters by; Ok(None) when the active branch's
      guard fails and the whole table is used. A passed guard whose
      reference does not parse raises; so does a passed Y guard with no
      year, since the year picker's None has no year. */
  function HourlyPeriod(sel: Selector, c: Consumer): (r: Result<Option<Period>, Fault>)
    ensures r.Err? <==> match sel.agg
      case D => sel.day.Some? && !Parses(sel.day.value)
      case M => sel.month.Some? && !Parses(sel.month.value)
      case Y => YearGuard(sel, c) && (sel.year.None? || !YearParses(sel.year.value))
    ensures r == Err(MissingReference) <==> sel.agg == Y && YearGuard(sel, c) && sel.year.None?
    ensures r == Ok(None) <==> match sel.agg
      case D => sel.day.None?
      case M => sel.month.None?
      case Y => !YearGuard(sel, c)
    ensures r.Ok? && r.value.Some? ==> RawPeriod(sel) == Ok(r.value.value)
  {
    match sel.agg
    case D =>
      if sel.day.None? then Ok(None)
      else if !Parses(sel.day.value) then Err(Unparsable)
      else Ok(Some(OnDay(sel.day.value)))
    case M =>
      if sel.month.None? then Ok(None)
      else if !Parses(sel.month.value) then Err(Unparsable)
      else Ok(Some(InMonth(sel.month.value.year, sel.month.value.month)))
    case Y =>
      if !YearGuard(sel, c) then Ok(None)
      else if sel.year.None? then Err(MissingReference)
      else if !YearParses(sel.year.value) then Err(Unparsable)
      else Ok(Some(InYear(sel.year.value)))
  }

  /** The raw readings whose (valid) timestamp falls in `p`, in order; NaT rows
      never match. A matching reading is kept as often as it occurs. */
  function SelectReadings(s: seq<Reading>, p: Period): (r: seq<Reading>)
    ensures |r| <= |s|
    ensures forall x :: x in r <==> x in s && TimeOf(x).Some? && InPeriod(TimeOf(x).value, p)
    decreases |s|
  {
    if |s| == 0 then []
    else
      var init := s[..|s| - 1];
      var last := s[|s| - 1];
      assert s == init + [last];
      SelectReadings(init, p) + (if TimeOf(last).Some? && InPeriod(TimeOf(last).value, p) then [last] else [])
  }

  /** The hourly rows whose hour falls in `p`, in order, each as often as it
      occurs. */
  function SelectHours(t: seq<HourRow>, p: Period): (r: seq<HourRow>)
    ensures |r| <= |t|
    ensures forall x :: x in r <==> x in t && InPeriod(Stamp(x), p)
    decreases |t|
  {
    if |t| == 0 then []
    else
      var init := t[..|t| - 1];
      var last := t[|t| - 1];
      assert t == init + [last];
      SelectHours(init, p) + (if InPeriod(Stamp(last), p) then [last] else [])
  }

  /** The filter keeps multiplicity: a reading in the period occurs in the
      slice exactly as often as in the table, any other reading never. */
  lemma {:induction false} SelectReadingsCounts(s: seq<Reading>, p: Period)
    ensures forall x :: multiset(SelectReadings(s, p))[x] ==
                       if TimeOf(x).Some? && InPeriod(TimeOf(x).value, p) then multiset(s)[x] else 0
    decreases |s|
  {
    if |s| > 0 {
      var init := s[..|s| - 1];
      var last := s[|s| - 1];
      assert s == init + [last];
      SelectReadingsCounts(init, p);
    }
  }

  lemma ConcatAssociates<T>(x: seq<T>, y: seq<T>, z: seq<T>)
    ensures (x + y) + z == x + (y + z)
  {
  }

  /** The filter keeps table order: the slice of two consecutive stretches
      of the table is the slice of the first followed by that of the second. */
  lemma {:induction false} SelectReadingsSplits(a: seq<Reading>, b: seq<Reading>, p: Period)
    ensures SelectReadings(a + b, p) == SelectReadings(a, p) + SelectReadings(b, p)
    decreases |b|
  {
    if |b| == 0 {
      assert a + b == a;
    } else {
      var init := b[..|b| - 1];
      var last := b[|b| - 1];
      assert a + b == (a + init) + [last];
      assert b == init + [last];
      SelectReadingsAppend(a + init, [last], p);
      SelectReadingsAppend(init, [last], p);
      SelectReadingsSplits(a, init, p);
      ConcatAssociates(SelectReadings(a, p), SelectReadings(init, p), SelectReadings([last], p));
    }
  }

  /** Likewise for the hourly table: multiplicity is kept. */
  lemma {:induction false} SelectHoursCounts(t: seq<HourRow>, p: Period)
    ensures forall x :: multiset(SelectHours(t, p))[x] == if InPeriod(Stamp(x), p) then multiset(t)[x] else 0
    decreases |t|
  {
    if |t| > 0 {
      var init := t[..|t| - 1];
      var last := t[|t| - 1];
      assert t == init + [last];
      SelectHoursCounts(init, p);
    }
  }

  /** Likewise for the hourly table: order is kept. */
  lemma {:induction false} SelectHoursSplits(a: seq<HourRow>, b: seq<HourRow>, p: Period)
    ensures SelectHours(a + b, p) == SelectHours(a, p) + SelectHours(b, p)
    decreases |b|
  {
    if |b| == 0 {
      assert a + b == a;
    } else {
      var init := b[..|b| - 1];
      var last := b[|b| - 1];
      assert a + b == (a + init) + [last];
      assert b == init + [last];
      SelectHoursAppend(a + init, [last], p);
      SelectHoursAppend(init, [last], p);
      SelectHoursSplits(a, init, p);
      ConcatAssociates(SelectHours(a, p), SelectHours(init, p), SelectHours([last], p));
    }
  }

  /** A period selects no hour exactly when no row's hour falls in it. */
  lemma {:induction false} SelectHoursEmptyIff(t: seq<HourRow>, p: Period)
    ensures SelectHours(t, p) == [] <==> forall i :: 0 <= i < |t| ==> !InPeriod(Stamp(t[i]), p)
    decreases |t|
  {
    if |t| > 0 {
      var init := t[..|t| - 1];
      SelectHoursEmptyIff(init, p);
      assert forall i :: 0 <= i < |init| ==> init[i] == t[i];
    }
  }

  /** The slice the temperature view plots: the raw table filtered by the
      selector's period. */
  function RawSlice(s: seq<Reading>, sel: Selector): (r: Result<seq<Reading>, Fault>)
    ensures r.Err? <==> RawPeriod(sel).Err?
  {
    var p :- RawPeriod(sel);
    Ok(SelectReadings(s, p))
  }

  /** The slice an hourly view works on: the hourly table filtered by the
      selector's period, or the whole table when the guard fails. */
  function HourlySlice(t: seq<HourRow>, sel: Selector, c: Consumer): (r: Result<seq<HourRow>, Fault>)
    ensures r.Err? <==> HourlyPeriod(sel, c).Err?
  {
    var p :- HourlyPeriod(sel, c);
    Ok(if p.None? then t else SelectHours(t, p.value))
  }

  /** A raw slice is the table's readings with a valid timestamp in the
      selected period, each as often as in the table and in table order:
      cutting the table anywhere, the slice of the part before the cut comes
      first. */
  lemma RawSliceInPeriod(s: seq<Reading>, sel: Selector)
    requires RawSlice(s, sel).Ok?
    ensures forall x :: x in RawSlice(s, sel).value <==>
      x in s && TimeOf(x).Some? && InPeriod(TimeOf(x).value, RawPeriod(sel).value)
    ensures forall x :: multiset(RawSlice(s, sel).value)[x] ==
                       if TimeOf(x).Some? && InPeriod(TimeOf(x).value, RawPeriod(sel).value) then multiset(s)[x] else 0
    ensures forall k :: 0 <= k <= |s| ==>
      RawSlice(s, sel).value == RawSlice(s[..k], sel).value + RawSlice(s[k..], sel).value
  {
    var p := RawPeriod(sel).value;
    SelectReadingsCounts(s, p);
    forall k | 0 <= k <= |s|
      ensures RawSlice(s, sel).value == RawSlice(s[..k], sel).value + RawSlice(s[k..], sel).value
    {
      assert s[..k] + s[k..] == s;
      SelectReadingsSplits(s[..k], s[k..], p);
    }
  }

  /** Filtering by a wider period first does not change a narrower slice. */
  lemma {:induction false} SelectReadingsNarrows(s: seq<Reading>, q: Period, p: Period)
    requires Within(q, p)
    ensures SelectReadings(SelectReadings(s, p), q) == SelectReadings(s, q)
    decreases |s|
  {
    if |s| > 0 {
      var init := s[..|s| - 1];
      var last := s[|s| - 1];
      SelectReadingsNarrows(init, q, p);
      if TimeOf(last).Some? && InPeriod(TimeOf(last).value, q) {
        WithinContains(TimeOf(last).value, q, p);
      }
      var inP := if TimeOf(last).Some? && InPeriod(TimeOf(last).value, p) then [last] else [];
      SelectReadingsAppend(SelectReadings(init, p), inP, q);
    }
  }

  lemma SelectReadingsAppend(a: seq<Reading>, b: seq<Reading>, q: Period)
    requires |b| <= 1
    ensures SelectReadings(a + b, q) == SelectReadings(a, q) + SelectReadings(b, q)
  {
    if |b| == 1 {
      assert (a + b)[..|a + b| - 1] == a;
      assert b[..0] == [];
    } else {
      assert a + b == a;
    }
  }

  /** Likewise for the hourly table. */
  lemma {:induction false} SelectHoursNarrows(t: seq<HourRow>, q: Period, p: Period)
    requires Within(q, p)
    ensures SelectHours(SelectHours(t, p), q) == SelectHours(t, q)
    decreases |t|
  {
    if |t| > 0 {
      var init := t[..|t| - 1];
      var last := t[|t| - 1];
      SelectHoursNarrows(init, q, p);
      if InPeriod(Stamp(last), q) {
        WithinContains(Stamp(last), q, p);
      }
      var inP := if InPeriod(Stamp(last), p) then [last] else [];
      SelectHoursAppend(SelectHours(init, p), inP, q);
    }
  }

  lemma SelectHoursAppend(a: seq<HourRow>, b: seq<HourRow>, q: Period)
    requires |b| <= 1
    ensures SelectHours(a + b, q) == SelectHours(a, q) + SelectHours(b, q)
  {
    if |b| == 1 {
      assert (a + b)[..|a + b| - 1] == a;
      assert b[..0] == [];
    } else {
      assert a + b == a;
    }
  }

  /** Filtering a slice again by a period that contains its own changes
      nothing; with q == p this is the idempotence of re-selecting a period. */
  lemma {:induction false} SelectReadingsWidens(s: seq<Reading>, q: Period, p: Period)
    requires Within(q, p)
    ensures SelectReadings(SelectReadings(s, q), p) == SelectReadings(s, q)
    decreases |s|
  {
    if |s| > 0 {
      var init := s[..|s| - 1];
      var last := s[|s| - 1];
      SelectReadingsWidens(init, q, p);
      var inQ := if TimeOf(last).Some? && InPeriod(TimeOf(last).value, q) then [last] else [];
      if inQ != [] {
        WithinContains(TimeOf(last).value, q, p);
        assert inQ[..0] == [];
      }
      SelectReadingsAppend(SelectReadings(init, q), inQ, p);
    }
  }

  /** Likewise for the hourly table. */
  lemma {:induction false} SelectHoursWidens(t: seq<HourRow>, q: Period, p: Period)
    requires Within(q, p)
    ensures SelectHours(SelectHours(t, q), p) == SelectHours(t, q)
    decreases |t|
  {
    if |t| > 0 {
      var init := t[..|t| - 1];
      var last := t[|t| - 1];
      SelectHoursWidens(init, q, p);
      var inQ := if InPeriod(Stamp(last), q) then [last] else [];
      if inQ != [] {
        WithinContains(Stamp(last), q, p);
        assert inQ[..0] == [];
      }
      SelectHoursAppend(SelectHours(init, q), inQ, p);
    }
  }

  /** For one calendar date the day slice lies in the month slice, which lies
      in the year slice: each is the wider one filtered again. */
  lemma SlicesNest(s: seq<Reading>, d: Date)
    ensures var day := SelectReadings(s, OnDay(d));
      var month := SelectReadings(s, InMonth(d.year, d.month));
      var year := SelectReadings(s, InYear(d.year));
      && day == SelectReadings(month, OnDay(d))
      && month == SelectReadings(year, InMonth(d.year, d.month))
      && (forall x :: x in day ==> x in month)
      && (forall x :: x in month ==> x in year)
  {
    SelectReadingsNarrows(s, OnDay(d), InMonth(d.year, d.month));
    SelectReadingsNarrows(s, InMonth(d.year, d.month), InYear(d.year));
  }

  /** The same nesting for the hourly table. */
  lemma HourSlicesNest(t: seq<HourRow>, d: Date)
    ensures var day := SelectHours(t, OnDay(d));
      var month := SelectHours(t, InMonth(d.year, d.month));
      var year := SelectHours(t, InYear(d.year));
      && day == SelectHours(month, OnDay(d))
      && month == SelectHours(year, InMonth(d.year, d.month))
      && (forall x :: x in day ==> x in month)
      && (forall x :: x in month ==> x in year)
  {
    SelectHoursNarrows(t, OnDay(d), InMonth(d.year, d.month));
    SelectHoursNarrows(t, InMonth(d.year, d.month), InYear(d.year));
  }

  /** A failed guard leaves the hourly table unfiltered. */
  lemma GuardFallback(t: seq<HourRow>, sel: Selector, c: Consumer)
    requires match sel.agg
      case D => sel.day.None?
      case M => sel.month.None?
      case Y => !YearGuard(sel, c)
    ensures HourlySlice(t, sel, c) == Ok(t)
  {
  }

  /** The year branch quirk: with a year chosen but no month date, the rose
      and the solar map show the whole table while the humidity gauge shows
      the chosen year, or raises when the year string does not parse; with a
      month date but no year, the rose and the solar map raise while the
      humidity gauge shows the whole table. */
  lemma YearGuardQuirk(t: seq<HourRow>, day: Option<Date>, y: int, m: Date)
    ensures var sel := Selector(Y, day, None, Some(y));
      && HourlySlice(t, sel, WindRose) == Ok(t)
      && HourlySlice(t, sel, SolarMap) == Ok(t)
      && HourlySlice(t, sel, HumidityGauge) ==
        (if YearParses(y) then Ok(SelectHours(t, InYear(y))) else Err(Unparsable))
    ensures var sel := Selector(Y, day, Some(m), None);
      && HourlySlice(t, sel, WindRose) == Err(MissingReference)
      && HourlySlice(t, sel, SolarMap) == Err(MissingReference)
      && HourlySlice(t, sel, HumidityGauge) == Ok(t)
  {
  }

  /** When all three references are set to values the pickers can produce,
      every hourly view filters by the same period as the temperature view. */
  lemma ViewsAgreeWhenAllSet(t: seq<HourRow>, sel: Selector, c: Consumer)
    requires sel.day.Some? && sel.month.Some? && sel.year.Some?
    requires Parses(sel.day.value) && Parses(sel.month.value) && YearParses(sel.year.value)
    ensures RawPeriod(sel).Ok?
    ensures HourlySlice(t, sel, c) == Ok(SelectHours(t, RawPeriod(sel).value))
  {
  }
}
