/** The temperature and precipitation view: the raw slice of the selected
    period, plotted as is for a day, re-sampled to days for a month and to
    month ends for a year (mean air temperature, summed rain), with a fixed
    axis range per granularity. */
module TempPrecip {
  import opened Wrappers
  import opened Calendar
  import opened Stats
  import opened Readings
  import opened Resampling
  import opened Periods

  datatype AxisRange = AxisRange(lo: int, hi: int)

  /** What the chart plots: the raw readings of a day, or the buckets of a
      month (by day) or of a year (by month end). */
  datatype Series = Raw(readings: seq<Reading>) | Resampled(unit: Unit, buckets: seq<Group>)

  /** The chart: its series and the ranges of the temperature axis and of the
      precipitation axis. */
  datatype Chart = Chart(series: Series, temperature: AxisRange, precipitation: AxisRange)

  /** The fixed axis ranges of each granularity: the temperature axis is
      always [-10, 35]; the precipitation axis is [-10, 35] for a day,
      [-20, 70] for a month and [-10, 100] for a year. */
  function AxisRanges(g: Granularity): (r: (AxisRange, AxisRange))
    ensures r.0 == AxisRange(-10, 35)
    ensures r.1.lo < 0 < r.1.hi
    ensures g == D ==> r.1 == r.0
    ensures g == M ==> r.1 == AxisRange(-20, 70)
    ensures g == Y ==> r.1 == AxisRange(-10, 100)
  {
    match g
    case D => (AxisRange(-10, 35), AxisRange(-10, 35))
    case M => (AxisRange(-10, 35), AxisRange(-20, 70))
    case Y => (AxisRange(-10, 35), AxisRange(-10, 100))
  }

  /** The temperature line of a series: the raw values, or each bucket's mean. */
  function Temperatures(c: Series): seq<Option<real>>
  {
    match c
    case Raw(r) => Column(r, AirTemp)
    case Resampled(_, gs) => AggColumn(gs, AirTemp, Mean)
  }

  /** The rain bars of a series: the raw values, or each bucket's sum. */
  function Rains(c: Series): seq<Option<real>>
  {
    match c
    case Raw(r) => Column(r, RainAvg)
    case Resampled(_, gs) => AggColumn(gs, RainAvg, Sum)
  }

  /** The series the view plots for a slice: the slice itself for a day, its
      daily buckets for a month and its month-end buckets for a year. */
  function SeriesOf(slice: seq<Reading>, g: Granularity): Series
  {
    match g
    case D => Raw(slice)
    case M => Resampled(Daily, Resample(slice, Daily))
    case Y => Resampled(Monthly, Resample(slice, Monthly))
  }

  /** The chart of the temperature view for a selector; a missing reference of
      the active tag raises, and so does a day or month date that does not
      parse. */
  function TempPrecipChart(s: seq<Reading>, sel: Selector): (r: Result<Chart, Fault>)
    ensures r.Err? <==> match sel.agg
      case D => sel.day.None? || !Parses(sel.day.value)
      case M => sel.month.None? || !Parses(sel.month.value)
      case Y => sel.year.None?
    ensures r.Ok? ==> (r.value.temperature, r.value.precipitation) == AxisRanges(sel.agg)
    ensures r.Ok? ==> (r.value.series.Raw? <==> sel.agg == D)
    ensures r.Ok? && r.value.series.Raw? ==> r.value.series.readings == RawSlice(s, sel).value
    ensures r.Ok? && r.value.series.Raw? ==> forall x :: x in r.value.series.readings <==>
      x in s && TimeOf(x).Some? && TimeOf(x).value.date == sel.day.value
    ensures r.Ok? && r.value.series.Resampled? ==>
      && r.value.series.unit == (if sel.agg == M then Daily else Monthly)
      && r.value.series.buckets == Resample(RawSlice(s, sel).value, r.value.series.unit)
  {
    var slice :- RawSlice(s, sel);
    var ranges := AxisRanges(sel.agg);
    Ok(Chart(SeriesOf(slice, sel.agg), ranges.0, ranges.1))
  }

  predicate AllTimed(s: seq<Reading>) {
    forall i :: 0 <= i < |s| ==> TimeOf(s[i]).Some?
  }

  lemma {:induction false} TimedAll(s: seq<Reading>)
    requires AllTimed(s)
    ensures Timed(s) == s
    decreases |s|
  {
    if |s| > 0 {
      var init := s[..|s| - 1];
      var last := s[|s| - 1];
      assert AllTimed(init) by {
        forall i | 0 <= i < |init|
          ensures TimeOf(init[i]).Some?
        {
          assert init[i] == s[i];
        }
      }
      TimedAll(init);
      assert TimeOf(last).Some?;
      assert Timed(s) == Timed(init) + [last];
      assert init + [last] == s;
    }
  }

  /** Every chart the temperature view draws carries exactly the rainfall of
      its slice, whatever the granularity: the bucket sums of a month or a year
      add up to the slice's non-missing rain. */
  lemma ChartConservesRain(s: seq<Reading>, sel: Selector)
    requires RawSlice(s, sel).Ok?
    ensures var slice := RawSlice(s, sel).value;
      SumPresent(Rains(TempPrecipChart(s, sel).value.series)) == SumPresent(Column(slice, RainAvg))
  {
    var slice := RawSlice(s, sel).value;
    assert AllTimed(slice) by {
      assert forall i :: 0 <= i < |slice| ==> slice[i] in slice;
    }
    TimedAll(slice);
    match sel.agg
    case D =>
    case M =>
      ResampleConservesSum(slice, Daily, RainAvg);
    case Y =>
      ResampleConservesSum(slice, Monthly, RainAvg);
  }

  /** Bucket `i` of a month or year chart is the `i`-th consecutive bucket
      from the slice's first one and holds exactly the readings pandas labels
      with its label; its temperature is missing exactly when none of them
      has one, and otherwise lies between their least and greatest
      temperature. */
  lemma ResampledBucket(slice: seq<Reading>, u: Unit, i: int)
    requires 0 <= i < |Resample(slice, u)|
    ensures var gs := Resample(slice, u);
      var members := Labelled(slice, u, Label(gs[i].key, u));
      var temps := Column(members, AirTemp);
      var t := Temperatures(Resampled(u, gs))[i];
      && gs[i].key == gs[0].key + i
      && gs[i].members == members
      && (t.None? <==> forall j :: 0 <= j < |temps| ==> temps[j].None?)
      && (t.Some? ==> MinPresent(temps).value <= t.value <= MaxPresent(temps).value)
  {
    var gs := Resample(slice, u);
    ResampleRows(slice, u);
    BucketGroupIsLabelled(slice, u, gs[i]);
    MeanWithinMembers(gs[i], AirTemp);
  }
}
