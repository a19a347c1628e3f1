/** The relative-humidity gauge: the least and the greatest hourly mean
    humidity of the selected slice, drawn as two bars over a 0-100 % scale. */
module HumidityGauge {
  import opened Wrappers
  import opened Calendar
  import opened Stats
  import opened Readings
  import opened Resampling
  import opened Hourly
  import opened Periods

  /** What the gauge shows: the "no data" annotation, or the two bars (each
      missing when the slice has no humidity value at all). */
  datatype Gauge = NoHumidityData | Gauge(min: Option<real>, max: Option<real>)

  /** The `RH_Avg` column of hourly rows. */
  function HumidityColumn(t: seq<HourRow>): (c: seq<Option<real>>)
    ensures |c| == |t|
    ensures forall i :: 0 <= i < |t| ==> c[i] == Aggregate(t[i], Humidity, Mean)
  {
    AggColumn(t, Humidity, Mean)
  }

  /** The bars of a non-empty slice: `min()` and `max()` of its humidity,
      skipping missing hours. */
  function Extremes(t: seq<HourRow>): (g: Gauge)
    ensures g.Gauge?
    ensures g.min.None? <==> CountPresent(HumidityColumn(t)) == 0
    ensures g.max.None? <==> CountPresent(HumidityColumn(t)) == 0
  {
    var c := HumidityColumn(t);
    Gauge(MinPresent(c), MaxPresent(c))
  }

  /** The gauge callback as written: for an empty slice it builds the
      annotated figure but returns `fig_RH`, which that branch never binds,
      so the call raises. */
  function HumidityViewAsWritten(s: seq<Reading>, sel: Selector): (r: Result<Gauge, Fault>)
    ensures HourlySlice(HourlyTable(s), sel, HumidityGauge).Err? ==> r == Err(Unparsable)
    ensures HourlySlice(HourlyTable(s), sel, HumidityGauge).Ok? ==>
      (r.Err? <==> |HourlySlice(HourlyTable(s), sel, HumidityGauge).value| == 0)
    ensures HourlySlice(HourlyTable(s), sel, HumidityGauge).Ok? && r.Err? ==> r.error == UnboundFigure
    ensures r.Ok? ==> r.value == Extremes(HourlySlice(HourlyTable(s), sel, HumidityGauge).value)
  {
    var t :- HourlySlice(HourlyTable(s), sel, HumidityGauge);
    if |t| == 0 then Err(UnboundFigure) else Ok(Extremes(t))
  }

  /** The gauge callback returning the annotated figure it builds for an
      empty slice. Its year branch tests the year itself, so it raises only
      when the active reference does not parse. */
  function HumidityView(s: seq<Reading>, sel: Selector): (r: Result<Gauge, Fault>)
    ensures r.Err? <==> HourlySlice(HourlyTable(s), sel, HumidityGauge).Err?
    ensures r.Err? ==> r.error == Unparsable
    ensures r.Ok? ==> (r.value.NoHumidityData? <==> |HourlySlice(HourlyTable(s), sel, HumidityGauge).value| == 0)
    ensures r.Ok? && r.value.Gauge? ==> r.value == Extremes(HourlySlice(HourlyTable(s), sel, HumidityGauge).value)
  {
    match HumidityViewAsWritten(s, sel)
    case Err(UnboundFigure) => Ok(NoHumidityData)
    case other => other
  }

  /** A day without hourly rows shows the discrepancy, whatever the month
      picker and the year dropdown hold: the gauge as written raises where
      the corrected one shows the annotation. */
  lemma EmptyDayRaises(s: seq<Reading>, sel: Selector)
    requires sel.agg == D && sel.day.Some? && Parses(sel.day.value)
    requires forall i :: 0 <= i < |HourlyTable(s)| ==> Stamp(HourlyTable(s)[i]).date != sel.day.value
    ensures HumidityViewAsWritten(s, sel) == Err(UnboundFigure)
    ensures HumidityView(s, sel) == Ok(NoHumidityData)
  {
    SelectHoursEmptyIff(HourlyTable(s), OnDay(sel.day.value));
  }

  /** The input that reaches that branch: a station table with readings and
      a day after the last of them, which the day picker's upper bound keeps
      out of the interface but the callback itself accepts. */
  lemma DayAfterDataRaises(s: seq<Reading>, sel: Selector)
    requires sel.agg == D && sel.day.Some? && Parses(sel.day.value)
    requires exists j :: 0 <= j < |s| && TimeOf(s[j]).Some?
    requires forall j :: 0 <= j < |s| && TimeOf(s[j]).Some? ==> DayOrd(TimeOf(s[j]).value.date) < DayOrd(sel.day.value)
    ensures |HourlyTable(s)| > 0
    ensures HumidityViewAsWritten(s, sel) == Err(UnboundFigure)
    ensures HumidityView(s, sel) == Ok(NoHumidityData)
  {
    ResampleEmptyIff(s, Hourly);
    NoRowAfterData(s, sel.day.value);
    EmptyDayRaises(s, sel);
  }

  /** The bars are the least and the greatest humidity of the slice: both
      are values of some hour, every hour's humidity lies between them, and
      the least is not above the greatest. */
  lemma ExtremesBound(t: seq<HourRow>)
    requires CountPresent(HumidityColumn(t)) > 0
    ensures var g := Extremes(t);
      && g.min.Some? && g.max.Some?
      && g.min.value <= g.max.value
      && (exists i :: 0 <= i < |t| && HumidityColumn(t)[i] == g.min)
      && (exists i :: 0 <= i < |t| && HumidityColumn(t)[i] == g.max)
      && forall i :: 0 <= i < |t| && HumidityColumn(t)[i].Some? ==>
           g.min.value <= HumidityColumn(t)[i].value <= g.max.value
  {
    var c := HumidityColumn(t);
    assert MinPresent(c).Some? && MaxPresent(c).Some?;
    var i :| 0 <= i < |c| && c[i] == MinPresent(c);
  }

  /** Narrowing the slice narrows the bars: the extremes of rows taken from
      a wider slice lie within the wider slice's extremes. */
  lemma ExtremesNarrow(t: seq<HourRow>, u: seq<HourRow>)
    requires forall row :: row in t ==> row in u
    requires CountPresent(HumidityColumn(t)) > 0
    ensures var gt := Extremes(t);
      var gu := Extremes(u);
      && gu.min.Some? && gu.max.Some?
      && gu.min.value <= gt.min.value
      && gt.max.value <= gu.max.value
  {
    var ct := HumidityColumn(t);
    var cu := HumidityColumn(u);
    var a :| 0 <= a < |ct| && ct[a] == MinPresent(ct);
    var b :| 0 <= b < |ct| && ct[b] == MaxPresent(ct);
    assert t[a] in t && t[b] in t;
    var ka :| 0 <= ka < |u| && u[ka] == t[a];
    var kb :| 0 <= kb < |u| && u[kb] == t[b];
    assert cu[ka] == ct[a] && cu[kb] == ct[b];
    CountZeroIffAllMissing(cu);
  }

  /** For one date, the day's bars lie within the month's, and the month's
      within the year's. */
  lemma GaugesNest(t: seq<HourRow>, d: Date)
    requires CountPresent(HumidityColumn(SelectHours(t, OnDay(d)))) > 0
    ensures var day := Extremes(SelectHours(t, OnDay(d)));
      var month := Extremes(SelectHours(t, InMonth(d.year, d.month)));
      var year := Extremes(SelectHours(t, InYear(d.year)));
      && day.min.Some? && day.max.Some? && month.min.Some? && month.max.Some? && year.min.Some? && year.max.Some?
      && year.min.value <= month.min.value <= day.min.value
      && day.max.value <= month.max.value <= year.max.value
  {
    var day := SelectHours(t, OnDay(d));
    var month := SelectHours(t, InMonth(d.year, d.month));
    var year := SelectHours(t, InYear(d.year));
    HourSlicesNest(t, d);
    ExtremesNarrow(day, month);
    ExtremesNarrow(month, year);
  }
}
