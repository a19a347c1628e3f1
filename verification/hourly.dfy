/** The hourly table: `df.resample("h").agg(...)` over the station readings,
    followed by the wrap of the wind direction into [0, 360). */
module Hourly {
  import opened Wrappers
  import opened Calendar
  import opened Stats
  import opened Readings
  import opened Resampling

  /** What `np.degrees(np.arctan2(...))` can return for a non-empty hour. */
  type Angle = a: real | -180.0 <= a <= 180.0

  /** Python's float `% 360`: the remainder takes the sign of the divisor. */
  function Mod360(x: real): real {
    x - 360.0 * ((x / 360.0).Floor as real)
  }

  /** `(a + 360) % 360` for an angle from arctan2: the direction lands in
      [0, 360), unchanged when it was already non-negative, and shifted by a
      full turn otherwise. */
  function WrapDirection(a: Angle): (d: real)
    ensures 0.0 <= d < 360.0
    ensures a >= 0.0 ==> d == a
    ensures a < 0.0 ==> d == a + 360.0
  {
    Mod360(a + 360.0)
  }

  /** The hour's wind direction: the circular mean `circ` of the non-missing
      directions, wrapped; missing when the hour has no direction at all. */
  function MeanDirection(circ: seq<real> -> Angle, dirs: seq<Option<real>>): (d: Option<real>)
    ensures d.None? <==> CountPresent(dirs) == 0
    ensures d.Some? ==> 0.0 <= d.value < 360.0
    ensures d.Some? && circ(Present(dirs)) >= 0.0 ==> d.value == circ(Present(dirs))
    ensures d.Some? && circ(Present(dirs)) < 0.0 ==> d.value == circ(Present(dirs)) + 360.0
  {
    var ds := Present(dirs);
    if |ds| == 0 then None else Some(WrapDirection(circ(ds)))
  }

  /** One row of the hourly table: the hour's ordinal and the readings that
      fall in it. The row's columns are computed from the readings by
      HourValue, following the aggregation map of the resampler. */
  type HourRow = Group

  /** The row's index in the hourly frame: the full hour it stands for. */
  function Stamp(row: HourRow): (t: Timestamp)
    ensures ValidTimestamp(t) && Key(t, Hourly) == row.key
    ensures t.minute == 0 && t.second == 0
  {
    Label(row.key, Hourly)
  }

  /** Column `f` of an hourly row: RECORD is counted, the wind direction is the
      wrapped circular mean, the two rain columns are summed and every other
      column is averaged. */
  function HourValue(row: HourRow, f: Field, circ: seq<real> -> Angle): Option<real> {
    if f == WindDir then MeanDirection(circ, Column(row.members, WindDir))
    else Aggregate(row, f, HourlyAgg(f))
  }

  /** The aggregation map of the hourly resampler, for every column but the
      wind direction. */
  function HourlyAgg(f: Field): Agg {
    match f
    case Record => Count
    case RainAvg => Sum
    case RainTotal => Sum
    case _ => Mean
  }

  /** A column of the hourly table. */
  function HourColumn(t: seq<HourRow>, f: Field, circ: seq<real> -> Angle): (c: seq<Option<real>>)
    ensures |c| == |t|
    ensures forall i :: 0 <= i < |t| ==> c[i] == HourValue(t[i], f, circ)
  {
    seq(|t|, i requires 0 <= i < |t| => HourValue(t[i], f, circ))
  }

  /** Every column but the direction is the resampler's aggregate column. */
  lemma HourColumnIsAggregate(t: seq<HourRow>, f: Field, circ: seq<real> -> Angle)
    requires f != WindDir
    ensures HourColumn(t, f, circ) == AggColumn(t, f, HourlyAgg(f))
  {
  }

  /** The hourly table: `resample("h")` of the station table, one row for
      every hour from the first to the last hour holding a reading with a
      valid timestamp, gap hours included. */
  function HourlyTable(s: seq<Reading>): seq<HourRow> {
    Resample(s, Hourly)
  }

  /** The table is empty exactly when no reading has a valid timestamp; its
      rows are consecutive hours, and the first and last rows are hours that
      hold readings. */
  lemma HourlyTableIsHourAxis(s: seq<Reading>)
    ensures var t := HourlyTable(s);
      && (|t| == 0 <==> forall j :: 0 <= j < |s| ==> TimeOf(s[j]).None?)
      && (forall i :: 0 <= i < |t| - 1 ==> t[i + 1].key == t[i].key + 1)
      && (|t| > 0 ==> Attains(s, Hourly, t[0].key) && Attains(s, Hourly, t[|t| - 1].key))
  {
    ResampleEmptyIff(s, Hourly);
    ResampleRows(s, Hourly);
  }

  /** Every reading with a valid timestamp has its hour in the table. */
  lemma HourlyTableCoversReadings(s: seq<Reading>, j: int)
    requires 0 <= j < |s| && TimeOf(s[j]).Some?
    ensures var t := HourlyTable(s);
      exists i :: 0 <= i < |t| && Stamp(t[i]) == Floor(TimeOf(s[j]).value, Hourly)
  {
    var t := HourlyTable(s);
    ResampleEmptyIff(s, Hourly);
    ResampleRows(s, Hourly);
    var lo := t[0].key;
    var k := Key(TimeOf(s[j]).value, Hourly);
    assert BucketKey(s[j], Hourly) == Some(k);
    assert lo <= k <= t[|t| - 1].key;
    LabelOfKey(TimeOf(s[j]).value, Hourly);
    assert t[k - lo].key == k;
  }

  /** The table ends with the last reading: no row falls on a day later than
      every reading's date. */
  lemma NoRowAfterData(s: seq<Reading>, d: Date)
    requires ValidDate(d)
    requires forall j :: 0 <= j < |s| && TimeOf(s[j]).Some? ==> DayOrd(TimeOf(s[j]).value.date) < DayOrd(d)
    ensures forall i :: 0 <= i < |HourlyTable(s)| ==> Stamp(HourlyTable(s)[i]).date != d
  {
    var t := HourlyTable(s);
    if |t| > 0 {
      ResampleRows(s, Hourly);
      var hi := t[|t| - 1].key;
      assert Attains(s, Hourly, hi);
      var j :| 0 <= j < |s| && BucketKey(s[j], Hourly) == Some(hi);
      var last := TimeOf(s[j]).value;
      assert hi == DayOrd(last.date) * 24 + last.hour;
      forall i | 0 <= i < |t|
        ensures Stamp(t[i]).date != d
      {
        var st := Stamp(t[i]);
        assert t[i].key <= hi;
        assert DayOrd(st.date) * 24 + st.hour == t[i].key;
        assert DayOrd(st.date) <= DayOrd(last.date);
      }
    }
  }

  /** Row `i` holds exactly the readings whose timestamp floors to its hour. */
  lemma HourlyRowIsItsHour(s: seq<Reading>, i: int)
    requires 0 <= i < |HourlyTable(s)|
    ensures HourlyTable(s)[i].members == Labelled(s, Hourly, Stamp(HourlyTable(s)[i]))
  {
    ResampleRows(s, Hourly);
    BucketGroupIsLabelled(s, Hourly, HourlyTable(s)[i]);
  }

  /** An hour's RECORD is the number of non-missing RECORD values among the
      readings whose timestamp floors to that hour. */
  lemma HourRecordCount(s: seq<Reading>, i: int, circ: seq<real> -> Angle)
    requires 0 <= i < |HourlyTable(s)|
    ensures var row := HourlyTable(s)[i];
      HourValue(row, Record, circ) == Some(CountPresent(Column(Labelled(s, Hourly, Stamp(row)), Record)) as real)
  {
    HourlyRowIsItsHour(s, i);
  }

  /** A gap hour (no reading floors to it) has count 0, rain sums 0 and
      missing means and direction. */
  lemma GapHourIsEmpty(row: HourRow, circ: seq<real> -> Angle, f: Field)
    requires row.members == []
    ensures f == Record || f == RainAvg || f == RainTotal ==> HourValue(row, f, circ) == Some(0.0)
    ensures f != Record && f != RainAvg && f != RainTotal ==> HourValue(row, f, circ).None?
  {
    assert Column(row.members, f) == [];
  }

  /** An hour's mean of a column lies between the least and the greatest
      reading of that column in the hour; it is missing exactly when the hour
      has no such reading. */
  lemma HourMeanWithinReadings(row: HourRow, circ: seq<real> -> Angle, f: Field)
    requires f !in {Record, WindDir, RainAvg, RainTotal}
    ensures var c := Column(row.members, f);
      && (HourValue(row, f, circ).None? <==> forall j :: 0 <= j < |c| ==> c[j].None?)
      && (HourValue(row, f, circ).Some? ==>
            MinPresent(c).value <= HourValue(row, f, circ).value <= MaxPresent(c).value)
  {
    MeanWithinMembers(row, f);
  }

  /** Hourly aggregation conserves rainfall and the RECORD count: the table's
      rain sums and RECORD counts add up to the corresponding totals over all
      readings with a valid timestamp. */
  lemma HourlyTableConserves(s: seq<Reading>, circ: seq<real> -> Angle)
    ensures var t := HourlyTable(s);
      && SumPresent(HourColumn(t, RainAvg, circ)) == SumPresent(Column(Timed(s), RainAvg))
      && SumPresent(HourColumn(t, RainTotal, circ)) == SumPresent(Column(Timed(s), RainTotal))
      && SumPresent(HourColumn(t, Record, circ)) == CountPresent(Column(Timed(s), Record)) as real
  {
    RainConserved(s, RainAvg, circ);
    RainConserved(s, RainTotal, circ);
    RecordConserved(s, circ);
  }

  lemma RainConserved(s: seq<Reading>, f: Field, circ: seq<real> -> Angle)
    requires f == RainAvg || f == RainTotal
    ensures SumPresent(HourColumn(HourlyTable(s), f, circ)) == SumPresent(Column(Timed(s), f))
  {
    HourColumnIsAggregate(HourlyTable(s), f, circ);
    ResampleConservesSum(s, Hourly, f);
  }

  lemma RecordConserved(s: seq<Reading>, circ: seq<real> -> Angle)
    ensures SumPresent(HourColumn(HourlyTable(s), Record, circ)) == CountPresent(Column(Timed(s), Record)) as real
  {
    HourColumnIsAggregate(HourlyTable(s), Record, circ);
    ResampleConservesCount(s, Hourly, Record);
  }
}
