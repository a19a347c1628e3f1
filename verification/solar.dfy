/** The solar irradiance heat map: the hourly mean irradiance of the selected
    slice pivoted into hour-of-day rows and day-of-month (or month, for a
    year) columns, coloured on the range of the whole hourly table. */
module SolarHeatmap {
  import opened Wrappers
  import opened Calendar
  import opened Stats
  import opened Readings
  import opened Resampling
  import opened Hourly
  import opened Periods

  /** An hour's mean irradiance: the `SlrkW_Avg` column of the hourly table. */
  function SolarOf(row: HourRow): Option<real> {
    Aggregate(row, Solar, Mean)
  }

  function SolarColumn(t: seq<HourRow>): (c: seq<Option<real>>)
    ensures |c| == |t|
    ensures forall i :: 0 <= i < |t| ==> c[i] == SolarOf(t[i])
  {
    seq(|t|, i requires 0 <= i < |t| => SolarOf(t[i]))
  }

  /** The pivot's row key: the hour of the row's timestamp, read off the
      hour ordinal. */
  function HourOf(row: HourRow): (h: nat)
    ensures h < 24
  {
    row.key % 24
  }

  /** One more than the largest column key: days run 1..31, months 1..12. */
  function ColumnLimit(g: Granularity): nat {
    if g == Y then 13 else 32
  }

  /** The pivot's column key: the month for a year, the day of the month
      otherwise (also when the slice spans several months). */
  function ColOf(row: HourRow, g: Granularity): (c: nat)
    ensures 1 <= c < ColumnLimit(g)
  {
    var d := DateOfDayOrd(row.key / 24);
    if g == Y then d.month else d.day
  }

  /** The keys are the fields of the row's timestamp. */
  lemma KeysOfStamp(row: HourRow, g: Granularity)
    ensures HourOf(row) == Stamp(row).hour
    ensures ColOf(row, g) == if g == Y then Stamp(row).date.month else Stamp(row).date.day
  {
  }

  /** The irradiance values of the rows at hour `h` in column `c`, in order. */
  function CellValues(t: seq<HourRow>, g: Granularity, h: nat, c: nat): seq<Option<real>>
    decreases |t|
  {
    if |t| == 0 then []
    else
      var last := t[|t| - 1];
      CellValues(t[..|t| - 1], g, h, c) + (if HourOf(last) == h && ColOf(last, g) == c then [SolarOf(last)] else [])
  }

  /** Every value of a cell comes from a row at its hour and column. */
  lemma {:induction false} CellValuesSound(t: seq<HourRow>, g: Granularity, h: nat, c: nat)
    ensures forall v :: v in CellValues(t, g, h, c) ==>
      exists i :: 0 <= i < |t| && HourOf(t[i]) == h && ColOf(t[i], g) == c && SolarOf(t[i]) == v
    decreases |t|
  {
    if |t| > 0 {
      var init := t[..|t| - 1];
      CellValuesSound(init, g, h, c);
      forall v | v in CellValues(t, g, h, c)
        ensures exists i :: 0 <= i < |t| && HourOf(t[i]) == h && ColOf(t[i], g) == c && SolarOf(t[i]) == v
      {
        if v in CellValues(init, g, h, c) {
          var i :| 0 <= i < |init| && HourOf(init[i]) == h && ColOf(init[i], g) == c && SolarOf(init[i]) == v;
          assert t[i] == init[i];
        } else {
          assert HourOf(t[|t| - 1]) == h && ColOf(t[|t| - 1], g) == c && SolarOf(t[|t| - 1]) == v;
        }
      }
    }
  }

  /** Every row at a cell's hour and column contributes its value. */
  lemma {:induction false} CellValuesComplete(t: seq<HourRow>, g: Granularity, h: nat, c: nat)
    ensures forall i :: 0 <= i < |t| && HourOf(t[i]) == h && ColOf(t[i], g) == c ==> SolarOf(t[i]) in CellValues(t, g, h, c)
    decreases |t|
  {
    if |t| > 0 {
      var init := t[..|t| - 1];
      CellValuesComplete(init, g, h, c);
      forall i | 0 <= i < |init| && HourOf(t[i]) == h && ColOf(t[i], g) == c
        ensures SolarOf(t[i]) in CellValues(t, g, h, c)
      {
        assert init[i] == t[i];
      }
    }
  }

  /** A cell holds exactly the values of the rows at its hour and column. */
  lemma CellValuesMembers(t: seq<HourRow>, g: Granularity, h: nat, c: nat)
    ensures forall v :: v in CellValues(t, g, h, c) ==>
      exists i :: 0 <= i < |t| && HourOf(t[i]) == h && ColOf(t[i], g) == c && SolarOf(t[i]) == v
    ensures forall i :: 0 <= i < |t| && HourOf(t[i]) == h && ColOf(t[i], g) == c ==> SolarOf(t[i]) in CellValues(t, g, h, c)
  {
    CellValuesSound(t, g, h, c);
    CellValuesComplete(t, g, h, c);
  }

  lemma CellValuesAppend(a: seq<HourRow>, row: HourRow, g: Granularity, h: nat, c: nat)
    ensures CellValues(a + [row], g, h, c) == CellValues(a, g, h, c) + CellValues([row], g, h, c)
  {
    assert (a + [row])[..|a + [row]| - 1] == a;
    assert [row][..0] == [];
  }

  /** A cell takes each row at its hour and column once, in table order: the
      cell of two consecutive stretches of the table is the first stretch's
      values followed by the second's. So a value repeated in the slice is
      repeated in the cell, and weighs that much in the cell's mean. */
  lemma {:induction false} CellValuesSplits(a: seq<HourRow>, b: seq<HourRow>, g: Granularity, h: nat, c: nat)
    ensures CellValues(a + b, g, h, c) == CellValues(a, g, h, c) + CellValues(b, g, h, c)
    decreases |b|
  {
    if |b| == 0 {
      assert a + b == a;
    } else {
      var init := b[..|b| - 1];
      var last := b[|b| - 1];
      assert a + b == (a + init) + [last];
      assert b == init + [last];
      CellValuesAppend(a + init, last, g, h, c);
      CellValuesAppend(init, last, g, h, c);
      CellValuesSplits(a, init, g, h, c);
      ConcatAssociates(CellValues(a, g, h, c), CellValues(init, g, h, c), CellValues([last], g, h, c));
    }
  }

  /** Some row at hour `h` in column `c` has an irradiance value. */
  predicate Observed(t: seq<HourRow>, g: Granularity, h: nat, c: nat) {
    CountPresent(CellValues(t, g, h, c)) > 0
  }

  lemma ObservedIff(t: seq<HourRow>, g: Granularity, h: nat, c: nat)
    ensures Observed(t, g, h, c) <==>
      exists i :: 0 <= i < |t| && HourOf(t[i]) == h && ColOf(t[i], g) == c && SolarOf(t[i]).Some?
  {
    var cv := CellValues(t, g, h, c);
    var ps := Present(cv);
    CellValuesMembers(t, g, h, c);
    if Observed(t, g, h, c) {
      assert ps[0] in ps;
      assert Some(ps[0]) in cv;
    }
  }

  predicate HourHasData(t: seq<HourRow>, g: Granularity, h: nat) {
    exists c: nat :: c < ColumnLimit(g) && Observed(t, g, h, c)
  }

  predicate ColumnHasData(t: seq<HourRow>, g: Granularity, c: nat) {
    exists h: nat :: h < 24 && Observed(t, g, h, c)
  }

  /** The keys below `n` that satisfy `p`, ascending. */
  function Upto(n: nat, p: nat -> bool): (r: seq<nat>)
    ensures forall x: nat :: x in r <==> x < n && p(x)
    ensures forall i :: 0 <= i < |r| ==> r[i] < n
    ensures forall i, j :: 0 <= i < j < |r| ==> r[i] < r[j]
  {
    if n == 0 then [] else Upto(n - 1, p) + (if p(n - 1) then [n - 1] else [])
  }

  /** The hours 0..23, each once, ascending. */
  function AllHours(): (r: seq<nat>)
    ensures |r| == 24 && forall h :: 0 <= h < 24 ==> r[h] == h
  {
    seq(24, h requires 0 <= h < 24 => h)
  }

  /** The heat map: nothing to show, or the pivot's row keys (hours), column
      keys (days or months), a cell per row and column, and the colour range. */
  datatype Heatmap =
    | NoSolarData
    | Heatmap(hours: seq<nat>, columns: seq<nat>, cells: seq<seq<Option<real>>>, zmin: Option<real>, zmax: Option<real>)

  /** The hours with some value, ascending: the pivot's rows after `dropna`. */
  function DataHours(t: seq<HourRow>, g: Granularity): (r: seq<nat>)
    ensures forall h: nat :: h in r <==> h < 24 && HourHasData(t, g, h)
    ensures forall i, j :: 0 <= i < j < |r| ==> r[i] < r[j]
  {
    Upto(24, (h: nat) => HourHasData(t, g, h))
  }

  /** The columns with some value, ascending: the pivot's columns after
      `dropna`. */
  function DataColumns(t: seq<HourRow>, g: Granularity): (r: seq<nat>)
    ensures forall c: nat :: c in r <==> c < ColumnLimit(g) && ColumnHasData(t, g, c)
    ensures forall i, j :: 0 <= i < j < |r| ==> r[i] < r[j]
  {
    Upto(ColumnLimit(g), (c: nat) => ColumnHasData(t, g, c))
  }

  /** The cell grid of the given row and column keys: each cell the mean of
      the values at its hour and column. */
  function PivotCells(t: seq<HourRow>, g: Granularity, hours: seq<nat>, cols: seq<nat>): (cells: seq<seq<Option<real>>>)
    ensures |cells| == |hours|
    ensures forall i :: 0 <= i < |hours| ==> |cells[i]| == |cols|
    ensures forall i, j :: 0 <= i < |hours| && 0 <= j < |cols| ==>
      cells[i][j] == MeanPresent(CellValues(t, g, hours[i], cols[j]))
  {
    seq(|hours|, i requires 0 <= i < |hours| =>
      seq(|cols|, j requires 0 <= j < |cols| => MeanPresent(CellValues(t, g, hours[i], cols[j]))))
  }

  /** `pivot_table(index="hour", columns=day or month, aggfunc="mean")`: with
      `dropna` the hours and columns without any value disappear; a day view
      is re-indexed to all 24 hours. Each cell is the mean of its rows'
      values, missing when it has none. */
  function Pivot(t: seq<HourRow>, g: Granularity, zmin: Option<real>, zmax: Option<real>): Heatmap {
    var hours := if g == D then AllHours() else DataHours(t, g);
    var cols := DataColumns(t, g);
    Heatmap(hours, cols, PivotCells(t, g, hours, cols), zmin, zmax)
  }

  /** The slice has nothing to draw: no rows, or no irradiance value. */
  predicate NothingToDraw(t: seq<HourRow>) {
    |t| == 0 || CountPresent(SolarColumn(t)) == 0
  }

  /** The heat-map callback as written: the colour range is taken from the
      whole hourly table before filtering; the no-data branch passes the
      misspelt keyword `color_continous_scale` to `px.imshow`, which accepts
      no such keyword and raises. */
  function SolarViewAsWritten(s: seq<Reading>, sel: Selector): (r: Result<Heatmap, Fault>)
    ensures HourlySlice(HourlyTable(s), sel, SolarMap).Err? ==>
      r.Err? && r.error == HourlySlice(HourlyTable(s), sel, SolarMap).error
    ensures HourlySlice(HourlyTable(s), sel, SolarMap).Ok? ==>
      (r.Err? <==> NothingToDraw(HourlySlice(HourlyTable(s), sel, SolarMap).value))
    ensures HourlySlice(HourlyTable(s), sel, SolarMap).Ok? && r.Err? ==> r.error == UnknownArgument
    ensures r.Ok? ==> r.value == Pivot(HourlySlice(HourlyTable(s), sel, SolarMap).value, sel.agg,
      MinPresent(SolarColumn(HourlyTable(s))), MaxPresent(SolarColumn(HourlyTable(s))))
  {
    var table := HourlyTable(s);
    var t :- HourlySlice(table, sel, SolarMap);
    if NothingToDraw(t) then Err(UnknownArgument)
    else Ok(Pivot(t, sel.agg, MinPresent(SolarColumn(table)), MaxPresent(SolarColumn(table))))
  }

  /** The heat-map callback with the keyword spelt `color_continuous_scale`:
      the no-data branch draws the empty map. */
  function SolarView(s: seq<Reading>, sel: Selector): (r: Result<Heatmap, Fault>)
    ensures r.Err? <==> HourlySlice(HourlyTable(s), sel, SolarMap).Err?
    ensures r.Ok? ==> (r.value.NoSolarData? <==> NothingToDraw(HourlySlice(HourlyTable(s), sel, SolarMap).value))
    ensures r.Ok? && r.value.Heatmap? ==> r.value == Pivot(HourlySlice(HourlyTable(s), sel, SolarMap).value, sel.agg,
      MinPresent(SolarColumn(HourlyTable(s))), MaxPresent(SolarColumn(HourlyTable(s))))
  {
    match SolarViewAsWritten(s, sel)
    case Err(UnknownArgument) => Ok(NoSolarData)
    case other => other
  }

  /** A day whose hours carry no irradiance value (or that has no hour at
      all) shows the discrepancy, whatever the month picker and the year
      dropdown hold: the map as written raises where the corrected one draws
      the empty map. */
  lemma NoIrradianceDayRaises(s: seq<Reading>, sel: Selector)
    requires sel.agg == D && sel.day.Some? && Parses(sel.day.value)
    requires forall i :: 0 <= i < |HourlyTable(s)| && Stamp(HourlyTable(s)[i]).date == sel.day.value ==>
      SolarOf(HourlyTable(s)[i]).None?
    ensures SolarViewAsWritten(s, sel) == Err(UnknownArgument)
    ensures SolarView(s, sel) == Ok(NoSolarData)
  {
    var table := HourlyTable(s);
    var t := SelectHours(table, OnDay(sel.day.value));
    assert HourlySlice(table, sel, SolarMap) == Ok(t);
    forall k | 0 <= k < |t|
      ensures SolarColumn(t)[k].None?
    {
      assert t[k] in t;
      var i :| 0 <= i < |table| && table[i] == t[k];
    }
    CountZeroIffAllMissing(SolarColumn(t));
  }

  /** Every row of a slice is a row of the table it was cut from. */
  lemma SliceRowsInTable(table: seq<HourRow>, sel: Selector, c: Consumer)
    requires HourlySlice(table, sel, c).Ok?
    ensures forall row :: row in HourlySlice(table, sel, c).value ==> row in table
  {
  }

  /** Every irradiance value of a cell is a value of the table's column. */
  lemma CellValueInTable(table: seq<HourRow>, t: seq<HourRow>, g: Granularity, h: nat, c: nat, x: real)
    requires forall row :: row in t ==> row in table
    requires Some(x) in CellValues(t, g, h, c)
    ensures Some(x) in SolarColumn(table)
  {
    CellValuesMembers(t, g, h, c);
    var i :| 0 <= i < |t| && HourOf(t[i]) == h && ColOf(t[i], g) == c && SolarOf(t[i]) == Some(x);
    assert t[i] in t;
    var k :| 0 <= k < |table| && table[k] == t[i];
    assert SolarColumn(table)[k] == Some(x);
  }

  /** A slice with an irradiance value is cut from a table with one. */
  lemma TableHasData(table: seq<HourRow>, t: seq<HourRow>)
    requires forall row :: row in t ==> row in table
    requires CountPresent(SolarColumn(t)) > 0
    ensures CountPresent(SolarColumn(table)) > 0
  {
    CountZeroIffAllMissing(SolarColumn(t));
    var p :| 0 <= p < |t| && SolarColumn(t)[p].Some?;
    assert t[p] in t;
    var k :| 0 <= k < |table| && table[k] == t[p];
    assert SolarColumn(table)[k].Some?;
    CountZeroIffAllMissing(SolarColumn(table));
  }

  /** A present cell of the pivot of a slice lies between the least and the
      greatest irradiance value of the table the slice was cut from. */
  lemma CellWithinTableRange(table: seq<HourRow>, t: seq<HourRow>, g: Granularity, h: nat, c: nat)
    requires forall row :: row in t ==> row in table
    requires MeanPresent(CellValues(t, g, h, c)).Some?
    ensures var col := SolarColumn(table);
      && MinPresent(col).Some? && MaxPresent(col).Some?
      && MinPresent(col).value <= MeanPresent(CellValues(t, g, h, c)).value <= MaxPresent(col).value
  {
    var cv := CellValues(t, g, h, c);
    var col := SolarColumn(table);
    var lo := MinPresent(cv).value;
    var hi := MaxPresent(cv).value;
    CellValueInTable(table, t, g, h, c, lo);
    CellValueInTable(table, t, g, h, c, hi);
    var a :| 0 <= a < |col| && col[a] == Some(lo);
    var b :| 0 <= b < |col| && col[b] == Some(hi);
    CountZeroIffAllMissing(col);
  }

  /** Every drawn cell lies in the colour range: the cells are means of
      values of the slice, which are values of the whole table, whose least
      and greatest values are the range's ends. */
  lemma CellsWithinColourRange(s: seq<Reading>, sel: Selector)
    requires SolarView(s, sel).Ok? && SolarView(s, sel).value.Heatmap?
    ensures var m := SolarView(s, sel).value;
      && m.zmin.Some? && m.zmax.Some?
      && forall i, j :: 0 <= i < |m.hours| && 0 <= j < |m.columns| && m.cells[i][j].Some? ==>
           m.zmin.value <= m.cells[i][j].value <= m.zmax.value
  {
    var table := HourlyTable(s);
    var t := HourlySlice(table, sel, SolarMap).value;
    var col := SolarColumn(table);
    SliceRowsInTable(table, sel, SolarMap);
    var m := Pivot(t, sel.agg, MinPresent(col), MaxPresent(col));
    assert SolarView(s, sel).value == m;
    TableHasData(table, t);
    PivotWithinTableRange(table, t, sel.agg);
  }

  /** The pivot of a slice, coloured on the range of the table it was cut
      from, has every present cell inside that range. */
  lemma PivotWithinTableRange(table: seq<HourRow>, t: seq<HourRow>, g: Granularity)
    requires forall row :: row in t ==> row in table
    requires CountPresent(SolarColumn(table)) > 0
    ensures var col := SolarColumn(table);
      var m := Pivot(t, g, MinPresent(col), MaxPresent(col));
      && m.zmin.Some? && m.zmax.Some?
      && forall i, j :: 0 <= i < |m.hours| && 0 <= j < |m.columns| && m.cells[i][j].Some? ==>
           m.zmin.value <= m.cells[i][j].value <= m.zmax.value
  {
    var col := SolarColumn(table);
    var m := Pivot(t, g, MinPresent(col), MaxPresent(col));
    forall i, j | 0 <= i < |m.hours| && 0 <= j < |m.columns| && m.cells[i][j].Some?
      ensures m.zmin.value <= m.cells[i][j].value <= m.zmax.value
    {
      CellWithinTableRange(table, t, g, m.hours[i], m.columns[j]);
    }
  }

  /** The colour range does not depend on the selection: every map drawn
      from the same station table has the same range, the least and the
      greatest irradiance of the whole hourly table, in that order. */
  lemma ColourRangeIsGlobal(s: seq<Reading>, sel1: Selector, sel2: Selector)
    requires SolarView(s, sel1).Ok? && SolarView(s, sel1).value.Heatmap?
    requires SolarView(s, sel2).Ok? && SolarView(s, sel2).value.Heatmap?
    ensures var m1 := SolarView(s, sel1).value;
      var m2 := SolarView(s, sel2).value;
      var col := SolarColumn(HourlyTable(s));
      && m1.zmin == m2.zmin == MinPresent(col)
      && m1.zmax == m2.zmax == MaxPresent(col)
      && m1.zmin.Some? && m1.zmax.Some? && m1.zmin.value <= m1.zmax.value
  {
    var col := SolarColumn(HourlyTable(s));
    CellsWithinColourRange(s, sel1);
    var i :| 0 <= i < |col| && col[i] == MinPresent(col);
  }

  /** A day map is re-indexed to the whole day: its rows are the hours 0 to
      23, in order, whether or not they hold a value. */
  lemma DayMapHasAllHours(s: seq<Reading>, sel: Selector)
    requires sel.agg == D
    requires SolarView(s, sel).Ok? && SolarView(s, sel).value.Heatmap?
    ensures var m := SolarView(s, sel).value;
      |m.hours| == 24 && forall h :: 0 <= h < 24 ==> m.hours[h] == h
  {
  }

  /** An observed hour and column survive `dropna`. */
  lemma ObservedKeysKept(t: seq<HourRow>, g: Granularity, h: nat, c: nat)
    requires h < 24 && c < ColumnLimit(g) && Observed(t, g, h, c)
    ensures h in DataHours(t, g) && c in DataColumns(t, g)
  {
    assert HourHasData(t, g, h);
    assert ColumnHasData(t, g, c);
  }

  /** The cell of an observed hour and column holds a mean. */
  lemma ObservedCellPresent(t: seq<HourRow>, g: Granularity, hours: seq<nat>, cols: seq<nat>, a: int, b: int)
    requires 0 <= a < |hours| && 0 <= b < |cols| && Observed(t, g, hours[a], cols[b])
    ensures PivotCells(t, g, hours, cols)[a][b].Some?
  {
  }

  /** The pivot loses no value: every row of the slice with an irradiance
      value has its hour among the map's rows and its column among the map's
      columns, and the cell there is present. */
  lemma PivotKeepsEveryValue(t: seq<HourRow>, g: Granularity, zmin: Option<real>, zmax: Option<real>, i: int)
    requires 0 <= i < |t| && SolarOf(t[i]).Some?
    ensures var m := Pivot(t, g, zmin, zmax);
      && HourOf(t[i]) in m.hours
      && ColOf(t[i], g) in m.columns
      && exists a, b :: 0 <= a < |m.hours| && 0 <= b < |m.columns| &&
           m.hours[a] == HourOf(t[i]) && m.columns[b] == ColOf(t[i], g) && m.cells[a][b].Some?
  {
    var h := HourOf(t[i]);
    var c := ColOf(t[i], g);
    ObservedIff(t, g, h, c);
    ObservedKeysKept(t, g, h, c);
    var hours := if g == D then AllHours() else DataHours(t, g);
    var cols := DataColumns(t, g);
    if g == D {
      assert hours[h] == h;
    }
    var a :| 0 <= a < |hours| && hours[a] == h;
    var b :| 0 <= b < |cols| && cols[b] == c;
    ObservedCellPresent(t, g, hours, cols, a, b);
  }

  /** A cell is missing exactly when no row of the slice at its hour and in
      its column has a value; otherwise it lies between the least and the
      greatest of those values. */
  lemma PivotCell(t: seq<HourRow>, g: Granularity, zmin: Option<real>, zmax: Option<real>, i: int, j: int)
    requires var m := Pivot(t, g, zmin, zmax); 0 <= i < |m.hours| && 0 <= j < |m.columns|
    ensures var m := Pivot(t, g, zmin, zmax);
      var h := m.hours[i];
      var c := m.columns[j];
      var cv := CellValues(t, g, h, c);
      && (m.cells[i][j].None? <==>
            !exists k :: 0 <= k < |t| && HourOf(t[k]) == h && ColOf(t[k], g) == c && SolarOf(t[k]).Some?)
      && (m.cells[i][j].Some? ==> MinPresent(cv).value <= m.cells[i][j].value <= MaxPresent(cv).value)
      && (m.cells[i][j].Some? ==> Scale(CountPresent(cv), m.cells[i][j].value) == SumPresent(cv))
  {
    var m := Pivot(t, g, zmin, zmax);
    ObservedIff(t, g, m.hours[i], m.columns[j]);
  }
}
