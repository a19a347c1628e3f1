# Weather-station dashboard core, modelled in Dafny

The dashboard (`app_BigData.py`) loads the logger table of a weather station and aggregates it to hours. Four figures are then drawn for a period chosen by the user. This project models that data path:

- **Readings.** A logger row is a `Reading`. Its timestamp is `None` when the coercing parse turns it into NaT, and every numeric cell may be missing. Bucketing by hour, day or month uses a day ordinal of the proleptic Gregorian calendar (module `Calendar`). Buckets carry the labels pandas gives them: the full hour, midnight of the day, or the month's last day for the `"M"` rule.
- **Statistics.** `count`, `sum`, `mean`, `min` and `max` all skip missing values (module `Stats`). An empty `sum` is 0, while an empty `mean`, `min` or `max` is missing.
- **Resampling.** `resample(u).agg(...)` yields one bucket per ordinal from the first to the last timed reading. Gap buckets are included (module `Resampling`).
- **Hourly table.** `df_hourly` counts RECORD, sums the two rain columns and averages the rest. The wind direction is a circular mean wrapped into [0, 360) (module `Hourly`).
- **Period query.** Every figure callback receives a tag D, M or Y plus three optional picker values. The temperature view filters the raw table without any `None` guard. The three other views filter the hourly table behind guards, and the year guard differs between them (module `Periods`).
- **The four views:**
  - the temperature and precipitation chart with its fixed axis ranges (`TempPrecip`);
  - the wind rose, built with `pd.cut(..., right=False, include_lowest=True)` into 16 direction sectors and 4 speed bands (`WindRose`);
  - the solar heat map, a `pivot_table` of hour × day (or × month) coloured on the range of the whole hourly table (`SolarHeatmap`);
  - the humidity gauge showing the least and greatest hourly humidity (`HumidityGauge`).

Raising callbacks are modelled as `Result.Err` with a `Fault`. The modules follow the order of the program: `Wrappers`, `Calendar`, `Stats`, `Readings`, `Resampling`, `Hourly`, `Periods`, `TempPrecip`, `WindRose`, `SolarHeatmap`, `HumidityGauge`.

Points where the code's behaviour is easy to misread:

- RECORD in the hourly table is the count of non-missing RECORD values, not of all rows.
- Hours without readings appear in the hourly table with count 0, rain 0 and missing means.
- The monthly and yearly temperature views resample the raw table, not the hourly one.
- Direction sectors are 22° wide (edges `range(0, 361, 22)`). Directions in [352, 360] fall in no sector.
- Speeds of 3 m/s and above fall in no band.
- The rose counts only rows whose direction and speed both fall in a bin.
- The heat map's column key for tags D and M is the day of the month. When the guard falls back to the whole table, equal days of different months therefore share a column.
- An empty rose slice gives a placeholder figure, not an all-zero histogram.
- A missing reference makes the temperature view raise, and so does a day or month date that `pd.to_datetime` cannot parse, in every view whose guard lets it through.
- A solar slice with no irradiance value, empty or not, raises (Finding 2).
- An empty humidity slice raises (Finding 1).

## Model

| member | source | states |
|---|---|---|
| Calendar.LabelOfKey | app_BigData.py:54 | The label of a timestamp's bucket ordinal is pandas' floor of the timestamp: its full hour, its midnight, or its month's last day. |
| Calendar.SameBucket | app_BigData.py:54 | Two valid timestamps share a bucket exactly when pandas gives them the same label. |
| Readings.TimeOf | app_BigData.py:31-34 | A timestamp survives the coercing parse exactly when it is a valid civil time inside pandas' nanosecond range (1677-09-21 00:12:44 to 2262-04-11 23:47:16 in whole seconds), and it is then kept unchanged; anything else is NaT. |
| Readings.Span | app_BigData.py:54 | The resampled range is missing exactly when no reading has a valid timestamp. Otherwise it bounds every reading's ordinal and both ends are attained by some reading. |
| Readings.BucketIsLabelled | app_BigData.py:54 | The bucket with ordinal o holds exactly the readings whose pandas label is the label of o. |
| Stats.MinPresent | app_BigData.py:1149 | `min()` is missing exactly when no value is present. Otherwise it is one of the values and not above any of them. |
| Stats.MaxPresent | app_BigData.py:1150 | `max()` is missing exactly when no value is present. Otherwise it is one of the values and not below any of them. |
| Stats.MeanPresent | app_BigData.py:60-66 | `mean()` is missing exactly when no value is present. Otherwise it is the sum of the present values divided by their count: added up once per present value, it gives back their sum. It also lies between the minimum and the maximum. |
| Resampling.ResampleEmptyIff | app_BigData.py:54-67 | The resampled frame is empty exactly when no reading has a valid timestamp. |
| Resampling.ResampleRows | app_BigData.py:54-67 | Rows are consecutive ordinals from the first to the last timed reading, and row i holds exactly the readings of its ordinal. |
| Resampling.BucketGroupIsLabelled | app_BigData.py:54-67 | Each row holds exactly the readings pandas labels with that row's label. |
| Resampling.MeanWithinMembers | app_BigData.py:60-66 | A bucket's mean of a column is missing exactly when none of its readings has a value. Otherwise it lies between the least and the greatest of those values. |
| Resampling.ResampleConservesSum | app_BigData.py:64-65 | The summed column of a resampled frame adds up to the column's sum over all timed readings. |
| Resampling.ResampleConservesCount | app_BigData.py:55 | The counted column of a resampled frame adds up to the column's count over all timed readings. |
| Hourly.WrapDirection | app_BigData.py:70 | `(a + 360) % 360` lands in [0, 360). It keeps a non-negative angle and adds a full turn to a negative one. |
| Hourly.MeanDirection | app_BigData.py:56-70 | An hour's direction is missing exactly when the hour has no direction reading. Otherwise it is in [0, 360). A non-negative circular mean is kept as it is, and a negative one has 360 added. |
| Hourly.HourlyTableIsHourAxis | app_BigData.py:54-67 | The hourly table is empty exactly when no timestamp is valid. Its rows are consecutive hours, and its first and last hours hold readings. |
| Hourly.HourlyTableCoversReadings | app_BigData.py:54 | The floored hour of every timed reading is a row of the hourly table. |
| Hourly.HourlyRowIsItsHour | app_BigData.py:54 | Each hourly row holds exactly the readings whose timestamp floors to its hour. |
| Hourly.NoRowAfterData | app_BigData.py:54-67 | No row of the hourly table falls on a day later than every reading's date. |
| Hourly.HourRecordCount | app_BigData.py:54-55 | An hour's RECORD equals the number of non-missing RECORD values among the readings whose timestamp floors to that hour. |
| Hourly.GapHourIsEmpty | app_BigData.py:54-67 | An hour without readings has RECORD 0, both rain sums 0, and every mean and the direction missing. |
| Hourly.HourMeanWithinReadings | app_BigData.py:60-66 | An hour's averaged column is missing exactly when the hour has no value. Otherwise it lies between the hour's least and greatest reading. |
| Hourly.HourlyTableConserves | app_BigData.py:54-67 | The hourly rain sums and RECORD counts add up to the totals over all timed readings. |
| Periods.RawPeriod | app_BigData.py:805-814 | The temperature view raises exactly when the reference of the active tag is missing, or is a day or month date that `pd.to_datetime` cannot parse (a day that does not exist, or one outside pandas' range); a missing reference is told apart from an unparsable one. Otherwise it filters by that day, that month of that year, or that year. |
| Periods.HourlyPeriod | app_BigData.py:949-958 | An hourly view uses the whole table exactly when its active guard fails. It raises exactly when the guarded reference does not parse, or tag Y passes the guard with no year; the second, a missing reference, never happens to the humidity gauge. A chosen period agrees with the temperature view's. |
| Periods.YearParsesIff | app_BigData.py:956-958 | A year string parses exactly for the years 1678 to 2262, those whose January 1 lies in pandas' range. |
| Periods.ParsesEdges | app_BigData.py:950 | A date such as 2024-02-30 or 2023-02-29 does not parse; the first and last parsable days are 1677-09-22 and 2262-04-11. |
| Periods.SelectReadings | app_BigData.py:807-814 | A reading is in a raw slice exactly when it is in the table and has a valid timestamp in the period; the slice is no longer than the table. |
| Periods.SelectReadingsCounts | app_BigData.py:807-814 | The boolean mask keeps multiplicity: a reading in the period occurs in the slice as often as in the table, any other reading never. |
| Periods.SelectReadingsSplits | app_BigData.py:807-814 | The mask keeps table order: the slice of two consecutive stretches of the table is the first stretch's slice followed by the second's. |
| Periods.SelectHours | app_BigData.py:949-958 | A row is in an hourly slice exactly when it is in the table and its hour lies in the period; the slice is no longer than the table. |
| Periods.SelectHoursCounts | app_BigData.py:949-958 | `data.loc[mask]` keeps multiplicity: a row in the period occurs in the slice as often as in the table, any other row never. |
| Periods.SelectHoursSplits | app_BigData.py:949-958 | `data.loc[mask]` keeps table order: the slice of two consecutive stretches is the first stretch's slice followed by the second's. |
| Periods.SelectHoursEmptyIff | app_BigData.py:949-958 | A period selects no hour exactly when no row's hour lies in it. |
| Periods.RawSliceInPeriod | app_BigData.py:805-814 | The temperature view's slice holds exactly the timed readings inside the selected period, each as often as in the table, and in table order: cut the table anywhere and the slice is the part before the cut's slice followed by the part after's. |
| Periods.SlicesNest | app_BigData.py:807-814 | For one date, the day slice is the month slice filtered again, and the month slice is the year slice filtered again. |
| Periods.HourSlicesNest | app_BigData.py:949-958 | The same nesting of day, month and year holds for hourly slices. |
| Periods.SelectReadingsWidens | app_BigData.py:807-814 | Filtering a raw slice again by a period containing its own (including the same period) leaves it unchanged. |
| Periods.SelectHoursWidens | app_BigData.py:949-958 | Filtering an hourly slice again by a period containing its own (including the same period) leaves it unchanged. |
| Periods.GuardFallback | app_BigData.py:1032-1042 | When the active guard fails, the hourly view works on the whole table. |
| Periods.YearGuardQuirk | app_BigData.py:949-958 | With a year but no month date, the rose and the solar map show the whole table and the humidity gauge (guard at line 1136) shows the year, or raises when the year string does not parse. With a month date but no year, the rose and the solar map raise and the gauge shows the whole table. |
| Periods.ViewsAgreeWhenAllSet | app_BigData.py:1032-1042 | With all three references set to values that parse, every hourly view filters by the temperature view's period. |
| TempPrecip.AxisRanges | app_BigData.py:857-919 | The temperature axis is [-10, 35] at every granularity. The precipitation axis straddles 0: the same range for a day, [-20, 70] for a month and [-10, 100] for a year. |
| TempPrecip.TempPrecipChart | app_BigData.py:805-830 | Raises exactly when the active reference is missing or is a day or month date that does not parse. A day plots the raw slice itself, in table order and with repeated readings kept, which holds exactly that day's timed readings. A month is resampled daily and a year monthly. Each carries its axis ranges. |
| TempPrecip.ChartConservesRain | app_BigData.py:818-827 | At every granularity, the chart's rain adds up to the rain of the selected slice. |
| TempPrecip.ResampledBucket | app_BigData.py:818-827 | Bucket i of a month or year chart is the i-th consecutive bucket and holds the readings with its label. Its mean temperature is missing iff none has one, and otherwise lies between their extremes. |
| WindRose.CountAtMostSplits | app_BigData.py:971 | The search position divides increasing edges into those not above the value and those above it. |
| WindRose.CutIff | app_BigData.py:971 | `pd.cut` with `right=False` puts a value in bin k exactly when e[k] <= v < e[k+1]. |
| WindRose.CutNoneIff | app_BigData.py:971 | A value falls in no bin exactly when it lies outside [e[0], e[last]). |
| WindRose.DirSectorIff | app_BigData.py:969-971 | A direction is in sector k exactly when 22k <= d < 22k + 22 with k < 16. Below 0, at or above 352, or missing means no sector. |
| WindRose.SpeedBandIff | app_BigData.py:976-978 | A speed is in band j exactly when it lies in [edge j, edge j+1) of 0, 0.2, 0.5, 1, 3. Below 0, at or above 3, or missing means no band. |
| WindRose.DirLabelIff | app_BigData.py:969-971 | A direction gets the k-th compass label exactly when it lies in [22k, 22k + 22). Otherwise it gets no label. |
| WindRose.SpeedLabelIff | app_BigData.py:976-978 | A speed gets the j-th band label exactly when it lies in band j. Otherwise it gets no label. |
| WindRose.RoseCountsRows | app_BigData.py:972-979 | The 64 cells count every row with both bins exactly once, and the 16 sector counts count every row with a direction bin. Neither exceeds the slice. |
| WindRose.CellWithinSector | app_BigData.py:972-979 | A direction-speed cell never counts more rows than its direction sector. |
| WindRose.TallyRose | app_BigData.py:972-983 | A single pass bumping each row's sector and cell yields the same counts as counting each sector and cell separately. |
| WindRose.WindRoseView | app_BigData.py:940-966 | The rose raises exactly when the guarded reference does not parse, or for tag Y with a month date and a missing or unparsable year; the missing year is the one MissingReference. Otherwise it is the placeholder exactly when the slice is empty, and the slice's counts otherwise. |
| SolarHeatmap.KeysOfStamp | app_BigData.py:1053-1055 | The pivot keys are the hour, and either the day of the month or the month, of the row's timestamp. |
| SolarHeatmap.CellValuesMembers | app_BigData.py:1059-1062 | Membership only: a value is in a pivot cell exactly when some slice row at the cell's hour and column carries it. How often each value counts is stated by SolarHeatmap.CellValuesSplits. |
| SolarHeatmap.CellValuesSplits | app_BigData.py:1057-1066 | A cell of the concatenation of two row sequences is the first one's cell followed by the second one's. So each row at the cell's hour and column contributes its value once, in table order, and a repeated value weighs in the cell's mean as often as it occurs. |
| SolarHeatmap.ObservedIff | app_BigData.py:1059-1062 | A cell has data exactly when some row at its hour and column has an irradiance value. |
| SolarHeatmap.DataHours | app_BigData.py:1059-1062 | The rows kept by `dropna` are exactly the hours with some value, in ascending order. |
| SolarHeatmap.DataColumns | app_BigData.py:1057-1062 | The columns kept by `dropna` are exactly the days (or months) with some value, in ascending order. |
| SolarHeatmap.DayMapHasAllHours | app_BigData.py:1064-1066 | For tag D, whatever the day, month and year pickers hold, a drawn map's rows are exactly the hours 0 to 23, in order, whether or not they hold a value. |
| SolarHeatmap.PivotKeepsEveryValue | app_BigData.py:1057-1066 | Every irradiance value of the slice has its hour and column in the drawn map, and the cell there is present. |
| SolarHeatmap.PivotCell | app_BigData.py:1057-1066 | A cell is missing exactly when no row at its hour and column has a value. Otherwise it is the mean of those values: added up once per value, it gives their sum. It lies between their extremes. |
| SolarHeatmap.CellsWithinColourRange | app_BigData.py:1083-1091 | Every drawn cell lies within [zmin, zmax], which come from the whole hourly table. |
| SolarHeatmap.PivotWithinTableRange | app_BigData.py:1057-1091 | For any slice of a table that has an irradiance value, the pivot coloured on that table's range has both colour bounds, and every present cell lies between them. |
| SolarHeatmap.ColourRangeIsGlobal | app_BigData.py:1028-1030 | Every map has the same colour range, the table-wide least and greatest irradiance, with zmin <= zmax. |
| SolarHeatmap.SolarViewAsWritten | app_BigData.py:1044-1051 | Raises what the slice raises: an unparsable guarded reference, or tag Y passing the month guard without a year. Otherwise, when the slice succeeds, it raises exactly when there is nothing to draw, that is when the slice is empty or has no irradiance value, and then only for the misspelt keyword. When it does not raise, it draws the pivot of the slice coloured on the whole table's irradiance range. |
| SolarHeatmap.SolarView | app_BigData.py:1044-1051 | With the keyword spelt correctly, the map raises exactly when the slice itself raises. It is the empty map exactly when there is nothing to draw, and otherwise the pivot of the slice coloured on the whole table's irradiance range. |
| SolarHeatmap.NoIrradianceDayRaises | app_BigData.py:1044-1051 | For tag D and a parsable day none of whose hours has an irradiance value, whatever the month and year pickers hold, the map as written raises while the corrected one draws the empty map. |
| HumidityGauge.Extremes | app_BigData.py:1149-1150 | Each bar is missing exactly when the slice has no humidity value. |
| HumidityGauge.ExtremesBound | app_BigData.py:1149-1150 | Both bars are humidity values of the slice, ordered min <= max, with every hour's humidity between them. |
| HumidityGauge.ExtremesNarrow | app_BigData.py:1149-1150 | The bars of a sub-slice lie within the bars of the wider slice. |
| HumidityGauge.GaugesNest | app_BigData.py:1129-1150 | For one date, the day's bars lie within the month's, and the month's within the year's. |
| HumidityGauge.HumidityViewAsWritten | app_BigData.py:1129-1147 | The gauge as written raises on an unparsable guarded reference. Otherwise it raises exactly when the slice is empty, because it returns an unbound figure, and shows the slice's extremes when it is not. |
| HumidityGauge.HumidityView | app_BigData.py:1129-1146 | The corrected gauge raises exactly when the guarded reference does not parse, and never for a missing one. It shows the annotation exactly when the slice is empty, and the extremes otherwise. |
| HumidityGauge.EmptyDayRaises | app_BigData.py:1140-1147 | For tag D and a parsable day with no hourly row, whatever the month and year pickers hold, the gauge as written raises while the corrected one shows the annotation. |
| HumidityGauge.DayAfterDataRaises | app_BigData.py:1129-1147 | For a table with readings and a parsable day after the last of them, the hourly table is non-empty, the gauge as written raises and the corrected one shows the annotation. |

## Left out

- CSV reading and column casting (app_BigData.py:20-45) are not modelled. The model starts from the parsed table: a timestamp that fails to parse is `None`, and a cell that fails `astype(float)` would make the program raise before any view exists.
- Hourly.MeanDirection: the circular mean `arctan2(mean sin, mean cos)` is a parameter `circ` returning an angle in [-180, 180], because the model has no trigonometry or floating point.
- Hourly.HourlyTable: `round(2)` (line 73) is not applied. All arithmetic is on exact reals, so float rounding and NaN propagation are absent. Rounding can move an hourly value across a `pd.cut` edge: a mean speed of 0.196 becomes 0.2 and changes band, and a mean direction of 351.996 becomes 352.0 and leaves every sector. WindRose.CutIff, WindRose.RoseCountsRows and the views built on them therefore describe the unrounded table.
- The figure objects, layouts, colours, hover text and the humidity gauge's grey 100 % background bars are not modelled (lines 832-919, 984-1020, 1069-1110, 1152-1187). Only the data each figure plots and its axis or colour ranges are.
- Picker values are modelled as calendar dates and the year as an integer, since the pickers emit `YYYY-MM-DD` and year strings. A string that is no date at all, and a year string that `int` rejects, are not modelled; a date that does not exist or lies outside pandas' range is, as `Unparsable`.
- `max_Wind_v` (line 944) is computed but never used, so it is left out.
- The UI callbacks that only toggle visibility or info boxes (`updateVariables`, `calender`, `displayInfoBox*`) and the Dash layout and `app.run` are not part of this model.
- WindRose.TallyRose: the data frame operations `value_counts`, `groupby(...).size()` and the categorical sort are modelled as per-sector and per-cell counts in label order, not as frames.

## Findings

| source | as written | input that shows it | evidently intended | confidence | as-written member | corrected member |
|---|---|---|---|---|---|---|
| app_BigData.py:1140-1147 | the empty-slice branch of the humidity gauge builds an annotated figure `fig` but returns `fig_RH`, which is only assigned later (line 1152), so the call raises | tag D with a day after the last reading, whatever the month and year pickers hold; the day picker's `max_date_allowed` (lines 253-256) keeps such a day out of the interface, so the branch is reached only when the callback receives a date outside the data | return the annotated "no data" figure | not executed | HumidityGauge.HumidityViewAsWritten | HumidityGauge.HumidityView |
| app_BigData.py:1044-1051 | the no-data branch of the solar map passes `color_continous_scale` to `px.imshow`, which takes no such keyword, so the call raises | tag D with a day whose hours carry no `SlrkW_Avg` value, e.g. a day inside the data range on which the irradiance sensor logged nothing | `color_continuous_scale`, drawing the empty map | not executed | SolarHeatmap.SolarViewAsWritten | SolarHeatmap.SolarView |
