/** The wind rose: `pd.cut` of the hourly wind directions into 16 sectors
    and of the hourly wind speeds into 4 bands (both with `right=False`), the
    per-sector counts in label order and the sector-by-band cross table. */
module WindRose {
  import opened Wrappers
  import opened Hourly
  import opened Readings
  import opened Periods

  /** Every edge is smaller than every later one. */
  predicate StrictlyIncreasing(e: seq<real>) {
    forall i, j :: 0 <= i < j < |e| ==> e[i] < e[j]
  }

  /** `searchsorted(x, side="right")`: the number of edges not above `x`. */
  function CountAtMost(e: seq<real>, x: real): (c: nat)
    ensures c <= |e|
    decreases |e|
  {
    if |e| == 0 then 0
    else CountAtMost(e[..|e| - 1], x) + (if e[|e| - 1] <= x then 1 else 0)
  }

  /** On increasing edges the count splits them: the first `c` edges are not
      above `x` and the rest are. */
  lemma {:induction false} CountAtMostSplits(e: seq<real>, x: real)
    requires StrictlyIncreasing(e)
    ensures var c := CountAtMost(e, x);
      && (forall j :: 0 <= j < c ==> e[j] <= x)
      && (forall j :: c <= j < |e| ==> x < e[j])
    decreases |e|
  {
    if |e| > 0 {
      var init := e[..|e| - 1];
      assert StrictlyIncreasing(init);
      CountAtMostSplits(init, x);
    }
  }

  /** `pd.cut(x, bins=e, right=False, include_lowest=True)` as the interval
      index: the bin is the search position minus one, with a value on the
      lowest edge put in bin 0, and positions 0 and |e| mean no bin. */
  function Cut(e: seq<real>, x: Option<real>): Option<nat>
    requires |e| >= 1
  {
    match x
    case None => None
    case Some(v) =>
      var ids := if v == e[0] then 1 else CountAtMost(e, v);
      if ids == 0 || ids == |e| then None else Some(ids - 1)
  }

  /** A value lands in bin `k` exactly when it lies in [e[k], e[k + 1]). */
  lemma CutIff(e: seq<real>, v: real, k: int)
    requires |e| >= 2 && StrictlyIncreasing(e)
    ensures Cut(e, Some(v)) == Some(k) <==> 0 <= k < |e| - 1 && e[k] <= v < e[k + 1]
  {
    CountAtMostSplits(e, v);
  }

  /** A value lands in no bin exactly when it lies outside [e[0], e[|e| - 1]). */
  lemma CutNoneIff(e: seq<real>, v: real)
    requires |e| >= 2 && StrictlyIncreasing(e)
    ensures Cut(e, Some(v)).None? <==> v < e[0] || e[|e| - 1] <= v
  {
    var r := Cut(e, Some(v));
    if r.Some? {
      CutIff(e, v, r.value);
    } else if e[0] <= v < e[|e| - 1] {
      var k := InteriorBin(e, v);
      CutIff(e, v, k);
    }
  }

  lemma InteriorBin(e: seq<real>, v: real) returns (k: nat)
    requires |e| >= 2 && StrictlyIncreasing(e)
    requires e[0] <= v < e[|e| - 1]
    ensures k < |e| - 1 && e[k] <= v < e[k + 1]
  {
    CountAtMostSplits(e, v);
    k := CountAtMost(e, v) - 1;
  }

  /** `bins = range(0, 361, 22)`: 0, 22, ..., 352. */
  function DirectionEdges(): (e: seq<real>)
    ensures |e| == 17 && StrictlyIncreasing(e)
    ensures forall k :: 0 <= k < 17 ==> e[k] == (22 * k) as real
  {
    seq(17, k requires 0 <= k < 17 => (22 * k) as real)
  }

  /** `v_bins = [0, 0.2, 0.5, 1, 3]`. */
  function SpeedEdges(): (e: seq<real>)
    ensures |e| == 5 && StrictlyIncreasing(e)
  {
    [0.0, 0.2, 0.5, 1.0, 3.0]
  }

  const DirectionLabels: seq<string> :=
    ["N", "NNO", "NO", "ONO", "O", "OSO", "SO", "SSO", "S", "SSW", "SW", "WWS", "W", "WWN", "NW", "NNW"]

  const SpeedLabels: seq<string> := ["0-0.2m/s", "0.2-0.5m/s", "0.5-1m/s", "1-3m/s"]

  /** The category `pd.cut` gives a direction: the label of its sector. */
  function DirLabel(d: Option<real>): Option<string> {
    var k := DirSector(d);
    if k.Some? && k.value < |DirectionLabels| then Some(DirectionLabels[k.value]) else None
  }

  /** The category `pd.cut` gives a speed: the label of its band. */
  function SpeedLabel(v: Option<real>): Option<string> {
    var j := SpeedBand(v);
    if j.Some? && j.value < |SpeedLabels| then Some(SpeedLabels[j.value]) else None
  }

  /** The sector of a direction, as an index into DirectionLabels. */
  function DirSector(d: Option<real>): Option<nat> {
    Cut(DirectionEdges(), d)
  }

  /** The band of a speed, as an index into SpeedLabels. */
  function SpeedBand(v: Option<real>): Option<nat> {
    Cut(SpeedEdges(), v)
  }

  /** Sector `k` is [22k, 22k + 22) for k < 16; a direction at or above 352
      degrees, below 0 or missing has no sector. */
  lemma DirSectorIff(d: real, k: int)
    ensures DirSector(Some(d)) == Some(k) <==> 0 <= k < 16 && (22 * k) as real <= d < (22 * k + 22) as real
    ensures DirSector(Some(d)).None? <==> d < 0.0 || 352.0 <= d
    ensures DirSector(None).None?
  {
    var e := DirectionEdges();
    CutIff(e, d, k);
    CutNoneIff(e, d);
    if 0 <= k < 16 {
      assert e[k + 1] == (22 * k + 22) as real;
    }
  }

  /** Band `j` is [edge j, edge j + 1) of 0, 0.2, 0.5, 1, 3; a speed at or
      above 3, below 0 or missing has no band. */
  lemma SpeedBandIff(v: real, j: int)
    ensures SpeedBand(Some(v)) == Some(j) <==> 0 <= j < 4 && SpeedEdges()[j] <= v < SpeedEdges()[j + 1]
    ensures SpeedBand(Some(v)).None? <==> v < 0.0 || 3.0 <= v
    ensures SpeedBand(None).None?
  {
    CutIff(SpeedEdges(), v, j);
    CutNoneIff(SpeedEdges(), v);
  }

  /** The 16 direction labels are distinct, so a label names one sector: a
      direction gets label k exactly when it lies in [22k, 22k + 22), and a
      missing direction or one outside [0, 352) gets none. */
  lemma DirLabelIff(d: Option<real>, k: int)
    requires 0 <= k < 16
    ensures DirLabel(d) == Some(DirectionLabels[k]) <==>
      d.Some? && (22 * k) as real <= d.value < (22 * k + 22) as real
    ensures DirLabel(d).None? <==> d.None? || d.value < 0.0 || 352.0 <= d.value
  {
    assert forall i, j :: 0 <= i < j < 16 ==> DirectionLabels[i] != DirectionLabels[j];
    if d.Some? {
      DirSectorIff(d.value, k);
      DirSectorBound(d);
      if DirSector(d).Some? {
        DirSectorIff(d.value, DirSector(d).value);
      }
    }
  }

  /** Likewise a speed gets label j exactly when it lies in band j. */
  lemma SpeedLabelIff(v: Option<real>, j: int)
    requires 0 <= j < 4
    ensures SpeedLabel(v) == Some(SpeedLabels[j]) <==>
      v.Some? && SpeedEdges()[j] <= v.value < SpeedEdges()[j + 1]
    ensures SpeedLabel(v).None? <==> v.None? || v.value < 0.0 || 3.0 <= v.value
  {
    assert forall a, b :: 0 <= a < b < 4 ==> SpeedLabels[a] != SpeedLabels[b];
    if v.Some? {
      SpeedBandIff(v.value, j);
      SpeedBandBound(v);
      if SpeedBand(v).Some? {
        SpeedBandIff(v.value, SpeedBand(v).value);
      }
    }
  }

  lemma DirSectorBound(d: Option<real>)
    ensures DirSector(d).Some? ==> DirSector(d).value < 16
  {
    if d.Some? && DirSector(d).Some? {
      DirSectorIff(d.value, DirSector(d).value);
    }
  }

  lemma SpeedBandBound(v: Option<real>)
    ensures SpeedBand(v).Some? ==> SpeedBand(v).value < 4
  {
    if v.Some? && SpeedBand(v).Some? {
      SpeedBandIff(v.value, SpeedBand(v).value);
    }
  }

  /** One row of the hourly slice as the rose sees it. */
  datatype Wind = Wind(dir: Option<real>, speed: Option<real>)

  /** The (direction, speed) pairs of an hourly slice. */
  function Winds(t: seq<HourRow>, circ: seq<real> -> Angle): (ws: seq<Wind>)
    ensures |ws| == |t|
  {
    seq(|t|, i requires 0 <= i < |t| => Wind(HourValue(t[i], WindDir, circ), HourValue(t[i], WindSpeed, circ)))
  }

  /** The cross-table cell of a row, sector-major: 4 * sector + band; None
      when the direction or the speed is unbinned. */
  function CellOf(w: Wind): (c: Option<nat>)
    ensures c.Some? <==> DirSector(w.dir).Some? && SpeedBand(w.speed).Some?
    ensures c.Some? ==> c.value == 4 * DirSector(w.dir).value + SpeedBand(w.speed).value && c.value < 64
  {
    DirSectorBound(w.dir);
    SpeedBandBound(w.speed);
    if DirSector(w.dir).Some? && SpeedBand(w.speed).Some? then
      Some(4 * DirSector(w.dir).value + SpeedBand(w.speed).value)
    else None
  }

  /** `value_counts` of the direction bins: rows in sector `k`. */
  function SectorCount(ws: seq<Wind>, k: nat): nat
    decreases |ws|
  {
    if |ws| == 0 then 0
    else SectorCount(ws[..|ws| - 1], k) + (if DirSector(ws[|ws| - 1].dir) == Some(k) then 1 else 0)
  }

  /** `groupby([dir bin, speed bin]).size()`: rows in cell `c`. */
  function CellCount(ws: seq<Wind>, c: nat): nat
    decreases |ws|
  {
    if |ws| == 0 then 0
    else CellCount(ws[..|ws| - 1], c) + (if CellOf(ws[|ws| - 1]) == Some(c) then 1 else 0)
  }

  /** The rows whose direction has a sector. */
  function DirBinned(ws: seq<Wind>): (n: nat)
    ensures n <= |ws|
    decreases |ws|
  {
    if |ws| == 0 then 0
    else DirBinned(ws[..|ws| - 1]) + (if DirSector(ws[|ws| - 1].dir).Some? then 1 else 0)
  }

  /** The rows whose direction and speed both have a bin. */
  function Binned(ws: seq<Wind>): (n: nat)
    ensures n <= |ws|
    decreases |ws|
  {
    if |ws| == 0 then 0
    else Binned(ws[..|ws| - 1]) + (if CellOf(ws[|ws| - 1]).Some? then 1 else 0)
  }

  function Sectors(ws: seq<Wind>): (r: seq<nat>)
    ensures |r| == 16
  {
    seq(16, k requires 0 <= k < 16 => SectorCount(ws, k))
  }

  function Cells(ws: seq<Wind>): (r: seq<nat>)
    ensures |r| == 64
  {
    seq(64, c requires 0 <= c < 64 => CellCount(ws, c))
  }

  /** The rose figure's data: the placeholder for an empty slice, otherwise
      the sector counts in label order and the 16 x 4 cross table. */
  datatype Rose = Placeholder | Rose(sectors: seq<nat>, cells: seq<nat>)

  function RoseOf(ws: seq<Wind>): Rose {
    if |ws| == 0 then Placeholder else Rose(Sectors(ws), Cells(ws))
  }

  /** The rose of an hourly slice. */
  function WindRoseOf(t: seq<HourRow>, circ: seq<real> -> Angle): (r: Rose)
    ensures r.Placeholder? <==> |t| == 0
  {
    RoseOf(Winds(t, circ))
  }

  function Sum(xs: seq<nat>): nat
    decreases |xs|
  {
    if |xs| == 0 then 0 else Sum(xs[..|xs| - 1]) + xs[|xs| - 1]
  }

  lemma {:induction false} SumBump(xs: seq<nat>, c: int)
    requires 0 <= c < |xs|
    ensures Sum(xs[c := xs[c] + 1]) == Sum(xs) + 1
    decreases |xs|
  {
    var ys := xs[c := xs[c] + 1];
    assert ys[..|ys| - 1] == if c < |xs| - 1 then xs[..|xs| - 1][c := xs[c] + 1] else xs[..|xs| - 1];
    if c < |xs| - 1 {
      SumBump(xs[..|xs| - 1], c);
    }
  }

  /** Adding a row adds one to its cell, if it has one, and to nothing else. */
  lemma CellsAppend(ws: seq<Wind>, w: Wind)
    ensures CellOf(w).Some? ==> Cells(ws + [w]) == Cells(ws)[CellOf(w).value := Cells(ws)[CellOf(w).value] + 1]
    ensures CellOf(w).None? ==> Cells(ws + [w]) == Cells(ws)
  {
    assert (ws + [w])[..|ws|] == ws;
  }

  lemma SectorsAppend(ws: seq<Wind>, w: Wind)
    ensures DirSector(w.dir).Some? ==>
      DirSector(w.dir).value < 16 &&
      Sectors(ws + [w]) == Sectors(ws)[DirSector(w.dir).value := Sectors(ws)[DirSector(w.dir).value] + 1]
    ensures DirSector(w.dir).None? ==> Sectors(ws + [w]) == Sectors(ws)
  {
    DirSectorBound(w.dir);
    assert (ws + [w])[..|ws|] == ws;
  }

  /** The cross table counts every row whose direction and speed are both
      binned exactly once, so it never counts more rows than the slice has;
      the sector counts likewise count every row with a binned direction. */
  lemma {:induction false} RoseCountsRows(ws: seq<Wind>)
    ensures Sum(Cells(ws)) == Binned(ws) <= |ws|
    ensures Sum(Sectors(ws)) == DirBinned(ws) <= |ws|
    decreases |ws|
  {
    if |ws| == 0 {
      assert Cells(ws) == seq(64, c => 0);
      SumZeros(64);
      assert Sectors(ws) == seq(16, k => 0);
      SumZeros(16);
    } else {
      var init := ws[..|ws| - 1];
      var w := ws[|ws| - 1];
      assert ws == init + [w];
      RoseCountsRows(init);
      CellsAppend(init, w);
      SectorsAppend(init, w);
      if CellOf(w).Some? {
        SumBump(Cells(init), CellOf(w).value);
      }
      if DirSector(w.dir).Some? {
        SumBump(Sectors(init), DirSector(w.dir).value);
      }
    }
  }

  lemma {:induction false} SumZeros(n: nat)
    ensures Sum(seq(n, i => 0)) == 0
  {
    if n > 0 {
      assert seq(n, i => 0)[..n - 1] == seq(n - 1, i => 0);
      SumZeros(n - 1);
    }
  }

  /** A cell never counts more rows than its sector. */
  lemma {:induction false} CellWithinSector(ws: seq<Wind>, k: nat, j: nat)
    requires k < 16 && j < 4
    ensures CellCount(ws, 4 * k + j) <= SectorCount(ws, k)
    decreases |ws|
  {
    if |ws| > 0 {
      CellWithinSector(ws[..|ws| - 1], k, j);
    }
  }

  /** One pass over the slice, bumping the row's sector and cell, builds the
      same rose as the counts. */
  method TallyRose(ws: seq<Wind>) returns (r: Rose)
    ensures r == RoseOf(ws)
  {
    if |ws| == 0 {
      return Placeholder;
    }
    var sectors := seq(16, k => 0);
    var cells := seq(64, c => 0);
    var i := 0;
    while i < |ws|
      invariant 0 <= i <= |ws|
      invariant sectors == Sectors(ws[..i])
      invariant cells == Cells(ws[..i])
    {
      var w := ws[i];
      assert ws[..i + 1] == ws[..i] + [w];
      SectorsAppend(ws[..i], w);
      CellsAppend(ws[..i], w);
      var s := DirSector(w.dir);
      if s.Some? {
        sectors := sectors[s.value := sectors[s.value] + 1];
      }
      var c := CellOf(w);
      if c.Some? {
        cells := cells[c.value := cells[c.value] + 1];
      }
      i := i + 1;
    }
    assert ws[..|ws|] == ws;
    r := Rose(sectors, cells);
  }

  /** The rose callback: the hourly table filtered by the selector (or left
      whole when the active guard fails), drawn as a placeholder when the
      slice has no rows; a passed guard whose reference does not parse
      raises, and so does a passed year guard without a year. */
  function WindRoseView(s: seq<Reading>, sel: Selector, circ: seq<real> -> Angle): (r: Result<Rose, Fault>)
    ensures r.Err? <==> match sel.agg
      case D => sel.day.Some? && !Parses(sel.day.value)
      case M => sel.month.Some? && !Parses(sel.month.value)
      case Y => sel.month.Some? && (sel.year.None? || !YearParses(sel.year.value))
    ensures r == Err(MissingReference) <==> sel.agg == Y && sel.month.Some? && sel.year.None?
    ensures r.Ok? ==> r.value == RoseOf(Winds(HourlySlice(HourlyTable(s), sel, WindRose).value, circ))
    ensures r.Ok? ==> (r.value.Placeholder? <==> |HourlySlice(HourlyTable(s), sel, WindRose).value| == 0)
  {
    var t :- HourlySlice(HourlyTable(s), sel, WindRose);
    Ok(WindRoseOf(t, circ))
  }
}
