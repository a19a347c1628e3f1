/** The station's normalised table and the bucketing behind every pandas
    `resample` in the dashboard: each reading with a valid timestamp gets the
    ordinal of its hour, day or month, and the buckets are the readings sharing
    an ordinal. Readings whose timestamp did not parse (NaT) belong to no
    bucket. */
module Readings {
  import opened Wrappers
  import opened Calendar
  import opened Stats

  /** One row of the logger table after the three unused columns were dropped
      and every numeric column was cast to float (missing cells are None). */
  datatype Reading = Reading(
    ts: Option<Timestamp>,
    record: Option<real>,
    windDir: Option<real>,
    windSpeed: Option<real>,
    airTemp: Option<real>,
    humidity: Option<real>,
    pressure: Option<real>,
    rainAvg: Option<real>,
    rainTotal: Option<real>,
    solar: Option<real>)

  /** The numeric columns: RECORD, WindDir, WS_ms_Avg, AirTC_Avg, RH_Avg,
      BP_mbar_Avg, Rain_mm_Avg, Rain_mm_2_Tot and SlrkW_Avg. */
  datatype Field = Record | WindDir | WindSpeed | AirTemp | Humidity | Pressure | RainAvg | RainTotal | Solar

  function Get(r: Reading, f: Field): Option<real> {
    match f
    case Record => r.record
    case WindDir => r.windDir
    case WindSpeed => r.windSpeed
    case AirTemp => r.airTemp
    case Humidity => r.humidity
    case Pressure => r.pressure
    case RainAvg => r.rainAvg
    case RainTotal => r.rainTotal
    case Solar => r.solar
  }

  /** One column of a table, in row order. */
  function Column(s: seq<Reading>, f: Field): (c: seq<Option<real>>)
    ensures |c| == |s|
    ensures forall i :: 0 <= i < |s| ==> c[i] == Get(s[i], f)
  {
    seq(|s|, i requires 0 <= i < |s| => Get(s[i], f))
  }

  lemma ColumnAppend(s: seq<Reading>, r: Reading, f: Field)
    ensures Column(s + [r], f) == Column(s, f) + [Get(r, f)]
  {
  }

  /** The timestamp as the coercing parse leaves it: a string that is not a
      valid civil time, or one outside the range pandas can represent,
      becomes NaT; every other timestamp is kept as it is. */
  function TimeOf(r: Reading): (t: Option<Timestamp>)
    ensures t.Some? <==> r.ts.Some? && ValidTimestamp(r.ts.value) && InNanosecondRange(r.ts.value)
    ensures t.Some? ==> t == r.ts && ValidTimestamp(t.value)
  {
    if r.ts.Some? && ValidTimestamp(r.ts.value) && InNanosecondRange(r.ts.value) then r.ts else None
  }

  /** The edges of the representable range: the last whole second before it
      and the first one after it are NaT, the first and last whole seconds in
      it are kept. */
  lemma NanosecondRangeEdges(r: Reading)
    ensures r.ts == Some(Timestamp(Date(1677, 9, 21), 0, 12, 43)) ==> TimeOf(r).None?
    ensures r.ts == Some(Timestamp(Date(1677, 9, 21), 0, 12, 44)) ==> TimeOf(r) == r.ts
    ensures r.ts == Some(Timestamp(Date(2262, 4, 11), 23, 47, 16)) ==> TimeOf(r) == r.ts
    ensures r.ts == Some(Timestamp(Date(2262, 4, 11), 23, 47, 17)) ==> TimeOf(r).None?
  {
  }

  /** The ordinal of the bucket of unit `u` the reading falls in; None for NaT. */
  function BucketKey(r: Reading, u: Unit): (k: Option<int>)
    ensures k.Some? <==> TimeOf(r).Some?
    ensures k.Some? ==> k.value >= 0
  {
    if TimeOf(r).Some? then Some(Key(TimeOf(r).value, u)) else None
  }

  /** The readings with a valid timestamp, in order. */
  function Timed(s: seq<Reading>): (r: seq<Reading>)
    ensures forall x :: x in r <==> x in s && TimeOf(x).Some?
    decreases |s|
  {
    if |s| == 0 then []
    else
      var init := s[..|s| - 1];
      assert s == init + [s[|s| - 1]];
      Timed(init) + (if TimeOf(s[|s| - 1]).Some? then [s[|s| - 1]] else [])
  }

  predicate InWindow(r: Reading, u: Unit, lo: int, hi: int) {
    BucketKey(r, u).Some? && lo <= BucketKey(r, u).value < hi
  }

  /** The readings whose bucket ordinal lies in [lo, hi), in order. */
  function Window(s: seq<Reading>, u: Unit, lo: int, hi: int): seq<Reading>
    decreases |s|
  {
    if |s| == 0 then []
    else
      var init := s[..|s| - 1];
      var last := s[|s| - 1];
      assert s == init + [last];
      Window(init, u, lo, hi) + (if InWindow(last, u, lo, hi) then [last] else [])
  }

  /** The readings of the bucket with ordinal `o`. */
  function Bucket(s: seq<Reading>, u: Unit, o: int): seq<Reading> {
    Window(s, u, o, o + 1)
  }

  /** The readings whose pandas label for unit `u` is `stamp`, in order; this
      is the bucket as the resampler describes it, without ordinals. */
  function Labelled(s: seq<Reading>, u: Unit, stamp: Timestamp): (r: seq<Reading>)
    ensures forall x :: x in r <==> x in s && TimeOf(x).Some? && Floor(TimeOf(x).value, u) == stamp
    decreases |s|
  {
    if |s| == 0 then []
    else
      var init := s[..|s| - 1];
      var last := s[|s| - 1];
      assert s == init + [last];
      Labelled(init, u, stamp) + (if TimeOf(last).Some? && Floor(TimeOf(last).value, u) == stamp then [last] else [])
  }

  /** Every timed reading's bucket ordinal lies in [lo, hi]. */
  predicate KeysWithin(s: seq<Reading>, u: Unit, lo: int, hi: int) {
    forall i :: 0 <= i < |s| && BucketKey(s[i], u).Some? ==> lo <= BucketKey(s[i], u).value <= hi
  }

  /** Some reading of the table falls in the bucket with ordinal `k`. */
  predicate Attains(s: seq<Reading>, u: Unit, k: int) {
    exists i :: 0 <= i < |s| && BucketKey(s[i], u) == Some(k)
  }

  /** The first and last bucket ordinal of the table: what `resample` spans.
      None exactly when no reading has a valid timestamp. */
  function Span(s: seq<Reading>, u: Unit): (r: Option<(int, int)>)
    ensures r.None? <==> forall i :: 0 <= i < |s| ==> TimeOf(s[i]).None?
    ensures r.Some? ==> 0 <= r.value.0 <= r.value.1 && KeysWithin(s, u, r.value.0, r.value.1)
    ensures r.Some? ==> Attains(s, u, r.value.0) && Attains(s, u, r.value.1)
    decreases |s|
  {
    if |s| == 0 then None
    else
      var init := s[..|s| - 1];
      var last := s[|s| - 1];
      assert forall i :: 0 <= i < |init| ==> init[i] == s[i];
      var rest := Span(init, u);
      match BucketKey(last, u)
      case None => rest
      case Some(k) =>
        if rest.None? then Some((k, k))
        else
          var lo := if k < rest.value.0 then k else rest.value.0;
          var hi := if k > rest.value.1 then k else rest.value.1;
          Some((lo, hi))
  }

  /** The bucket with ordinal `o` is exactly the readings pandas labels with
      the label of `o`. */
  lemma {:induction false} BucketIsLabelled(s: seq<Reading>, u: Unit, o: int)
    requires o >= 0
    ensures Bucket(s, u, o) == Labelled(s, u, Label(o, u))
    decreases |s|
  {
    if |s| > 0 {
      var init := s[..|s| - 1];
      var last := s[|s| - 1];
      BucketIsLabelled(init, u, o);
      if TimeOf(last).Some? {
        var t := TimeOf(last).value;
        LabelOfKey(t, u);
        SameBucket(t, Label(o, u), u);
        LabelOfKey(Label(o, u), u);
      }
    }
  }

  /** When every key lies in [lo, hi), the window is all the timed readings. */
  lemma {:induction false} WindowCoversTimed(s: seq<Reading>, u: Unit, lo: int, hi: int)
    requires forall i :: 0 <= i < |s| && BucketKey(s[i], u).Some? ==> lo <= BucketKey(s[i], u).value < hi
    ensures Window(s, u, lo, hi) == Timed(s)
    decreases |s|
  {
    if |s| > 0 {
      var init := s[..|s| - 1];
      assert forall i :: 0 <= i < |init| ==> init[i] == s[i];
      WindowCoversTimed(init, u, lo, hi);
    }
  }

  lemma WindowUnfold(s: seq<Reading>, u: Unit, lo: int, hi: int)
    requires |s| > 0
    ensures InWindow(s[|s| - 1], u, lo, hi) ==> Window(s, u, lo, hi) == Window(s[..|s| - 1], u, lo, hi) + [s[|s| - 1]]
    ensures !InWindow(s[|s| - 1], u, lo, hi) ==> Window(s, u, lo, hi) == Window(s[..|s| - 1], u, lo, hi)
  {
  }

  lemma {:induction false} EmptyWindow(s: seq<Reading>, u: Unit, lo: int, hi: int)
    requires hi <= lo
    ensures Window(s, u, lo, hi) == []
    decreases |s|
  {
    if |s| > 0 {
      EmptyWindow(s[..|s| - 1], u, lo, hi);
    }
  }

  /** A window splits into two adjacent windows as far as column sums go. */
  lemma {:induction false} WindowSumSplit(s: seq<Reading>, u: Unit, f: Field, a: int, b: int, c: int)
    requires a <= b <= c
    ensures SumPresent(Column(Window(s, u, a, c), f))
      == SumPresent(Column(Window(s, u, a, b), f)) + SumPresent(Column(Window(s, u, b, c), f))
    decreases |s|
  {
    if |s| > 0 {
      var init := s[..|s| - 1];
      var last := s[|s| - 1];
      WindowSumSplit(init, u, f, a, b, c);
      var k := BucketKey(last, u);
      WindowUnfold(s, u, a, c);
      WindowUnfold(s, u, a, b);
      WindowUnfold(s, u, b, c);
      if InWindow(last, u, a, c) {
        WindowSumAppend(init, last, u, f, a, c);
        if k.value < b {
          WindowSumAppend(init, last, u, f, a, b);
        } else {
          WindowSumAppend(init, last, u, f, b, c);
        }
      }
    }
  }

  lemma WindowSumAppend(init: seq<Reading>, last: Reading, u: Unit, f: Field, lo: int, hi: int)
    ensures SumPresent(Column(Window(init, u, lo, hi) + [last], f))
      == SumPresent(Column(Window(init, u, lo, hi), f)) + OrZero(Get(last, f))
  {
    ColumnAppend(Window(init, u, lo, hi), last, f);
    SumPresentAppend(Column(Window(init, u, lo, hi), f), Get(last, f));
  }

  /** A window splits into two adjacent windows as far as column counts go. */
  lemma {:induction false} WindowCountSplit(s: seq<Reading>, u: Unit, f: Field, a: int, b: int, c: int)
    requires a <= b <= c
    ensures CountPresent(Column(Window(s, u, a, c), f))
      == CountPresent(Column(Window(s, u, a, b), f)) + CountPresent(Column(Window(s, u, b, c), f))
    decreases |s|
  {
    if |s| > 0 {
      var init := s[..|s| - 1];
      var last := s[|s| - 1];
      WindowCountSplit(init, u, f, a, b, c);
      var k := BucketKey(last, u);
      WindowUnfold(s, u, a, c);
      WindowUnfold(s, u, a, b);
      WindowUnfold(s, u, b, c);
      if InWindow(last, u, a, c) {
        WindowCountAppend(init, last, u, f, a, c);
        if k.value < b {
          WindowCountAppend(init, last, u, f, a, b);
        } else {
          WindowCountAppend(init, last, u, f, b, c);
        }
      }
    }
  }

  lemma WindowCountAppend(init: seq<Reading>, last: Reading, u: Unit, f: Field, lo: int, hi: int)
    ensures CountPresent(Column(Window(init, u, lo, hi) + [last], f))
      == CountPresent(Column(Window(init, u, lo, hi), f)) + (if Get(last, f).Some? then 1 else 0)
  {
    ColumnAppend(Window(init, u, lo, hi), last, f);
    CountPresentAppend(Column(Window(init, u, lo, hi), f), Get(last, f));
  }
}
