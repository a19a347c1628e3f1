/** pandas' `resample`: the buckets of one unit from the first to the last
    bucket holding a timed reading, gap buckets included, and the per-bucket
    aggregations `count`, `sum` and `mean` of a column. */
module Resampling {
  import opened Wrappers
  import opened Calendar
  import opened Stats
  import opened Readings

  /** A bucket of the resampler: its ordinal and the readings it holds. */
  datatype Group = Group(key: nat, members: seq<Reading>)

  /** The buckets with ordinals in [lo, hi], in order, empty ones included. */
  function Groups(s: seq<Reading>, u: Unit, lo: nat, hi: int): (g: seq<Group>)
    ensures |g| == if lo <= hi then hi - lo + 1 else 0
    decreases hi - lo
  {
    if hi < lo then [] else [Group(lo, Bucket(s, u, lo))] + Groups(s, u, lo + 1, hi)
  }

  lemma {:induction false} GroupAt(s: seq<Reading>, u: Unit, lo: nat, hi: int, i: int)
    requires 0 <= i <= hi - lo
    ensures Groups(s, u, lo, hi)[i] == Group(lo + i, Bucket(s, u, lo + i))
    decreases hi - lo
  {
    if i > 0 {
      GroupAt(s, u, lo + 1, hi, i - 1);
      assert lo + 1 + (i - 1) == lo + i;
    }
  }

  /** The group holds exactly the readings of the bucket its key names. */
  predicate IsBucketOf(s: seq<Reading>, u: Unit, g: Group) {
    g.members == Bucket(s, u, g.key)
  }

  /** The groups over [lo, hi] are the buckets lo, lo + 1, ..., hi in order. */
  lemma GroupsAreBuckets(s: seq<Reading>, u: Unit, lo: nat, hi: int)
    ensures var g := Groups(s, u, lo, hi);
      forall i :: 0 <= i < |g| ==> g[i].key == lo + i && IsBucketOf(s, u, g[i])
  {
    var g := Groups(s, u, lo, hi);
    forall i | 0 <= i < |g|
      ensures g[i].key == lo + i && IsBucketOf(s, u, g[i])
    {
      GroupAt(s, u, lo, hi, i);
    }
  }

  /** The column sums of a sequence of buckets, added up. */
  function GroupSums(g: seq<Group>, f: Field): real
    decreases |g|
  {
    if |g| == 0 then 0.0 else SumPresent(Column(g[0].members, f)) + GroupSums(g[1..], f)
  }

  /** The column counts of a sequence of buckets, added up. */
  function GroupCounts(g: seq<Group>, f: Field): nat
    decreases |g|
  {
    if |g| == 0 then 0 else CountPresent(Column(g[0].members, f)) + GroupCounts(g[1..], f)
  }

  /** Peeling the first bucket off the groups' sums. */
  lemma GroupSumsStep(s: seq<Reading>, u: Unit, f: Field, lo: nat, hi: int)
    requires lo <= hi
    ensures GroupSums(Groups(s, u, lo, hi), f) ==
      SumPresent(Column(Window(s, u, lo, lo + 1), f)) + GroupSums(Groups(s, u, lo + 1, hi), f)
  {
    var g := Groups(s, u, lo, hi);
    assert g[0] == Group(lo, Bucket(s, u, lo)) && g[1..] == Groups(s, u, lo + 1, hi);
  }

  /** Peeling the first bucket off the groups' counts. */
  lemma GroupCountsStep(s: seq<Reading>, u: Unit, f: Field, lo: nat, hi: int)
    requires lo <= hi
    ensures GroupCounts(Groups(s, u, lo, hi), f) ==
      CountPresent(Column(Window(s, u, lo, lo + 1), f)) + GroupCounts(Groups(s, u, lo + 1, hi), f)
  {
    var g := Groups(s, u, lo, hi);
    assert g[0] == Group(lo, Bucket(s, u, lo)) && g[1..] == Groups(s, u, lo + 1, hi);
  }

  /** One inductive step: the first bucket followed by the window of the
      rest is the whole window. */
  lemma GroupSumsCombine(s: seq<Reading>, u: Unit, f: Field, lo: nat, hi: int)
    requires lo <= hi
    requires GroupSums(Groups(s, u, lo + 1, hi), f) == SumPresent(Column(Window(s, u, lo + 1, hi + 1), f))
    ensures GroupSums(Groups(s, u, lo, hi), f) == SumPresent(Column(Window(s, u, lo, hi + 1), f))
  {
    GroupSumsStep(s, u, f, lo, hi);
    WindowSumSplit(s, u, f, lo, lo + 1, hi + 1);
  }

  lemma GroupCountsCombine(s: seq<Reading>, u: Unit, f: Field, lo: nat, hi: int)
    requires lo <= hi
    requires GroupCounts(Groups(s, u, lo + 1, hi), f) == CountPresent(Column(Window(s, u, lo + 1, hi + 1), f))
    ensures GroupCounts(Groups(s, u, lo, hi), f) == CountPresent(Column(Window(s, u, lo, hi + 1), f))
  {
    GroupCountsStep(s, u, f, lo, hi);
    WindowCountSplit(s, u, f, lo, lo + 1, hi + 1);
  }

  lemma {:induction false} GroupSumsAreWindowSum(s: seq<Reading>, u: Unit, f: Field, lo: nat, hi: int)
    requires lo <= hi + 1
    ensures GroupSums(Groups(s, u, lo, hi), f) == SumPresent(Column(Window(s, u, lo, hi + 1), f))
    decreases hi - lo
  {
    if hi < lo {
      EmptyWindow(s, u, lo, hi + 1);
    } else {
      GroupSumsAreWindowSum(s, u, f, lo + 1, hi);
      GroupSumsCombine(s, u, f, lo, hi);
    }
  }

  lemma {:induction false} GroupCountsAreWindowCount(s: seq<Reading>, u: Unit, f: Field, lo: nat, hi: int)
    requires lo <= hi + 1
    ensures GroupCounts(Groups(s, u, lo, hi), f) == CountPresent(Column(Window(s, u, lo, hi + 1), f))
    decreases hi - lo
  {
    if hi < lo {
      EmptyWindow(s, u, lo, hi + 1);
      assert Column(Window(s, u, lo, hi + 1), f) == [];
    } else {
      GroupCountsAreWindowCount(s, u, f, lo + 1, hi);
      GroupCountsCombine(s, u, f, lo, hi);
    }
  }

  /** Resampling loses nothing: when the ordinals [lo, hi] cover the table, the
      per-bucket sums of a column add up to the column's sum over all timed
      readings. */
  lemma GroupsConserveSum(s: seq<Reading>, u: Unit, f: Field, lo: nat, hi: int)
    requires lo <= hi + 1 && KeysWithin(s, u, lo, hi)
    ensures GroupSums(Groups(s, u, lo, hi), f) == SumPresent(Column(Timed(s), f))
  {
    GroupSumsAreWindowSum(s, u, f, lo, hi);
    WindowCoversTimed(s, u, lo, hi + 1);
  }

  /** Likewise the per-bucket counts of a column add up to its count over all
      timed readings. */
  lemma GroupsConserveCount(s: seq<Reading>, u: Unit, f: Field, lo: nat, hi: int)
    requires lo <= hi + 1 && KeysWithin(s, u, lo, hi)
    ensures GroupCounts(Groups(s, u, lo, hi), f) == CountPresent(Column(Timed(s), f))
  {
    GroupCountsAreWindowCount(s, u, f, lo, hi);
    WindowCoversTimed(s, u, lo, hi + 1);
  }

  /** The aggregation functions the dashboard's resamplers use. */
  datatype Agg = Count | Sum | Mean

  /** Column `f` of a bucket aggregated with `a`: the count of non-missing
      values, their sum (0.0 when there is none) or their mean (missing when
      there is none). */
  function Aggregate(g: Group, f: Field, a: Agg): Option<real> {
    var c := Column(g.members, f);
    match a
    case Count => Some(CountPresent(c) as real)
    case Sum => Some(SumPresent(c))
    case Mean => MeanPresent(c)
  }

  /** A column of a resampled frame. */
  function AggColumn(gs: seq<Group>, f: Field, a: Agg): (c: seq<Option<real>>)
    ensures |c| == |gs|
    ensures forall i :: 0 <= i < |gs| ==> c[i] == Aggregate(gs[i], f, a)
  {
    seq(|gs|, i requires 0 <= i < |gs| => Aggregate(gs[i], f, a))
  }

  /** The buckets' column sums, as a column. */
  function SumsColumn(gs: seq<Group>, f: Field): (c: seq<Option<real>>)
    ensures |c| == |gs|
  {
    seq(|gs|, i requires 0 <= i < |gs| => Some(SumPresent(Column(gs[i].members, f))))
  }

  /** The buckets' column counts, as a column. */
  function CountsColumn(gs: seq<Group>, f: Field): (c: seq<Option<real>>)
    ensures |c| == |gs|
  {
    seq(|gs|, i requires 0 <= i < |gs| => Some(CountPresent(Column(gs[i].members, f)) as real))
  }

  lemma ColumnsCons(gs: seq<Group>, f: Field)
    requires |gs| > 0
    ensures SumsColumn(gs, f) == [Some(SumPresent(Column(gs[0].members, f)))] + SumsColumn(gs[1..], f)
    ensures CountsColumn(gs, f) == [Some(CountPresent(Column(gs[0].members, f)) as real)] + CountsColumn(gs[1..], f)
  {
  }

  lemma {:induction false} SumsColumnAddsUp(gs: seq<Group>, f: Field)
    ensures SumPresent(SumsColumn(gs, f)) == GroupSums(gs, f)
    decreases |gs|
  {
    if |gs| > 0 {
      SumsColumnAddsUp(gs[1..], f);
      ColumnsCons(gs, f);
      SumPresentCons(Some(SumPresent(Column(gs[0].members, f))), SumsColumn(gs[1..], f));
    }
  }

  lemma {:induction false} CountsColumnAddsUp(gs: seq<Group>, f: Field)
    ensures SumPresent(CountsColumn(gs, f)) == GroupCounts(gs, f) as real
    decreases |gs|
  {
    if |gs| > 0 {
      CountsColumnAddsUp(gs[1..], f);
      ColumnsCons(gs, f);
      SumPresentCons(Some(CountPresent(Column(gs[0].members, f)) as real), CountsColumn(gs[1..], f));
    }
  }

  /** A bucket's mean of a column is missing exactly when none of its
      readings has a value there, and otherwise lies between their least and
      greatest value. */
  lemma MeanWithinMembers(g: Group, f: Field)
    ensures var c := Column(g.members, f);
      && (Aggregate(g, f, Mean).None? <==> forall j :: 0 <= j < |c| ==> c[j].None?)
      && (Aggregate(g, f, Mean).Some? ==>
            MinPresent(c).value <= Aggregate(g, f, Mean).value <= MaxPresent(c).value)
  {
    CountZeroIffAllMissing(Column(g.members, f));
  }

  /** The summed column of a frame adds up to the buckets' sums. */
  lemma AggColumnSums(gs: seq<Group>, f: Field)
    ensures SumPresent(AggColumn(gs, f, Sum)) == GroupSums(gs, f)
  {
    assert AggColumn(gs, f, Sum) == SumsColumn(gs, f);
    SumsColumnAddsUp(gs, f);
  }

  /** The counted column of a frame adds up to the buckets' counts. */
  lemma AggColumnCounts(gs: seq<Group>, f: Field)
    ensures SumPresent(AggColumn(gs, f, Count)) == GroupCounts(gs, f) as real
  {
    assert AggColumn(gs, f, Count) == CountsColumn(gs, f);
    CountsColumnAddsUp(gs, f);
  }

  /** `resample(u)` of a table: one bucket for every ordinal from the first to
      the last bucket holding a reading with a valid timestamp. */
  function Resample(s: seq<Reading>, u: Unit): seq<Group> {
    var sp := Span(s, u);
    if sp.None? then [] else Groups(s, u, sp.value.0, sp.value.1)
  }

  lemma ResampleSpans(s: seq<Reading>, u: Unit, lo: nat, hi: nat)
    requires Span(s, u) == Some((lo, hi))
    ensures lo <= hi && Resample(s, u) == Groups(s, u, lo, hi)
  {
  }

  /** The frame is empty exactly when no reading has a valid timestamp. */
  lemma ResampleEmptyIff(s: seq<Reading>, u: Unit)
    ensures |Resample(s, u)| == 0 <==> forall j :: 0 <= j < |s| ==> TimeOf(s[j]).None?
  {
    var sp := Span(s, u);
    if sp.Some? {
      ResampleSpans(s, u, sp.value.0, sp.value.1);
    }
  }

  /** The buckets are those of consecutive ordinals, starting at the first
      ordinal holding a reading, each with exactly its own readings. */
  lemma ResampleRows(s: seq<Reading>, u: Unit)
    ensures var r := Resample(s, u);
      && (|r| > 0 ==> Span(s, u) == Some((r[0].key, r[|r| - 1].key)))
      && forall i :: 0 <= i < |r| ==> r[i].key == r[0].key + i && IsBucketOf(s, u, r[i])
  {
    var sp := Span(s, u);
    if sp.Some? {
      var lo, hi := sp.value.0, sp.value.1;
      ResampleSpans(s, u, lo, hi);
      var r := Groups(s, u, lo, hi);
      GroupsAreBuckets(s, u, lo, hi);
      assert r[0].key == lo && r[|r| - 1].key == hi;
    }
  }

  /** A bucket holds exactly the readings pandas labels with its label. */
  lemma BucketGroupIsLabelled(s: seq<Reading>, u: Unit, g: Group)
    requires IsBucketOf(s, u, g)
    ensures g.members == Labelled(s, u, Label(g.key, u))
  {
    BucketIsLabelled(s, u, g.key);
  }

  /** Resampling conserves sums: the summed column of the frame adds up to
      the column's sum over all timed readings. */
  lemma ResampleConservesSum(s: seq<Reading>, u: Unit, f: Field)
    ensures SumPresent(AggColumn(Resample(s, u), f, Sum)) == SumPresent(Column(Timed(s), f))
  {
    var sp := Span(s, u);
    AggColumnSums(Resample(s, u), f);
    if sp.None? {
      NothingTimed(s);
    } else {
      ResampleSpans(s, u, sp.value.0, sp.value.1);
      GroupsConserveSum(s, u, f, sp.value.0, sp.value.1);
    }
  }

  /** Likewise for counts. */
  lemma ResampleConservesCount(s: seq<Reading>, u: Unit, f: Field)
    ensures SumPresent(AggColumn(Resample(s, u), f, Count)) == CountPresent(Column(Timed(s), f)) as real
  {
    var sp := Span(s, u);
    AggColumnCounts(Resample(s, u), f);
    if sp.None? {
      NothingTimed(s);
    } else {
      ResampleSpans(s, u, sp.value.0, sp.value.1);
      GroupsConserveCount(s, u, f, sp.value.0, sp.value.1);
    }
  }

  /** A table without timed readings has nothing to aggregate. */
  lemma {:induction false} NothingTimed(s: seq<Reading>)
    requires forall j :: 0 <= j < |s| ==> TimeOf(s[j]).None?
    ensures Timed(s) == []
    decreases |s|
  {
    if |s| > 0 {
      var init := s[..|s| - 1];
      assert forall j :: 0 <= j < |init| ==> init[j] == s[j];
      NothingTimed(init);
    }
  }
}
