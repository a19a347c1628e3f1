/** Column statistics with pandas' NaN-skipping semantics: `count`, `sum`,
    `mean`, `min` and `max` over a column whose entries may be missing. An
    all-missing column counts 0 and sums to 0.0 (pandas' `min_count=0`), while
    its mean, minimum and maximum are missing. */
module Stats {
  import opened Wrappers

  function OrZero(v: Option<real>): real {
    if v.Some? then v.value else 0.0
  }

  /** The non-missing entries of a column, in order. */
  function Present(xs: seq<Option<real>>): (ys: seq<real>)
    ensures |ys| == CountPresent(xs)
    ensures forall y :: y in ys <==> Some(y) in xs
    decreases |xs|
  {
    if |xs| == 0 then []
    else
      var init := xs[..|xs| - 1];
      assert xs == init + [xs[|xs| - 1]];
      Present(init) + (if xs[|xs| - 1].Some? then [xs[|xs| - 1].value] else [])
  }

  /** pandas `count`: the number of non-missing entries. */
  function CountPresent(xs: seq<Option<real>>): (n: nat)
    ensures n <= |xs|
    decreases |xs|
  {
    if |xs| == 0 then 0
    else CountPresent(xs[..|xs| - 1]) + (if xs[|xs| - 1].Some? then 1 else 0)
  }

  /** A column counts no entry exactly when every entry is missing. */
  lemma {:induction false} CountZeroIffAllMissing(xs: seq<Option<real>>)
    ensures CountPresent(xs) == 0 <==> forall i :: 0 <= i < |xs| ==> xs[i].None?
    decreases |xs|
  {
    if |xs| > 0 {
      var init := xs[..|xs| - 1];
      assert forall i :: 0 <= i < |init| ==> init[i] == xs[i];
      CountZeroIffAllMissing(init);
    }
  }

  /** pandas `sum`: missing entries are skipped, an empty sum is 0.0. */
  function SumPresent(xs: seq<Option<real>>): real
    decreases |xs|
  {
    if |xs| == 0 then 0.0 else SumPresent(xs[..|xs| - 1]) + OrZero(xs[|xs| - 1])
  }

  /** pandas `min`: the least non-missing entry, missing when there is none. */
  function MinPresent(xs: seq<Option<real>>): (m: Option<real>)
    ensures m.None? <==> CountPresent(xs) == 0
    ensures m.Some? ==> m in xs
    ensures m.Some? ==> forall i :: 0 <= i < |xs| && xs[i].Some? ==> m.value <= xs[i].value
    decreases |xs|
  {
    if |xs| == 0 then None
    else
      var init := xs[..|xs| - 1];
      var last := xs[|xs| - 1];
      assert forall i :: 0 <= i < |init| ==> init[i] == xs[i];
      var rest := MinPresent(init);
      CountZeroIffAllMissing(init);
      if last.None? then rest
      else if rest.None? || last.value < rest.value then last
      else rest
  }

  /** pandas `max`: the greatest non-missing entry, missing when there is none. */
  function MaxPresent(xs: seq<Option<real>>): (m: Option<real>)
    ensures m.None? <==> CountPresent(xs) == 0
    ensures m.Some? ==> m in xs
    ensures m.Some? ==> forall i :: 0 <= i < |xs| && xs[i].Some? ==> xs[i].value <= m.value
    decreases |xs|
  {
    if |xs| == 0 then None
    else
      var init := xs[..|xs| - 1];
      var last := xs[|xs| - 1];
      assert forall i :: 0 <= i < |init| ==> init[i] == xs[i];
      var rest := MaxPresent(init);
      CountZeroIffAllMissing(init);
      if last.None? then rest
      else if rest.None? || last.value > rest.value then last
      else rest
  }

  /** `n` copies of `x` added up, i.e. `n * x` without a multiplication. */
  function Scale(n: nat, x: real): real {
    if n == 0 then 0.0 else Scale(n - 1, x) + x
  }

  lemma {:induction false} ScaleIsProduct(n: nat, x: real)
    ensures Scale(n, x) == n as real * x
  {
    if n > 0 {
      ScaleIsProduct(n - 1, x);
      MulStep((n - 1) as real, x);
    }
  }

  lemma MulStep(n: real, x: real)
    ensures (n + 1.0) * x == n * x + x
  {
  }

  /** A quotient of a sum by its positive count lies between the bounds the
      summands lie in. */
  lemma QuotientWithin(s: real, c: real, lo: real, hi: real)
    requires c > 0.0 && c * lo <= s <= c * hi
    ensures lo <= s / c <= hi
  {
    assert s / c * c == s;
  }

  /** A sum of `n` entries that all lie in [lo, hi] lies in [n * lo, n * hi]. */
  lemma {:induction false} SumWithin(xs: seq<Option<real>>, lo: real, hi: real)
    requires forall i :: 0 <= i < |xs| && xs[i].Some? ==> lo <= xs[i].value <= hi
    ensures Scale(CountPresent(xs), lo) <= SumPresent(xs) <= Scale(CountPresent(xs), hi)
    decreases |xs|
  {
    if |xs| > 0 {
      var init := xs[..|xs| - 1];
      assert forall i :: 0 <= i < |init| ==> init[i] == xs[i];
      SumWithin(init, lo, hi);
    }
  }

  /** The quotient of a column's sum by its count lies between its minimum
      and its maximum. */
  lemma QuotientBetweenExtremes(xs: seq<Option<real>>)
    requires CountPresent(xs) > 0
    ensures MinPresent(xs).value <= SumPresent(xs) / CountPresent(xs) as real <= MaxPresent(xs).value
  {
    var n := CountPresent(xs);
    var lo := MinPresent(xs).value;
    var hi := MaxPresent(xs).value;
    SumWithin(xs, lo, hi);
    ScaledQuotient(n, SumPresent(xs), lo, hi);
  }

  lemma ScaledQuotient(n: nat, s: real, lo: real, hi: real)
    requires n > 0 && Scale(n, lo) <= s <= Scale(n, hi)
    ensures lo <= s / n as real <= hi
  {
    ScaleIsProduct(n, lo);
    ScaleIsProduct(n, hi);
    QuotientWithin(s, n as real, lo, hi);
  }

  /** `s / n` for a positive count: the value that, added up `n` times,
      gives `s`. */
  function Quotient(s: real, n: nat): (q: real)
    requires n > 0
    ensures Scale(n, q) == s
  {
    ScaleIsProduct(n, s / n as real);
    s / n as real
  }

  /** The mean of a column lies between its minimum and its maximum. */
  lemma QuotientWithinExtremes(xs: seq<Option<real>>)
    requires CountPresent(xs) > 0
    ensures MinPresent(xs).value <= Quotient(SumPresent(xs), CountPresent(xs)) <= MaxPresent(xs).value
  {
    QuotientBetweenExtremes(xs);
  }

  /** pandas `mean`: the sum over the count of non-missing entries; missing
      when there is none. Added up once per non-missing entry the mean gives
      back the sum, and it lies between the column's minimum and maximum. */
  function MeanPresent(xs: seq<Option<real>>): (m: Option<real>)
    ensures m.None? <==> CountPresent(xs) == 0
    ensures m.Some? ==> Scale(CountPresent(xs), m.value) == SumPresent(xs)
    ensures m.Some? ==> MinPresent(xs).value <= m.value <= MaxPresent(xs).value
  {
    var n := CountPresent(xs);
    if n == 0 then None
    else
      QuotientWithinExtremes(xs);
      Some(Quotient(SumPresent(xs), n))
  }

  lemma SumPresentAppend(xs: seq<Option<real>>, v: Option<real>)
    ensures SumPresent(xs + [v]) == SumPresent(xs) + OrZero(v)
  {
    assert (xs + [v])[..|xs|] == xs;
  }

  lemma CountPresentAppend(xs: seq<Option<real>>, v: Option<real>)
    ensures CountPresent(xs + [v]) == CountPresent(xs) + (if v.Some? then 1 else 0)
  {
    assert (xs + [v])[..|xs|] == xs;
  }

  /** Summing from the front agrees with summing from the back. */
  lemma {:induction false} SumPresentCons(v: Option<real>, xs: seq<Option<real>>)
    ensures SumPresent([v] + xs) == OrZero(v) + SumPresent(xs)
    decreases |xs|
  {
    if |xs| > 0 {
      var init := xs[..|xs| - 1];
      assert ([v] + xs)[..|xs|] == [v] + init;
      SumPresentCons(v, init);
    }
  }
}
