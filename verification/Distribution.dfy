/** The six-number summary of a sample with its Tukey fences, over exact reals. */
module Distribution {
  import opened Options
  import opened Sorting

  datatype SixStats = SixStats(
    mean: real, median: real, q1: real, q3: real, min: real, max: real, fenceLow: real, fenceHigh: real)

  ghost predicate Ascending(s: seq<real>) {
    forall i, j :: 0 <= i < j < |s| ==> s[i] <= s[j]
  }

  /** The fractional rank of a probability. */
  function Rank(n: nat, p: real): real {
    (n as real - 1.0) * p
  }

  /** The index above a rank, within the sample. */
  function UpperIndex(n: nat, h: real): int {
    if h.Floor + 1 < n - 1 then h.Floor + 1 else n - 1
  }

  /** A fraction of a step away from `a`. */
  function Blend(a: real, step: real, f: real): real {
    a + f * step
  }

  lemma BlendBetween(a: real, step: real, f: real)
    requires 0.0 <= step && 0.0 <= f <= 1.0
    ensures a <= Blend(a, step, f) <= a + step
  {
    Scale(f, step);
  }

  lemma BlendMonotone(a: real, step: real, f: real, g: real)
    requires 0.0 <= step && f <= g
    ensures Blend(a, step, f) <= Blend(a, step, g)
  {
    Scale2(f, g, step);
  }

  /** A value between the two observations around a fractional rank, in proportion. */
  function Interpolate(sorted: seq<real>, h: real): real
    requires 0 <= h.Floor < |sorted|
  {
    Blend(sorted[h.Floor], sorted[UpperIndex(|sorted|, h)] - sorted[h.Floor], h - h.Floor as real)
  }

  /** R-7: linear between the observations on either side. */
  function R7Quantile(sorted: seq<real>, p: real): real
    requires |sorted| > 0 && 0.0 <= p <= 1.0
  {
    if |sorted| == 1 then sorted[0]
    else
      RankInRange(|sorted|, p);
      Interpolate(sorted, Rank(|sorted|, p))
  }

  lemma RankInRange(n: nat, p: real)
    requires n > 0 && 0.0 <= p <= 1.0
    ensures 0.0 <= Rank(n, p) <= n as real - 1.0
    ensures 0 <= Rank(n, p).Floor <= n - 1
  {
    RankMonotone(n, 0.0, p);
    RankMonotone(n, p, 1.0);
    FloorInRange(Rank(n, p), n - 1);
  }

  lemma RankMonotone(n: nat, p: real, q: real)
    requires n > 0 && p <= q
    ensures Rank(n, p) <= Rank(n, q)
  {
    Scale2(p, q, n as real - 1.0);
    assert Rank(n, p) == p * (n as real - 1.0);
    assert Rank(n, q) == q * (n as real - 1.0);
  }

  lemma FloorInRange(h: real, m: int)
    requires 0.0 <= h <= m as real
    ensures 0 <= h.Floor <= m
  {
  }

  lemma Scale(f: real, d: real)
    requires 0.0 <= f <= 1.0 && d >= 0.0
    ensures 0.0 <= f * d <= d
  {
    Scale2(0.0, f, d);
    Scale2(f, 1.0, d);
  }

  lemma Scale2(f: real, g: real, d: real)
    requires f <= g && d >= 0.0
    ensures f * d <= g * d
  {
    assert (g - f) * d == g * d - f * d;
    assert (g - f) * d >= 0.0;
  }

  lemma InterpolateBetween(s: seq<real>, h: real)
    requires Ascending(s) && 0 <= h.Floor < |s|
    ensures s[h.Floor] <= Interpolate(s, h) <= s[UpperIndex(|s|, h)]
  {
    hide Blend;
    BlendBetween(s[h.Floor], s[UpperIndex(|s|, h)] - s[h.Floor], h - h.Floor as real);
  }

  lemma InterpolateMonotone(s: seq<real>, h: real, g: real)
    requires Ascending(s) && 0 <= h.Floor && h <= g && g.Floor < |s|
    ensures Interpolate(s, h) <= Interpolate(s, g)
  {
    hide Blend;
    if h.Floor == g.Floor {
      BlendMonotone(s[h.Floor], s[UpperIndex(|s|, h)] - s[h.Floor], h - h.Floor as real, g - h.Floor as real);
    } else {
      InterpolateBetween(s, h);
      InterpolateBetween(s, g);
    }
  }

  /** A quantile lies between the two observations it interpolates. */
  lemma QuantileBetween(s: seq<real>, p: real)
    requires |s| > 0 && Ascending(s) && 0.0 <= p <= 1.0
    ensures var lo := Rank(|s|, p).Floor; var hi := UpperIndex(|s|, Rank(|s|, p));
            0 <= lo < |s| && 0 <= hi < |s| && s[lo] <= R7Quantile(s, p) <= s[hi]
  {
    hide Rank, Interpolate;
    RankInRange(|s|, p);
    if |s| > 1 {
      InterpolateBetween(s, Rank(|s|, p));
    }
  }

  /** Quantiles grow with the probability. */
  lemma QuantileMonotone(s: seq<real>, p: real, q: real)
    requires |s| > 0 && Ascending(s) && 0.0 <= p <= q <= 1.0
    ensures R7Quantile(s, p) <= R7Quantile(s, q)
  {
    hide Rank, Interpolate;
    RankInRange(|s|, p);
    RankInRange(|s|, q);
    RankMonotone(|s|, p, q);
    if |s| > 1 {
      InterpolateMonotone(s, Rank(|s|, p), Rank(|s|, q));
    }
  }

  /** The extreme quantiles are the extreme observations. */
  lemma QuantileEnds(s: seq<real>)
    requires |s| > 0
    ensures R7Quantile(s, 0.0) == s[0] && R7Quantile(s, 1.0) == s[|s| - 1]
  {
    var n := |s|;
    assert Rank(n, 1.0) == (n - 1) as real && Rank(n, 0.0) == 0.0;
    RankInRange(n, 0.0);
    RankInRange(n, 1.0);
    BlendNothing(s[0], s[UpperIndex(n, 0.0)] - s[0]);
    BlendNothing(s[n - 1], s[n - 1] - s[n - 1]);
    hide Rank, Blend;
  }

  lemma BlendNothing(a: real, step: real)
    ensures Blend(a, step, 0.0) == a
  {
  }

  /** At a whole rank the quantile is the observation of that rank. */
  lemma QuantileAtRank(s: seq<real>, p: real, k: nat)
    requires |s| > 0 && 0.0 <= p <= 1.0 && k < |s| && Rank(|s|, p) == k as real
    ensures R7Quantile(s, p) == s[k]
  {
    BlendNothing(s[k], s[UpperIndex(|s|, k as real)] - s[k]);
  }

  /** The median is the middle observation, or the mean of the middle two. */
  lemma MedianIsMiddle(s: seq<real>, k: nat)
    ensures |s| == 2 * k + 1 ==> R7Quantile(s, 0.5) == s[k]
    ensures |s| == 2 * k + 2 ==> R7Quantile(s, 0.5) == (s[k] + s[k + 1]) / 2.0
  {
    if |s| == 2 * k + 1 {
      QuantileAtRank(s, 0.5, k);
    } else if |s| == 2 * k + 2 {
      HalfRank(k);
      BlendHalf(s[k], s[k + 1]);
      hide Rank, Blend;
    }
  }

  lemma HalfRank(k: nat)
    ensures Rank(2 * k + 2, 0.5) == k as real + 0.5 && Rank(2 * k + 2, 0.5).Floor == k
  {
  }

  lemma BlendHalf(a: real, b: real)
    ensures Blend(a, b - a, 0.5) == (a + b) / 2.0
  {
  }

  // ---------------------------------------------------------------------------
  // Fences

  /** The first observation at or above a bound. */
  function FirstAtLeast(sorted: seq<real>, bound: real, otherwise: real): real {
    if sorted == [] then otherwise
    else if sorted[0] >= bound then sorted[0]
    else FirstAtLeast(sorted[1..], bound, otherwise)
  }

  /** The last observation at or below a bound. */
  function LastAtMost(sorted: seq<real>, bound: real, otherwise: real): real {
    if sorted == [] then otherwise
    else if sorted[|sorted| - 1] <= bound then sorted[|sorted| - 1]
    else LastAtMost(sorted[..|sorted| - 1], bound, otherwise)
  }

  function Whisker(q1: real, q3: real): real {
    1.5 * (q3 - q1)
  }

  function TukeyFences(sorted: seq<real>, q1: real, q3: real): (real, real) {
    (FirstAtLeast(sorted, q1 - Whisker(q1, q3), q1), LastAtMost(sorted, q3 + Whisker(q1, q3), q3))
  }

  /** With an observation at or above the bound, the first one found is the least. */
  lemma {:induction false} FirstAtLeastIsLeast(s: seq<real>, bound: real, otherwise: real, k: nat)
    requires Ascending(s) && k < |s| && s[k] >= bound
    ensures var f := FirstAtLeast(s, bound, otherwise);
            f in s && f >= bound && forall i :: 0 <= i < |s| && s[i] >= bound ==> f <= s[i]
  {
    if s[0] < bound {
      FirstAtLeastIsLeast(s[1..], bound, otherwise, k - 1);
      forall i | 0 <= i < |s| && s[i] >= bound
        ensures FirstAtLeast(s, bound, otherwise) <= s[i]
      {
        assert s[i] == s[1..][i - 1];
      }
    }
  }

  lemma {:induction false} LastAtMostIsGreatest(s: seq<real>, bound: real, otherwise: real, k: nat)
    requires Ascending(s) && k < |s| && s[k] <= bound
    ensures var f := LastAtMost(s, bound, otherwise);
            f in s && f <= bound && forall i :: 0 <= i < |s| && s[i] <= bound ==> s[i] <= f
  {
    var n := |s| - 1;
    if s[n] > bound {
      LastAtMostIsGreatest(s[..n], bound, otherwise, k);
      forall i | 0 <= i < |s| && s[i] <= bound
        ensures s[i] <= LastAtMost(s, bound, otherwise)
      {
        assert s[i] == s[..n][i];
      }
    }
  }

  // ---------------------------------------------------------------------------
  // The summary

  function Sum(s: seq<real>): real {
    if s == [] then 0.0 else Sum(s[..|s| - 1]) + s[|s| - 1]
  }

  function Summary(sorted: seq<real>): SixStats
    requires |sorted| > 0
  {
    var q1 := R7Quantile(sorted, 0.25);
    var q3 := R7Quantile(sorted, 0.75);
    var (low, high) := TukeyFences(sorted, q1, q3);
    SixStats(Sum(sorted) / |sorted| as real, R7Quantile(sorted, 0.5), q1, q3,
             sorted[0], sorted[|sorted| - 1], low, high)
  }

  function R7Distribution(values: seq<real>): Option<SixStats> {
    if values == [] then None
    else
      var sorted := Sort(values, (x: real, y: real) => x <= y);
      assert |multiset(sorted)| == |multiset(values)|;
      Some(Summary(sorted))
  }

  lemma {:induction false} SumBounds(s: seq<real>, lo: real, hi: real)
    requires forall i :: 0 <= i < |s| ==> lo <= s[i] <= hi
    ensures |s| as real * lo <= Sum(s) <= |s| as real * hi
  {
    if s != [] {
      SumBounds(s[..|s| - 1], lo, hi);
      assert |s| as real * lo == (|s| - 1) as real * lo + lo;
      assert |s| as real * hi == (|s| - 1) as real * hi + hi;
    }
  }

  lemma MeanBounds(s: seq<real>, lo: real, hi: real)
    requires |s| > 0 && forall i :: 0 <= i < |s| ==> lo <= s[i] <= hi
    ensures lo <= Sum(s) / |s| as real <= hi
  {
    SumBounds(s, lo, hi);
    Quotient(Sum(s), |s| as real, lo, hi);
  }

  lemma Quotient(x: real, n: real, lo: real, hi: real)
    requires n > 0.0 && n * lo <= x <= n * hi
    ensures lo <= x / n <= hi
  {
    assert n * (x / n) == x;
    Cancel(n, lo, x / n);
    Cancel(n, x / n, hi);
  }

  lemma Cancel(n: real, a: real, b: real)
    requires n > 0.0 && n * a <= n * b
    ensures a <= b
  {
    if a > b {
      Positive(n, a - b);
    }
  }

  lemma Positive(n: real, d: real)
    requires n > 0.0 && d > 0.0
    ensures n * d > 0.0
  {
  }

  /** The upper neighbour of the first quartile lies within the fences' bounds. */
  lemma InnerObservation(s: seq<real>) returns (k: nat)
    requires |s| > 0 && Ascending(s)
    ensures k < |s|
    ensures var q1 := R7Quantile(s, 0.25); var q3 := R7Quantile(s, 0.75);
            q1 - Whisker(q1, q3) <= s[k] <= q3 + Whisker(q1, q3)
  {
    var n := |s|;
    var q1, q3 := R7Quantile(s, 0.25), R7Quantile(s, 0.75);
    QuantileMonotone(s, 0.25, 0.75);
    QuantileBetween(s, 0.25);
    QuantileBetween(s, 0.75);
    var lo1, lo3 := Rank(n, 0.25).Floor, Rank(n, 0.75).Floor;
    k := if lo1 + 1 < n - 1 then lo1 + 1 else n - 1;
    if n == 2 {
      assert Rank(n, 0.25) == 0.25 && Rank(n, 0.75) == 0.75;
      assert q1 == s[0] + 0.25 * (s[1] - s[0]) && q3 == s[0] + 0.75 * (s[1] - s[0]);
    } else if n > 2 {
      assert Rank(n, 0.75) >= Rank(n, 0.25) + 1.0;
      assert s[k] <= s[lo3];
    }
  }

  /** A fence is the extreme observation inside its bound. */
  lemma FencesAreExtreme(s: seq<real>, i: nat)
    requires |s| > 0 && Ascending(s) && i < |s|
    ensures var t := Summary(s); var whisker := Whisker(t.q1, t.q3);
            && t.q1 - whisker <= t.fenceLow && t.fenceHigh <= t.q3 + whisker
            && (s[i] < t.fenceLow ==> s[i] < t.q1 - whisker)
            && (s[i] > t.fenceHigh ==> s[i] > t.q3 + whisker)
  {
    hide R7Quantile, Whisker, Sum, FirstAtLeast, LastAtMost;
    var q1, q3 := R7Quantile(s, 0.25), R7Quantile(s, 0.75);
    var k := InnerObservation(s);
    FirstAtLeastIsLeast(s, q1 - Whisker(q1, q3), q1, k);
    LastAtMostIsGreatest(s, q3 + Whisker(q1, q3), q3, k);
  }

  /** Both fences are observations, in order. */
  lemma FencesOrdered(s: seq<real>)
    requires |s| > 0 && Ascending(s)
    ensures var t := Summary(s); t.fenceLow <= t.fenceHigh && t.fenceLow in s && t.fenceHigh in s
  {
    hide R7Quantile, Whisker, Sum, FirstAtLeast, LastAtMost;
    var q1, q3 := R7Quantile(s, 0.25), R7Quantile(s, 0.75);
    var k := InnerObservation(s);
    FirstAtLeastIsLeast(s, q1 - Whisker(q1, q3), q1, k);
    LastAtMostIsGreatest(s, q3 + Whisker(q1, q3), q3, k);
  }

  /** The order of the summary of any sorted sample. */
  lemma SummaryOrdered(s: seq<real>)
    requires |s| > 0 && Ascending(s)
    ensures var t := Summary(s);
            && t.min <= t.q1 <= t.median <= t.q3 <= t.max
            && t.min <= t.mean <= t.max
            && t.min <= t.fenceLow <= t.fenceHigh <= t.max
            && t.fenceLow in s && t.fenceHigh in s
  {
    hide R7Quantile, TukeyFences, Sum;
    QuantileEnds(s);
    QuantileMonotone(s, 0.0, 0.25);
    QuantileMonotone(s, 0.25, 0.5);
    QuantileMonotone(s, 0.5, 0.75);
    QuantileMonotone(s, 0.75, 1.0);
    assert forall x :: x in s ==> s[0] <= x <= s[|s| - 1];
    MeanBounds(s, s[0], s[|s| - 1]);
    FencesOrdered(s);
  }

  /** With equal quartiles the fences are the quartiles. */
  lemma ZeroIqrFences(s: seq<real>)
    requires |s| > 0 && Ascending(s) && Summary(s).q1 == Summary(s).q3
    ensures Summary(s).fenceLow == Summary(s).q1 && Summary(s).fenceHigh == Summary(s).q3
  {
    var k := InnerObservation(s);
    assert s[k] == Summary(s).q1;
    FencesAreExtreme(s, k);
  }

  /** The summary does not depend on the order of the sample. */
  lemma PermutationInvariant(a: seq<real>, b: seq<real>)
    requires multiset(a) == multiset(b)
    ensures R7Distribution(a) == R7Distribution(b)
  {
    assert |multiset(a)| == |a| && |multiset(b)| == |b|;
    var le := (x: real, y: real) => x <= y;
    SortedUnique(Sort(a, le), Sort(b, le), le);
  }

  /** The statement for any non-empty sample, in any order. */
  lemma DistributionOrdered(values: seq<real>)
    requires values != []
    ensures R7Distribution(values).Some?
    ensures var t := R7Distribution(values).value;
            && t.min <= t.q1 <= t.median <= t.q3 <= t.max && t.min <= t.mean <= t.max
            && t.min <= t.fenceLow <= t.fenceHigh <= t.max
            && t.fenceLow in values && t.fenceHigh in values
            && (t.q1 == t.q3 ==> t.fenceLow == t.q1 && t.fenceHigh == t.q3)
            && t.min in values && t.max in values && forall x :: x in values ==> t.min <= x <= t.max
  {
    var le := (x: real, y: real) => x <= y;
    var s := Sort(values, le);
    SortKeeps(values, le);
    assert Ascending(s) by {
      forall i, j | 0 <= i < j < |s|
        ensures s[i] <= s[j]
      {
        assert le(s[i], s[j]);
      }
    }
    SummaryOrdered(s);
    if Summary(s).q1 == Summary(s).q3 {
      ZeroIqrFences(s);
    }
    forall x | x in values
      ensures s[0] <= x <= s[|s| - 1]
    {
      assert x in s;
    }
    assert s[0] in s && s[|s| - 1] in s;
  }

  // ---------------------------------------------------------------------------
  // The summary, number by number

  /** Sums add up over pieces, from single observations. */
  lemma {:induction false} SumAdds(a: seq<real>, b: seq<real>, x: real)
    ensures Sum(a + b) == Sum(a) + Sum(b)
    ensures Sum([x]) == x
  {
    assert [x][..0] == [];
    if b == [] {
      assert a + b == a;
    } else {
      assert (a + b)[..|a| + |b| - 1] == a + b[..|b| - 1];
      SumAdds(a, b[..|b| - 1], x);
    }
  }

  /** The value at a fractional rank of a sorted sample: the observation below it, and
      towards the next one by the fraction. */
  ghost predicate IsAtRank(s: seq<real>, rank: real, q: real) {
    exists k: nat :: IsBetween(s, k, rank, q)
  }

  ghost predicate IsBetween(s: seq<real>, k: nat, rank: real, q: real) {
    && k < |s| && k as real <= rank < k as real + 1.0
    && q == if k + 1 < |s| then s[k] + (rank - k as real) * (s[k + 1] - s[k]) else s[k]
  }

  lemma QuantileIsAtRank(s: seq<real>, p: real)
    requires |s| > 0 && 0.0 <= p <= 1.0
    ensures IsAtRank(s, (|s| - 1) as real * p, R7Quantile(s, p))
  {
    var n := |s|;
    RankInRange(n, p);
    var h := (|s| - 1) as real * p;
    assert h == Rank(n, p);
    var k: nat := h.Floor;
    assert k as real <= h < k as real + 1.0;
    hide Rank;
    if k + 1 == n {
      FlatBlend(s[k], h - k as real);
      assert R7Quantile(s, p) == s[k];
    } else {
      assert UpperIndex(n, h) == k + 1;
      assert R7Quantile(s, p) == Blend(s[k], s[k + 1] - s[k], h - k as real);
    }
    hide R7Quantile, Blend;
    AtRank(s, k, h, R7Quantile(s, p));
  }

  lemma AtRank(s: seq<real>, k: nat, h: real, q: real)
    requires k < |s| && k as real <= h < k as real + 1.0
    requires q == if k + 1 < |s| then Blend(s[k], s[k + 1] - s[k], h - k as real) else s[k]
    ensures IsAtRank(s, h, q)
  {
    assert IsBetween(s, k, h, q);
  }

  lemma FlatBlend(a: real, f: real)
    ensures Blend(a, a - a, f) == a
  {
  }

  /** The smallest observation that is at least the bound, or the largest at most. */
  ghost predicate IsLeastFrom(s: seq<real>, bound: real, x: real) {
    x in s && bound <= x && forall y :: y in s && bound <= y ==> x <= y
  }

  ghost predicate IsGreatestUpTo(s: seq<real>, bound: real, x: real) {
    x in s && x <= bound && forall y :: y in s && y <= bound ==> y <= x
  }

  /** Every number of the summary, from the sorted observations. The fences reach one and
      a half times the distance of the quartiles. */
  lemma DistributionMeans(values: seq<real>, s: seq<real>)
    requires values != [] && multiset(s) == multiset(values) && Ascending(s)
    ensures R7Distribution(values).Some?
    ensures var t := R7Distribution(values).value; var n := |s|;
            && n > 0 && t.mean * n as real == Sum(s)
            && t.min == s[0] && t.max == s[n - 1]
            && IsAtRank(s, (n - 1) as real * 0.25, t.q1)
            && IsAtRank(s, (n - 1) as real * 0.5, t.median)
            && IsAtRank(s, (n - 1) as real * 0.75, t.q3)
            && IsLeastFrom(s, t.q1 - 1.5 * (t.q3 - t.q1), t.fenceLow)
            && IsGreatestUpTo(s, t.q3 + 1.5 * (t.q3 - t.q1), t.fenceHigh)
  {
    hide R7Quantile, TukeyFences, Sum, IsAtRank, IsLeastFrom, IsGreatestUpTo, R7Distribution;
    SortedIs(values, s);
    QuantileIsAtRank(s, 0.25);
    QuantileIsAtRank(s, 0.5);
    QuantileIsAtRank(s, 0.75);
    SummaryFences(s);
    MeanTimes(Sum(s), |s| as real);
  }

  lemma SortedIs(values: seq<real>, s: seq<real>)
    requires values != [] && multiset(s) == multiset(values) && Ascending(s)
    ensures s != [] && R7Distribution(values) == Some(Summary(s))
  {
    hide Summary;
    var le := (x: real, y: real) => x <= y;
    assert |multiset(s)| == |s| && |multiset(values)| == |values|;
    assert SortedBy(s, le);
    SortedUnique(Sort(values, le), s, le);
  }

  lemma MeanTimes(sum: real, n: real)
    requires n > 0.0
    ensures sum / n * n == sum
  {
  }

  lemma SummaryFences(s: seq<real>)
    requires |s| > 0 && Ascending(s)
    ensures var t := Summary(s);
            && IsLeastFrom(s, t.q1 - 1.5 * (t.q3 - t.q1), t.fenceLow)
            && IsGreatestUpTo(s, t.q3 + 1.5 * (t.q3 - t.q1), t.fenceHigh)
  {
    var t := Summary(s);
    assert Whisker(t.q1, t.q3) == 1.5 * (t.q3 - t.q1);
    hide R7Quantile, Whisker, Sum;
    FencesOrdered(s);
    FencesAreExtreme(s, 0);
    forall y | y in s
      ensures t.q1 - Whisker(t.q1, t.q3) <= y ==> t.fenceLow <= y
      ensures y <= t.q3 + Whisker(t.q1, t.q3) ==> y <= t.fenceHigh
    {
      var i :| 0 <= i < |s| && s[i] == y;
      FencesAreExtreme(s, i);
    }
  }
}
