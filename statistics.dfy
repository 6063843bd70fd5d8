/**
 * The per-channel statistics of the centre-region sampler: numpy's mean, median,
 * min, max and linear-interpolation percentiles over one channel's samples, each
 * converted to an integer the way `.astype(int)` and `int()` do, and the mean of
 * the samples lying between the truncated quartiles.
 *
 * numpy works on IEEE doubles; here every intermediate value is an exact real.
 */
module Statistics {

  /** Python's `int()` / numpy's `.astype(int)` on a float: truncation toward zero. */
  function Trunc(x: real): (r: int)
    ensures 0.0 <= x ==> r as real <= x < r as real + 1.0
    ensures x <= 0.0 ==> r as real - 1.0 < x <= r as real
  {
    if x >= 0.0 then x.Floor else -((-x).Floor)
  }

  function Sum(xs: seq<int>): int
  {
    if |xs| == 0 then 0 else xs[0] + Sum(xs[1..])
  }

  /** `np.mean`: the exact arithmetic mean. */
  function Mean(xs: seq<int>): real
    requires |xs| > 0
  {
    Sum(xs) as real / |xs| as real
  }

  predicate InRange(xs: seq<int>, lo: int, hi: int)
  {
    forall i :: 0 <= i < |xs| ==> lo <= xs[i] <= hi
  }

  predicate IsSorted(s: seq<int>)
  {
    forall i, j :: 0 <= i <= j < |s| ==> s[i] <= s[j]
  }

  function Insert(x: int, s: seq<int>): (r: seq<int>)
    requires IsSorted(s)
    ensures IsSorted(r) && |r| == |s| + 1
    ensures multiset(r) == multiset(s) + multiset{x}
    ensures forall k :: 0 <= k < |r| ==> r[k] == x || r[k] in s
  {
    if |s| == 0 || x <= s[0] then [x] + s
    else
      var tail := s[1..];
      assert IsSorted(tail) by {
        forall i, j | 0 <= i <= j < |tail| ensures tail[i] <= tail[j] {
          assert tail[i] == s[i + 1] && tail[j] == s[j + 1];
        }
      }
      var rest := Insert(x, tail);
      assert s == [s[0]] + tail;
      forall k | 0 <= k < |rest| ensures s[0] <= rest[k] {
        if rest[k] != x {
          var j :| 0 <= j < |tail| && tail[j] == rest[k];
          assert tail[j] == s[j + 1];
        }
      }
      [s[0]] + rest
  }

  /** The ascending order numpy's `median` and `percentile` work on. */
  function Sort(xs: seq<int>): (r: seq<int>)
    ensures IsSorted(r) && |r| == |xs|
    ensures multiset(r) == multiset(xs)
  {
    if |xs| == 0 then []
    else
      assert xs == [xs[0]] + xs[1..];
      Insert(xs[0], Sort(xs[1..]))
  }

  /** `np.min`: the least sample. */
  function Min(xs: seq<int>): (m: int)
    requires |xs| > 0
    ensures m in xs
    ensures forall i :: 0 <= i < |xs| ==> m <= xs[i]
  {
    if |xs| == 1 then xs[0]
    else
      var t := Min(xs[1..]);
      assert forall i :: 1 <= i < |xs| ==> xs[1..][i - 1] == xs[i];
      if xs[0] <= t then xs[0] else t
  }

  /** `np.max`: the greatest sample. */
  function Max(xs: seq<int>): (m: int)
    requires |xs| > 0
    ensures m in xs
    ensures forall i :: 0 <= i < |xs| ==> xs[i] <= m
  {
    if |xs| == 1 then xs[0]
    else
      var t := Max(xs[1..]);
      assert forall i :: 1 <= i < |xs| ==> xs[1..][i - 1] == xs[i];
      if xs[0] >= t then xs[0] else t
  }

  /**
   * numpy's default ('linear') percentile rule on the sorted samples `s`, at the
   * virtual index h = k / 100 where k = (n - 1) * q: the value at index floor(h),
   * moved toward the next sample by the fractional part of h. The upper index is
   * clipped to n - 1, as numpy does.
   */
  function Interpolate(s: seq<int>, k: nat): real
    requires |s| > 0 && k <= (|s| - 1) * 100
  {
    var lo := k / 100;
    var hi := if lo + 1 < |s| then lo + 1 else lo;
    var t := (k % 100) as real / 100.0;
    s[lo] as real + t * (s[hi] - s[lo]) as real
  }

  lemma ScaleBound(n: nat, q: int)
    requires 0 <= q <= 100
    ensures 0 <= n * q <= n * 100
  {
  }

  /** `np.percentile(xs, q)` for a whole-number q in 0..100. */
  function Percentile(xs: seq<int>, q: int): real
    requires |xs| > 0 && 0 <= q <= 100
  {
    ScaleBound(|xs| - 1, q);
    Interpolate(Sort(xs), (|xs| - 1) * q)
  }

  /** `np.median`: the middle sample, or the mean of the two middle samples. */
  function Median(xs: seq<int>): real
    requires |xs| > 0
  {
    var s := Sort(xs);
    var n := |s|;
    if n % 2 == 1 then s[n / 2] as real
    else (s[n / 2 - 1] + s[n / 2]) as real / 2.0
  }

  /** The boolean-mask selection `xs[(xs >= lo) & (xs <= hi)]`, in order. */
  function Between(xs: seq<int>, lo: int, hi: int): (r: seq<int>)
    ensures InRange(r, lo, hi)
    ensures forall i :: 0 <= i < |r| ==> r[i] in xs
    ensures forall i :: 0 <= i < |xs| && lo <= xs[i] <= hi ==> xs[i] in r
    ensures forall v :: multiset(r)[v] == if lo <= v <= hi then multiset(xs)[v] else 0
  {
    if |xs| == 0 then []
    else
      var tail := xs[1..];
      var rest := Between(tail, lo, hi);
      assert forall i :: 1 <= i < |xs| ==> tail[i - 1] == xs[i];
      assert xs == [xs[0]] + tail;
      assert multiset(xs) == multiset{xs[0]} + multiset(tail);
      if lo <= xs[0] <= hi then
        assert multiset([xs[0]] + rest) == multiset{xs[0]} + multiset(rest);
        [xs[0]] + rest
      else rest
  }

  /** The IQR loop body: the truncated mean of the samples in [lo, hi], or `fallback` if there are none. */
  function IqrMean(xs: seq<int>, lo: int, hi: int, fallback: int): int
  {
    var inside := Between(xs, lo, hi);
    if |inside| > 0 then Trunc(Mean(inside)) else fallback
  }

  datatype ChannelStats = ChannelStats(
    mean: int, median: int, min: int, max: int, q1: int, q3: int, iqrMean: int)
  {
    /** The statistics in the column order of the summary table. */
    function Field(k: nat): int
      requires k < 7
    {
      match k
      case 0 => mean
      case 1 => median
      case 2 => min
      case 3 => max
      case 4 => q1
      case 5 => q3
      case 6 => iqrMean
    }
  }

  /** The seven integer statistics of one channel's samples. */
  function ChannelStatsOf(xs: seq<int>): ChannelStats
    requires |xs| > 0
  {
    var mean := Trunc(Mean(xs));
    var q1 := Trunc(Percentile(xs, 25));
    var q3 := Trunc(Percentile(xs, 75));
    ChannelStats(mean, Trunc(Median(xs)), Min(xs), Max(xs), q1, q3, IqrMean(xs, q1, q3, mean))
  }

  // ---------------------------------------------------------------------------
  // Lemmas

  /** The mask keeps repeated samples, so they weigh in the IQR mean: [1, 1, 4] gives 2, not 2.5. */
  lemma IqrMeanCountsDuplicates()
    ensures IqrMean([1, 1, 4], 0, 4, 9) == 2
  {
    var xs := [1, 1, 4];
    assert xs[1..] == [1, 4] && xs[1..][1..] == [4] && xs[1..][1..][1..] == [];
    assert Between(xs, 0, 4) == xs;
    assert Sum([4]) == 4 && Sum([1, 4]) == 5 && Sum(xs) == 6;
  }

  lemma Distribute(n: real, v: real)
    ensures (n + 1.0) * v == n * v + v
  {
  }

  lemma {:induction false} SumBounds(xs: seq<int>, lo: int, hi: int)
    requires InRange(xs, lo, hi)
    ensures (|xs| as real) * (lo as real) <= Sum(xs) as real <= (|xs| as real) * (hi as real)
  {
    if |xs| > 0 {
      var tail := xs[1..];
      assert InRange(tail, lo, hi) by {
        forall i | 0 <= i < |tail| ensures lo <= tail[i] <= hi {
          assert tail[i] == xs[i + 1];
        }
      }
      SumBounds(tail, lo, hi);
      var n := |tail| as real;
      assert |xs| as real == n + 1.0;
      assert Sum(xs) as real == xs[0] as real + Sum(tail) as real;
      Distribute(n, lo as real);
      Distribute(n, hi as real);
    }
  }

  lemma QuotientBounds(s: real, n: real, lo: real, hi: real)
    requires 0.0 < n && n * lo <= s <= n * hi
    ensures lo <= s / n <= hi
  {
    var m := s / n;
    assert m * n == s;
  }

  /** The mean of samples in [lo, hi] lies in [lo, hi]. */
  lemma MeanBounds(xs: seq<int>, lo: int, hi: int)
    requires |xs| > 0 && InRange(xs, lo, hi)
    ensures lo as real <= Mean(xs) <= hi as real
  {
    SumBounds(xs, lo, hi);
    QuotientBounds(Sum(xs) as real, |xs| as real, lo as real, hi as real);
  }

  /** Truncating a non-negative value between two integers stays between them. */
  lemma TruncBetween(x: real, lo: int, hi: int)
    requires 0 <= lo && lo as real <= x <= hi as real
    ensures lo <= Trunc(x) <= hi
  {
  }

  lemma TruncMonotone(x: real, y: real)
    requires 0.0 <= x <= y
    ensures Trunc(x) <= Trunc(y)
  {
  }

  /** The interpolated value lies between the two samples it interpolates. */
  lemma InterpolateBetween(s: seq<int>, k: nat)
    requires |s| > 0 && k <= (|s| - 1) * 100 && IsSorted(s)
    ensures var lo := k / 100;
            var hi := if lo + 1 < |s| then lo + 1 else lo;
            s[lo] as real <= Interpolate(s, k) <= s[hi] as real
  {
    var lo := k / 100;
    var hi := if lo + 1 < |s| then lo + 1 else lo;
    var t := (k % 100) as real / 100.0;
    assert 0.0 <= t < 1.0;
    assert s[lo] <= s[hi];
    var d := (s[hi] - s[lo]) as real;
    assert 0.0 <= t * d <= d;
    assert Interpolate(s, k) == s[lo] as real + t * d;
  }

  /** Interpolation is monotone in the virtual index. */
  lemma InterpolateMonotone(s: seq<int>, k: nat, k': nat)
    requires |s| > 0 && k <= k' <= (|s| - 1) * 100 && IsSorted(s)
    ensures Interpolate(s, k) <= Interpolate(s, k')
  {
    var lo, lo' := k / 100, k' / 100;
    InterpolateBetween(s, k);
    InterpolateBetween(s, k');
    if lo == lo' {
      var hi := if lo + 1 < |s| then lo + 1 else lo;
      var t, t' := (k % 100) as real / 100.0, (k' % 100) as real / 100.0;
      assert t <= t';
      var d := (s[hi] - s[lo]) as real;
      assert 0.0 <= d;
      assert t * d <= t' * d;
    } else {
      assert lo + 1 <= lo' && lo + 1 < |s|;
      assert s[lo + 1] <= s[lo'];
    }
  }

  lemma SortedEnds(xs: seq<int>)
    requires |xs| > 0
    ensures Sort(xs)[0] == Min(xs) && Sort(xs)[|xs| - 1] == Max(xs)
  {
    var s := Sort(xs);
    var n := |s|;
    assert s[0] in multiset(xs) && s[n - 1] in multiset(xs);
    assert s[0] in xs && s[n - 1] in xs;
    assert Min(xs) <= s[0] && s[n - 1] <= Max(xs);
    assert Min(xs) in multiset(s) && Max(xs) in multiset(s);
    assert Min(xs) in s && Max(xs) in s;
    var i :| 0 <= i < n && s[i] == Min(xs);
    var j :| 0 <= j < n && s[j] == Max(xs);
    assert s[0] <= s[i] && s[j] <= s[n - 1];
  }

  /** `np.min` and `np.max` are the 0th and 100th percentiles. */
  lemma MinMaxArePercentiles(xs: seq<int>)
    requires |xs| > 0
    ensures Percentile(xs, 0) == Min(xs) as real
    ensures Percentile(xs, 100) == Max(xs) as real
  {
    SortedEnds(xs);
    InterpolateEnds(Sort(xs));
  }

  /** At virtual index 0 and n - 1 the rule picks the first and the last sample. */
  lemma InterpolateEnds(s: seq<int>)
    requires |s| > 0
    ensures Interpolate(s, 0) == s[0] as real
    ensures Interpolate(s, (|s| - 1) * 100) == s[|s| - 1] as real
  {
    var n := |s| - 1;
    var k := n * 100;
    assert k / 100 == n && k % 100 == 0;
  }

  /** `np.median` agrees with the 50th percentile under the linear rule. */
  lemma MedianIsPercentile50(xs: seq<int>)
    requires |xs| > 0
    ensures Median(xs) == Percentile(xs, 50)
  {
    var n := |xs|;
    var k := (n - 1) * 50;
    if n % 2 == 1 {
      var m := n / 2;
      assert n - 1 == 2 * m;
      assert k == 100 * m;
      assert k / 100 == m && k % 100 == 0;
    } else {
      var m := n / 2;
      assert n == 2 * m && m >= 1;
      assert k == 100 * (m - 1) + 50;
      assert k / 100 == m - 1 && k % 100 == 50;
    }
  }

  /** Percentiles of the same samples are ordered like their ranks. */
  lemma PercentileMonotone(xs: seq<int>, q: int, q': int)
    requires |xs| > 0 && 0 <= q <= q' <= 100
    ensures Percentile(xs, q) <= Percentile(xs, q')
  {
    var n: nat := |xs| - 1;
    assert n * q <= n * q' by {
      assert n * q' - n * q == n * (q' - q);
    }
    ScaleBound(n, q);
    ScaleBound(n, q');
    InterpolateMonotone(Sort(xs), n * q, n * q');
  }

  /**
   * The ordering of the seven statistics of a channel of 8-bit samples:
   * min <= q1 <= median <= q3 <= max and min <= mean <= max, all in 0..255.
   */
  lemma ChannelStatsOrdered(xs: seq<int>)
    requires |xs| > 0 && InRange(xs, 0, 255)
    ensures var st := ChannelStatsOf(xs);
            && 0 <= st.min <= st.q1 <= st.median <= st.q3 <= st.max <= 255
            && st.min <= st.mean <= st.max
            && st.min <= st.iqrMean <= st.max
  {
    var st := ChannelStatsOf(xs);
    MinMaxArePercentiles(xs);
    MedianIsPercentile50(xs);
    PercentileMonotone(xs, 0, 25);
    PercentileMonotone(xs, 25, 50);
    PercentileMonotone(xs, 50, 75);
    PercentileMonotone(xs, 75, 100);
    assert 0 <= Min(xs) && Max(xs) <= 255;
    TruncBetween(Percentile(xs, 25), Min(xs), Max(xs));
    TruncBetween(Percentile(xs, 75), Min(xs), Max(xs));
    TruncBetween(Median(xs), Min(xs), Max(xs));
    TruncMonotone(Percentile(xs, 25), Median(xs));
    TruncMonotone(Median(xs), Percentile(xs, 75));
    MeanBounds(xs, Min(xs), Max(xs));
    TruncBetween(Mean(xs), Min(xs), Max(xs));
    IqrMeanCases(xs, st.q1, st.q3, st.mean);
  }

  /** For 8-bit samples every truncated statistic is the floor of its exact value. */
  lemma ChannelStatsAreFloors(xs: seq<int>)
    requires |xs| > 0 && InRange(xs, 0, 255)
    ensures var st := ChannelStatsOf(xs);
            && st.mean == Mean(xs).Floor && st.median == Median(xs).Floor
            && st.q1 == Percentile(xs, 25).Floor && st.q3 == Percentile(xs, 75).Floor
  {
    assert 0 <= Min(xs);
    MeanBounds(xs, Min(xs), Max(xs));
    MinMaxArePercentiles(xs);
    MedianIsPercentile50(xs);
    PercentileMonotone(xs, 0, 25);
    PercentileMonotone(xs, 0, 50);
    PercentileMonotone(xs, 0, 75);
  }

  /**
   * The interquartile mean: when some sample lies in [lo, hi] it is the truncated
   * mean of those samples and so lies in [lo, hi]; otherwise it is the fallback.
   */
  lemma IqrMeanCases(xs: seq<int>, lo: int, hi: int, fallback: int)
    requires 0 <= lo
    ensures (exists i :: 0 <= i < |xs| && lo <= xs[i] <= hi) ==> lo <= IqrMean(xs, lo, hi, fallback) <= hi
    ensures (forall i :: 0 <= i < |xs| ==> !(lo <= xs[i] <= hi)) ==> IqrMean(xs, lo, hi, fallback) == fallback
  {
    var inside := Between(xs, lo, hi);
    if |inside| > 0 {
      MeanBounds(inside, lo, hi);
      TruncBetween(Mean(inside), lo, hi);
    } else {
      assert forall i :: 0 <= i < |xs| ==> !(lo <= xs[i] <= hi);
    }
  }

  /** The IQR-mean rule applied to a channel's own truncated quartiles and mean. */
  lemma ChannelIqrMean(xs: seq<int>)
    requires |xs| > 0 && InRange(xs, 0, 255)
    ensures var st := ChannelStatsOf(xs);
            && ((exists i :: 0 <= i < |xs| && st.q1 <= xs[i] <= st.q3) ==> st.q1 <= st.iqrMean <= st.q3)
            && ((forall i :: 0 <= i < |xs| ==> !(st.q1 <= xs[i] <= st.q3)) ==> st.iqrMean == st.mean)
  {
    ChannelStatsOrdered(xs);
    var st := ChannelStatsOf(xs);
    IqrMeanCases(xs, st.q1, st.q3, st.mean);
  }

  lemma ConstantSorted(xs: seq<int>, c: int)
    requires InRange(xs, c, c)
    ensures InRange(Sort(xs), c, c)
  {
    var s := Sort(xs);
    forall i | 0 <= i < |s| ensures s[i] == c {
      assert s[i] in multiset(xs);
    }
  }

  lemma ConstantPercentile(xs: seq<int>, c: int, q: int)
    requires |xs| > 0 && 0 <= c && InRange(xs, c, c) && 0 <= q <= 100
    ensures Trunc(Percentile(xs, q)) == c
  {
    ConstantSorted(xs, c);
    ScaleBound(|xs| - 1, q);
    InterpolateBetween(Sort(xs), (|xs| - 1) * q);
    TruncBetween(Percentile(xs, q), c, c);
  }

  /** When every sample of a channel equals c, all seven statistics equal c. */
  lemma ConstantChannel(xs: seq<int>, c: int)
    requires |xs| > 0 && 0 <= c && InRange(xs, c, c)
    ensures ChannelStatsOf(xs) == ChannelStats(c, c, c, c, c, c, c)
  {
    MeanBounds(xs, c, c);
    TruncBetween(Mean(xs), c, c);
    ConstantPercentile(xs, c, 25);
    ConstantPercentile(xs, c, 75);
    ConstantPercentile(xs, c, 50);
    MedianIsPercentile50(xs);
    IqrMeanCases(xs, c, c, c);
    assert xs[0] == c;
  }

  /** The two samples {0, 10}: q1 = 2 and q3 = 7, no sample lies between, so the IQR mean falls back to the mean. */
  lemma IqrFallbackExample()
    ensures ChannelStatsOf([0, 10]) == ChannelStats(5, 5, 0, 10, 2, 7, 5)
  {
    PairOrderStatistics();
    PairMeans();
  }

  lemma PairSorted()
    ensures Sort([0, 10]) == [0, 10]
  {
    var xs := [0, 10];
    assert xs[1..] == [10];
    assert Sort([10]) == Insert(10, Sort([])) == [10];
    assert Sort(xs) == Insert(0, Sort([10]));
  }

  lemma PairOrderStatistics()
    ensures Percentile([0, 10], 25) == 2.5 && Percentile([0, 10], 75) == 7.5
    ensures Median([0, 10]) == 5.0
  {
    PairSorted();
    var s := Sort([0, 10]);
    assert Percentile([0, 10], 25) == Interpolate(s, 25);
    assert Percentile([0, 10], 75) == Interpolate(s, 75);
    assert Interpolate([0, 10], 25) == 2.5;
    assert Interpolate([0, 10], 75) == 7.5;
  }

  lemma PairMeans()
    ensures Mean([0, 10]) == 5.0 && Min([0, 10]) == 0 && Max([0, 10]) == 10
    ensures Between([0, 10], 2, 7) == []
  {
    var xs := [0, 10];
    assert xs[1..] == [10] && [10][1..] == [];
    assert Sum(xs) == 10;
  }
}
